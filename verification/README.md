# TLS 1.3 client: records, handshake flight, transcript

A model of the record and handshake-flight engine of a TLS 1.3 client (RFC 8446), and proofs about
it. An arbitrarily chunked octet stream becomes records, decrypted records, reassembled handshake
messages, and finally transcripts and keys. Each step is proved on its own, and the steps are then
joined into statements about whole runs.

The main results, each for every input:

- **Application data.** `AppReader.ReadServerApplicationData` depends only on the octets received
  and on the final error, never on where reads cut them. What a peer seals arrives exactly and in
  order (`ApplicationDataArrives`), and a stream cut short delivers a prefix
  (`TruncationDeliversAPrefix`). Records that are dropped, repeated or moved deliver a prefix or a
  bad MAC (`OnlyAPrefixIsDelivered`); on any octets without a forged record, a success delivers a
  prefix of what was sealed (`OnlyWhatWasSealed`).
- **Handshake.** On any octets at all, steps 4 to 12 give session keys if and only if the octets have
  a reading as records, hello and messages whose chain, signature and MAC are right
  (`AcceptedExactly`, `DecryptExact`); the reading is unique, and no step meets a nil pointer. Without
  a forged record, an accepted flight carries exactly the messages of the honest server
  (`OnlyTheServersMessages`).
- **Handshake flight.** A flight that is well formed as far as the client looks, however it is
  fragmented and interleaved, decrypts to exactly its messages and is accepted if and only if the
  server proves itself (`HonestHandshake`, `AnswerDecides`). No proper first part of it counts as
  complete (`PartIsIncomplete`). It is read as exactly that flight if and only if some read ends with
  it (`HonestFlightIsRead`).
- **Session.** On one connection, from the flight to the response: with an honest server the session
  succeeds if and only if the server proves itself and some read ends with the flight, and then both
  sides have read exactly what the other sealed (`SessionWithHonestServer`). Unlike the application
  data, the flight does depend on how the octets are cut into reads (`CuttingMatters`).
- **Octets and errors.** What the functions say is tied to literal octets and numbers: nonces
  (`NonceOctets`), labels and the whole key schedule (`LabelInfos`, `SessionKeysOctets`), headers
  (`RecordOctets`, `SealedOctets`), a hello (`StandardHelloOctets`), message and extension types
  (`TookByType`, `WellFormedOctets`). Each stage has its errors told apart (`ReadSettles`,
  `CollectedErrors`, `RefusedMessage`, `RefusedFor`, ...).
- **Layers.** Framing is a bijection with a streaming law (`FramesExact`, `FramesAppend`); opening
  inverts sealing exactly on what may be opened (`SealedOpensExactly`); message collection is
  determined by the concatenated stream (`CollectedExact`); each message parser accepts exactly the
  encodings it should (`HelloExact`, `CertificateExact`, `EncryptedExtensionsExact`, ...).

## How it is laid out

| file | what it models |
|---|---|
| Bytes, Protocol | octets, fixed-width integers, cursor reads; constants and errors |
| Framing, Record | cutting streams into units; records and inner plaintexts |
| Nonce, Protection, Sequencing | nonces, sealing and opening, sequence numbers over batches |
| Wire, Connection, AppReader | sorting records and what a peer sends; read events; the application-data reader |
| Reassembly | handshake messages from records |
| Extensions, Messages, ServerHellos, ServerMessages | the message parsers |
| Dispatch, Transcript, KeySchedule, ScheduleOctets | the dispatcher, the transcripts, the keys, and the key schedule written out |
| Flow, FlightReader, HonestFlight | the pipeline, the flight reader, and the two together |
| Meaning | which octets decrypt and which are accepted, in terms of their contents |
| ServerFlights, AcceptedFlights, PlainClients | flights written out; flights that are accepted; one concrete client |
| Overrun, Session, HonestSession | reads past the flight; a whole session on one connection; when it succeeds |
| Ordering | protected records dropped, repeated, moved or mixed with others |

A loop of the source is a method with a loop, proved equal to a function of its inputs, and the
lemmas are about that function. A long loop body or the first part of a long method is a method of
its own (`DrainMessages`, `DecodeChunk`, `UnmarshalPrefix`). A message object whose `Unmarshal`
fills its fields is a class; its contract gives every field after success and after each failure.
Panics of the source are preconditions (an iv shorter than eight octets, sealing with one that is
not twelve, a slice beyond a message), and the client meets them.

What is assumed is a parameter: the cipher (`Lawful`: open inverts seal, sixteen octets of tag), the
lengths of hash outputs (`LawfulPrimitives`), and the length of an agreed secret (`LawfulClient`).
Chunking independence and `HandshakeExact` need nothing of the cipher. Two results about records out
of order assume more: that what is sealed under one nonce does not open under another
(`NonceBound`), or that no arriving record is forged (`NoForgery`). `PlainSuiteIsLawful` and
`PlainClientIsLawful` show that the laws can be met, `StandardFlightAccepted` and
`SomeSessionSucceeds` that the success side of the handshake and of the session is reached. The exact
result about sessions assumes that the first record of the response does not open under the
handshake key (`KeysSeparate`, met in `PlainKeysSeparate`). Chain verification and
signature verification are arbitrary functions. Read calls are a finite list of events; when it runs
out, the read deadline expires.

## Where the code differs from the standard or from itself

- The flight reader keeps what a read delivers after the flight, and then the flight is lost. An
  honest flight is returned exactly when some read ends with it (`HonestFlightIsRead`), and a session
  with a server that proves itself succeeds exactly then (`SessionWithHonestServer`). Read together
  with octets that end inside a record it fails whatever the cipher (`TogetherWithMore`; one octet is
  enough, `OneOctetMore`), and the same octets succeed when cut after the flight (`CuttingMatters`).
- The version, cipher suite and supported_versions of the server hello are never compared, and
  EncryptedExtensions may be missing. A flight is accepted exactly when chain, signature and MAC are
  right, whatever these say (`HonestFlightsExist`, `AcceptedExactly`); so besides flights that conform
  (`StandardFlightAccepted`) others are accepted (`NonconformingFlightAccepted`). A caller can tell
  them apart by `Conforms`.
- The session keys are derived over the whole encrypted flight, not up to Finished. The two agree
  exactly when Finished is last (`SessionTranscriptEndsWithFinished`), which is not checked: every
  accepted flight stays accepted with a message after it (`FinishedNeedNotBeLast`), and for one
  client and flight all keys are shown to differ (`KeysCoverWhatFollows`).
- The order of messages is not checked: in any order, the handshake succeeds exactly when chain,
  signature and MAC are right for the transcripts of that order (`AnswerDecides`,
  `TranscriptOrder`). A flight with Finished before CertificateVerify is accepted
  (`OrderIsNotChecked`, `PlainClientAcceptsOutOfOrder`).
- Sealing does not bound its content, though opening does; `SealedOpensExactly` gives the condition.
- A payload too long for its length field is written as nothing (`OversizedEntryVanishes`).
- A handshake message with an empty body is refused as malformed (`NewHandshakeCollects`).
- A `key_share` of two zero octets passes for an empty share of group zero (`LookupsAreTotal`).
- A ServerHello without an extension block leaves the receiver's extensions, valid or not
  (`StaleExtensionsSurvive`; `ValidExactly` gives the condition); the client only uses fresh receivers.
- Decoding one record at a time never refuses an empty batch, while decoding all at once checks the
  key length first: they agree exactly when there is a record or the key has 32 octets
  (`StepwiseIsWhole`), and `EmptyBatchDiffers` is an input on which they do not.

## Model

| member | source | states |
|---|---|---|
| `Framing.CutExact` | internal/messages/record/record.go:196-227 | The cut of a stream into units with a length known from their front is the only way to write it as whole units and a tail that holds none; records, messages and list entries are all cut this way |
| `Framing.CutAppend` | internal/utils/transport.go:234-239 | Cutting may stop anywhere and resume from the tail it left, with the same units |
| `Record.HeaderBytes` | internal/messages/record/record.go:115-123 | The header filled in by index is type, version and length, high octet first |
| `Record.NewTLSPlaintextExact` | internal/messages/record/record.go:52-63 | A fragment becomes a record exactly up to 16384 octets, and that record parses back from its encoding alone |
| `Record.ParseTLSPlaintextHeader` | internal/messages/record/record.go:157-177 | Fails only below five octets; otherwise the header of the result is those octets |
| `Record.ParseTLSPlaintext` | internal/messages/record/record.go:125-155 | Succeeds exactly when a whole record is in front, returns it and ignores what follows; otherwise says whether the header or the payload is short |
| `Record.RecordOfMarshal` | internal/messages/record/record.go:105-113 | The encoding of a record whose length field is right is one whole record and reads back as it |
| `Record.MarshalOfRecord` | internal/messages/record/record.go:125-155 | Every whole record is the encoding of what it reads as, with a right length field |
| `Record.FramesExact` | internal/messages/record/record.go:190-228 | Framing is a bijection: octets parse to (records, tail) if and only if they are the encodings of those records, with right lengths, and that tail, which holds no record |
| `Record.FramesAppend` | internal/messages/record/record.go:190-228 | Streaming law: parsing a and carrying its tail into b sees the records of a ++ b and leaves its tail |
| `Record.CarriedIsWhole` | internal/utils/transport.go:49-59 | Over any list of chunks, the reader that carries the tail sees the same records and tail as the one that parses everything again |
| `Record.ParseTLSPlaintextRecordsWithRemainder` | internal/messages/record/record.go:190-228 | The offset loop fails only on empty input and otherwise computes that framing; it ends because each turn consumes a record |
| `Record.ParseTLSPlaintextRecords` | internal/messages/record/record.go:179-188 | A tail makes a whole buffer fail, with the length of the tail |
| `Record.RecordsOnlyExact` | internal/messages/record/record.go:179-188 | A buffer is accepted as records if and only if it is the encoding of that non-empty list |
| `Record.InnerExact` | internal/messages/record/record.go:65-103 | Inner plaintext: parsing gives p if and only if the input is content ++ type ++ padding of p with a non-zero type and zero padding; it fails exactly on all-zero input |
| `Record.RecordOctets` | internal/messages/record/record.go:105-123 | Header and encoding octet by octet: type, version and length, high octets first, then the payload |
| `Record.RecordIsThere` | internal/messages/record/record.go:190-227 | A record is there exactly when five octets are and as many more as the last two of them count, and which record it is, octet by octet |
| `Record.ParseTLSInnerPlaintext` | internal/messages/record/record.go:75-103 | The backward scan finds the last non-zero octet, and tells empty from all-zero input |
| `Nonce.BuildTLS13Nonce` | internal/utils/utils.go:304-314 | The in-place loop yields the iv XOR the big-endian sequence number padded on the left with zeros |
| `Nonce.NonceUnique` | internal/utils/utils.go:304-314 | Under one iv two sequence numbers share a nonce only if equal; two ivs never share one; a second application restores the iv |
| `Nonce.XorBitByBit` | internal/utils/utils.go:308-311 | Each of the eight bits of the exclusive or is the sum of the two bits modulo two |
| `Nonce.NonceOctets` | internal/utils/utils.go:304-314 | Every octet of the nonce is the exclusive or of that of the iv and that of the number, whose eight octets stand last, the highest first, after zeros |
| `Nonce.NonceOfZeros` | internal/utils/utils.go:304-314 | Under an iv of zeros the nonce read as a number is the sequence number |
| `Protection.PlainSuiteIsLawful` | internal/utils/utils.go:135-146 | The laws assumed of the cipher (open inverts seal, sixteen octets of tag, and where stated no opening under another nonce) are satisfiable together |
| `Protection.EncryptTLS13RecordPayload` | internal/utils/transport.go:124-134 | A wrong key length is refused, otherwise the text is sealed under the record nonce and the given header |
| `Protection.EncryptTLS13Record` | internal/utils/transport.go:136-148 | The steps on the record give the sealed record, with the header of the final record as additional data |
| `Protection.DecodeTLSCiphertextRecordWithAEAD` | internal/utils/utils.go:72-106 | All branches of opening one record: pass-through, missing cipher, iv length, MAC, missing type, overflow |
| `Protection.OpenedExact` | internal/utils/utils.go:72-106 | A protected record opens to (content, type) if and only if the cipher accepts it under its nonce and header and the text is content ++ type ++ zeros, type non-zero, content at most 16384 octets |
| `Protection.OpenedErrors` | internal/utils/utils.go:85-101 | Exactly when each error arises: bad MAC, all-zero text, content over the limit |
| `Protection.OpenedBefore` | internal/utils/utils.go:72-87 | Records of other types than 23 pass as they are; and the error of a missing cipher, a wrong iv length and a payload shorter than a tag |
| `Protection.SealedOctets` | internal/utils/transport.go:136-148 | The sealed text is content and type, under the header 23, 3, 3 and the length of the sealed text, and the record carries the same header |
| `Protection.SealedOpensExactly` | internal/utils/transport.go:120-148 | Sealing sets no bound: what is sealed opens to itself if and only if its type is not zero and its content at most 16384 octets, and it can be framed if and only if it fits the length field |
| `Protection.SealedOpens` | internal/utils/transport.go:136-148 | One record through the wire: sealed, encoded, parsed alone from those octets, and opened at the same number, it is what was sent |
| `Protection.AdvanceIsSum` | internal/utils/utils.go:118-120 | Incrementing the uint64 number n times adds n modulo 2^64 |
| `Protection.NoncesRepeatOnlyAfterWrap` | internal/utils/utils.go:304-314 | Counting from zero, two records share a nonce if and only if their positions agree modulo 2^64 |
| `Protection.DecodeTLSCiphertextRecordsWithAEAD` | internal/utils/utils.go:108-133 | The batch loop decodes the records in order and stops at the first error |
| `Protection.OpenedAllExact` | internal/utils/utils.go:108-133 | A batch decodes to a list if and only if record i opens, at the start number plus the protected records before it, to item i with its version kept and its length recomputed |
| `Sequencing.DecodeTLSCiphertextRecordsRaw` | internal/utils/utils.go:135-146 | The key length is checked once, then the batch is decoded |
| `Sequencing.DecodeTLSCiphertextRecordsAndNextSeq` | internal/utils/transport.go:174-197 | The record-at-a-time loop and the number it carries on, in success and in failure |
| `Sequencing.StepwiseIsWhole` | internal/utils/transport.go:174-197 | One record at a time gives the same records or the same error as all at once if and only if there is a record to take or the key has 32 octets |
| `Sequencing.EmptyBatchDiffers` | internal/utils/utils.go:135-146 | Where they differ: on an empty batch with a key of one octet one gives no records, the other the key length error |
| `Sequencing.StepwiseAppend` | internal/utils/transport.go:174-197 | Decoding a ++ b is decoding a and then b from the number carried on, or the error of a |
| `Sequencing.SeqAfterSuccess` | internal/utils/transport.go:184-196 | On success the number advances by exactly the protected records |
| `Sequencing.SeqAfterFailure` | internal/utils/transport.go:184-192 | On failure it has moved past the first record that fails, whose error is returned and before which all records open |
| `Wire.ExtractApplicationDataCiphertextRecords` | internal/utils/transport.go:150-159 | Keeps the records of the protected type in order |
| `Wire.ParseRecords` | internal/utils/utils.go:17-36 | Sorts a fully framed buffer into clear and protected records, each in order |
| `Wire.NumbersUsed` | internal/utils/utils.go:118-120 | Sequence numbers are used up by the records of type 23 and no others; sorting splits a list into those and the rest |
| `Wire.SentDecodes` | internal/utils/transport.go:136-148 | Whatever a peer seals at consecutive numbers, interleaved with clear records, is well framed, sorts apart, and decodes to one record for each sealed item, in order |
| `AppReader.CollectApplicationDataFromPlaintextRecords` | internal/utils/transport.go:199-215 | Concatenates the application payloads and skips other types |
| `AppReader.PayloadsAreContents` | internal/utils/transport.go:199-215 | Of what a peer sends exactly the contents of type 23 are collected, in order |
| `AppReader.ContentsOfApplicationItems` | internal/utils/transport.go:199-215 | Those of application items alone are all concatenated |
| `AppReader.OtherItemsAddNothing` | internal/utils/transport.go:204-206 | An item of any other type adds nothing wherever it stands |
| `AppReader.StreamGrows` | internal/utils/transport.go:232-261 | More octets extend what was decoded, from the carried number, or leave the error already found |
| `AppReader.TakeIn` | internal/utils/transport.go:232-261 | One chunk: either the whole stream fails with this error whatever follows, or the carried tail, number, records and bytes are again those of the longer stream |
| `AppReader.DecodeChunk` | internal/utils/transport.go:233-261 | What one read does: the tail to carry, the protected records decoded from the carried number, and their application data |
| `AppReader.ReadServerApplicationData` | internal/utils/transport.go:217-283 | Chunking independence on arbitrary octets: the outcome is a function of the concatenation received and the final error alone |
| `AppReader.ApplicationDataArrives` | internal/utils/transport.go:217-283 | End to end: for anything a peer seals, cut off anywhere inside a further record, ended by EOF or the read deadline: exactly the contents of type 23 and one record for each sealed item; with none sealed, or any other end, it is the final error |
| `AppReader.FirstBadRecordDecides` | internal/utils/transport.go:243-248 | The first protected record that does not open decides the outcome whatever follows; the records before it open but are not delivered |
| `AppReader.TruncationDeliversAPrefix` | internal/utils/transport.go:263-281 | Cutting a good stream short delivers a prefix of its data and records, or only the final error |
| `Reassembly.CollectHandshakeMessages` | internal/utils/utils.go:242-281 | Fragmentation independence: messages and every error depend only on the concatenated handshake payloads |
| `Reassembly.CollectedExact` | internal/utils/utils.go:253-278 | Messages collect if and only if they concatenate to the stream, each with a non-zero length equal to its body; otherwise the error is that of the one tail left after the whole messages |
| `Reassembly.CollectedErrors` | internal/utils/utils.go:253-278 | Which error a stream gives, in terms of the octets of the tail after its whole messages |
| `Reassembly.MessageOctets` | internal/utils/utils.go:253-263 | When a message is whole and when a buffer holds none, in terms of the three length octets |
| `Reassembly.StreamOfRecord` | internal/utils/utils.go:246-251 | A record of type 22 adds its payload to the stream, any other adds nothing |
| `Reassembly.DrainMessages` | internal/utils/utils.go:253-268 | The inner loop cuts the buffer into whole messages and a tail that holds none, and says whether the tail announces an empty body |
| `Reassembly.BufferIsPrefixOfNext` | internal/utils/utils.go:246-269 | After any number of records of a list that collects, what the loop holds (its invariant says so) is the first messages, and its buffer is empty or a proper prefix of the next one |
| `Reassembly.MalformedIsFinal` | internal/utils/utils.go:253-258 | A zero length after whole messages fails at once, and would fail whatever came after |
| `Reassembly.ConcatHandshakeMessages` | internal/utils/transport.go:85-102 | The concatenation of the messages is the stream they came from |
| `Reassembly.FindFirstHandshakeMessage` | internal/utils/utils.go:283-298 | The first message of the type, or none when there is none |
| `Reassembly.FirstOfExact` | internal/utils/utils.go:283-298 | The message found is the first one with at least four octets of which the first is the type |
| `Reassembly.NewHandshakeCollects` | internal/messages/record/handshake/handshake.go:55-75 | A body up to 2^24 - 1 octets becomes a message of that type and body, which collects as itself exactly when the body is not empty |
| `Extensions.UnmarshalExtensions` | internal/messages/record/handshake/extensions/extensions.go:41-65 | The cursor loop reads a list of entries if it is filled exactly |
| `Extensions.EntriesExact` | internal/messages/record/handshake/extensions/extensions.go:31-65 | Reading gives es if and only if the data is the encoding of es and every payload fits 65535 octets |
| `Extensions.OversizedEntryVanishes` | internal/messages/record/handshake/extensions/extensions.go:31-39 | An entry whose payload does not fit is written as nothing: its list reads back empty |
| `Extensions.TaggedOctets` | internal/messages/record/handshake/extensions/extensions.go:31-39 | An entry octet by octet |
| `Extensions.ParseKeyShareClient` | internal/messages/record/handshake/extensions/key_share_extension.go:59-86 | Reads the prefixed list of shares; octets after it are not looked at |
| `Extensions.KeySharesRoundTrip` | internal/messages/record/handshake/extensions/key_share_extension.go:28-40 | Client shares come back if and only if each and their list fit their length fields, whatever follows the list |
| `Extensions.ServerKeyShareExact` | internal/messages/record/handshake/extensions/key_share_extension.go:88-116 | A payload is a share if and only if it is that entry written out whole; it is refused exactly when it is neither that nor two octets |
| `Extensions.SelectedGroup` | internal/messages/record/handshake/extensions/key_share_extension.go:92-98 | Two octets are a selected group, the high one first |
| `ServerHellos.CookieExact` | internal/messages/record/handshake/extensions/cookie_extension.go:41-58 | A cookie is accepted if and only if it is non-empty and fills the payload exactly |
| `ServerHellos.NoFaultIsValid` | internal/messages/record/handshake/server_hello.go:81-102 | The scan with the seen set finds no fault if and only if the types are pairwise distinct and the known payloads parse |
| `ServerHellos.CheckExtensions` | internal/messages/record/handshake/server_hello.go:81-102 | The loop reports the first fault in order |
| `ServerHellos.WellFormedOctets` | internal/messages/record/handshake/server_hello.go:88-101 | What is checked of payloads of types 43, 44 and 51, in octets, and that nothing is of others |
| `ServerHellos.FirstFaultIs` | internal/messages/record/handshake/server_hello.go:81-102 | The first extension that repeats a type or does not parse gives the error, repetition first |
| `ServerHellos.ServerHello.UnmarshalPrefix` | internal/messages/record/handshake/server_hello.go:34-63 | The fixed part: which fields are set, and what is left, on success and at each point of failure |
| `ServerHellos.ServerHello.Unmarshal` | internal/messages/record/handshake/server_hello.go:25-105 | Which fields are set, and to what, on success and at each point of failure; a body without extensions leaves the old ones |
| `Messages.HeaderStripped` | internal/messages/record/handshake/server_hello.go:30-32 | Four octets are dropped after the expected type and none otherwise |
| `ServerHellos.PrefixErrors` | internal/messages/record/handshake/server_hello.go:36-63 | Where the fixed part stops short, by the number of octets |
| `ServerHellos.PrefixFields` | internal/messages/record/handshake/server_hello.go:36-63 | Each field of the fixed part is read from its own octets, also when a later one is missing |
| `ServerHellos.BlockErrors` | internal/messages/record/handshake/server_hello.go:65-102 | After the fixed part: the block must count what is left and be a list of entries; on a fault in them they are already taken over |
| `ServerHellos.HelloExact` | internal/messages/record/handshake/server_hello.go:25-105 | Unmarshalling succeeds with h if and only if the body is h written out, with distinct and well-formed extensions or with no extension block and the receiver's own |
| `ServerHellos.ServerHello.SupportedVersion` | internal/messages/record/handshake/server_hello.go:107-119 | The first supported_versions entry, or which error |
| `ServerHellos.ServerHello.ServerShare` | internal/messages/record/handshake/server_hello.go:121-136 | The first key_share entry, or which error |
| `ServerHellos.LookupsAreTotal` | internal/messages/record/handshake/server_hello.go:107-136 | After a success on a fresh or valid receiver the version lookup fails exactly when the entry is absent, and the share lookup exactly when it is absent or names a non-zero group only; what is returned is the payload of the one such entry, and for two zero octets the empty share of group zero |
| `ServerHellos.LookupErrors` | internal/messages/record/handshake/server_hello.go:107-136 | Which error a lookup gives: no such extension, a payload that does not parse, or a hello retry request |
| `ServerHellos.ValidExactly` | internal/messages/record/handshake/server_hello.go:65-102 | After a success the extensions are distinct and well formed if and only if the body has octets after the compression method or the receiver was valid before |
| `ServerHellos.StaleExtensionsSurvive` | internal/messages/record/handshake/server_hello.go:65-67 | A receiver that is not valid keeps its extensions through a successful unmarshal of any body that ends with the compression method |
| `ServerMessages.EncryptedExtensions.Unmarshal` | internal/messages/record/handshake/encrypted_extensions.go:20-63 | The fields after the loop, on success and at the first fault |
| `ServerMessages.EncryptedExtensionsExact` | internal/messages/record/handshake/encrypted_extensions.go:32-60 | Succeeds if and only if the body is a prefixed list of distinct extensions whose server_name is empty, then anything; keeps the others in order and acknowledges the name if present |
| `ServerMessages.KeptIs` | internal/messages/record/handshake/encrypted_extensions.go:45-60 | Extensions of type 0 are acknowledged and all others kept in their place |
| `ServerMessages.ExtensionsFault` | internal/messages/record/handshake/encrypted_extensions.go:45-60 | The first extension that repeats a type, or carries a server name, gives the error |
| `ServerMessages.EncryptedExtensionsErrors` | internal/messages/record/handshake/encrypted_extensions.go:32-42 | The errors of a block that is short or is not a list of entries |
| `ServerMessages.SliceOfMessage` | internal/messages/record/handshake/encrypted_extensions.go:23-30 | On every collected message the header slice is in bounds and is the body |
| `ServerMessages.Certificate.Unmarshal` | internal/messages/record/handshake/certificate.go:17-53 | The certificates read so far, on success and at the first fault |
| `ServerMessages.CertificateExact` | internal/messages/record/handshake/certificate.go:17-53 | Succeeds with certs if and only if the body is an empty context and a list filled exactly by (certificate, extensions) entries with those certificates |
| `ServerMessages.EntryOctets` | internal/messages/record/handshake/certificate.go:36-50 | A certificate entry octet by octet |
| `ServerMessages.CertificateErrors` | internal/messages/record/handshake/certificate.go:24-34 | When the context, and when the list length, is refused, in octets |
| `ServerMessages.CertificateListFails` | internal/messages/record/handshake/certificate.go:36-50 | A list that ends inside an entry keeps the certificates before it, and says what is missing |
| `ServerMessages.CertificateVerify.Unmarshal` | internal/messages/record/handshake/certificate_verify.go:18-40 | The fields after reading, including the algorithm kept when the signature fails |
| `ServerMessages.CertificateVerifyExact` | internal/messages/record/handshake/certificate_verify.go:18-40 | Succeeds if and only if the body is the algorithm and the prefixed signature, filled exactly |
| `ServerMessages.CertificateVerifyErrors` | internal/messages/record/handshake/certificate_verify.go:18-40 | What is missing, in octets; an algorithm that was read is kept |
| `ServerMessages.Finished.Unmarshal` | internal/messages/record/handshake/finished.go:25-46 | The verify data after reading; the type octet is not compared |
| `ServerMessages.FinishedOfMessage` | internal/messages/record/handshake/finished.go:25-46 | A collected message always unmarshals, to its non-empty body |
| `ServerMessages.FinishedExact` | internal/messages/record/handshake/finished.go:25-46 | Unmarshalling succeeds exactly on one octet that is not looked at, a length of three octets and that many more, which are the verify data |
| `Dispatch.ParseServerTLS13HandshakeMessages` | internal/utils/utils.go:166-226 | The four pointers are nil or new objects that hold what the spec of the loop says; on an error all are nil |
| `Dispatch.DispatchExact` | internal/utils/utils.go:166-226 | Dispatching succeeds if and only if none of the four types repeats and each such message unmarshals; each result is there exactly when its type occurs and is what the first such message says |
| `Dispatch.SlotsByType` | internal/utils/utils.go:182-222 | Which of the four results is there, by message type number |
| `Dispatch.TookByType` | internal/utils/utils.go:182-222 | Messages of types 8, 11, 15 and 20 go through their parsers into their slots, and all others are passed over |
| `Dispatch.RefusedMessage` | internal/utils/utils.go:182-222 | The first message that is not taken gives the error: a second one of its type, or what its parser says |
| `KeySchedule.HkdfExpandLabelSHA256` | internal/key/key.go:399-421 | The info appended step by step, the two length errors and the output bound |
| `KeySchedule.InfoDecodes` | internal/key/key.go:408-413 | A decoder of the HkdfLabel structure gives back length modulo 2^16, label and context |
| `KeySchedule.InfoInjective` | internal/key/key.go:399-413 | Two derivations share an info string if and only if label, context and length modulo 2^16 agree |
| `KeySchedule.LabelsSeparate` | internal/key/key.go:148-206 | No two labels of the schedule ever share an info string |
| `ScheduleOctets.LabelInfos` | internal/key/key.go:399-413 | The octets of the info string for each of the eight labels, any context and any length |
| `ScheduleOctets.ExpandLabelErrors` | internal/key/key.go:399-421 | When a derivation is refused, and which error comes first |
| `KeySchedule.HandshakeSecretsExact` | internal/key/key.go:148-206 | The derivation fails exactly on an empty input; its keys and ivs have the sizes the cipher checks |
| `KeySchedule.HandshakeSecretsFollowTheSchedule` | internal/key/key.go:159-205 | The secrets are those of the Derive-Secret tree over client and server hello |
| `ScheduleOctets.HandshakeSecretsOctets` | internal/key/key.go:148-206 | The handshake secrets, keys and ivs written out with nothing but the hash functions and literal octets |
| `ScheduleOctets.SecretsErrors` | internal/key/key.go:148-158 | Which empty input is reported first |
| `KeySchedule.FinishedMacFollowsTheSchedule` | internal/key/key.go:232-241 | The Finished MAC is HMAC over the transcript hash under the finished key of the traffic secret |
| `ScheduleOctets.FinishedMacOctets` | internal/key/key.go:232-241 | The Finished MAC written out in the same way |
| `KeySchedule.VerifyTLS13ServerFinished` | internal/key/key.go:217-248 | Accepts if and only if the inputs are not empty and the data is the MAC of the transcript |
| `ScheduleOctets.FinishedErrors` | internal/key/key.go:217-248 | Why a Finished is refused |
| `KeySchedule.CollectTLS13HandshakeMessages` | internal/key/key.go:343-383 | The second collector computes the same function of the stream as the first |
| `KeySchedule.ConcatTLS13HandshakeMessages` | internal/key/key.go:324-341 | The second concatenation is the stream as well |
| `KeySchedule.DeriveTLS13ChaCha20ClientSessionKeys` | internal/key/key.go:250-322 | Messages first, then the keys over both hellos and all of them |
| `KeySchedule.SessionKeysFollowTheSchedule` | internal/key/key.go:261-321 | The session keys are those of the Derive-Secret tree, and the client verify data the MAC, over the whole transcript |
| `ScheduleOctets.SessionKeysOctets` | internal/key/key.go:261-321 | The session keys, ivs and client verify data written out in the same way |
| `Transcript.BuildTLS13HandshakeTranscriptBeforeMessageType` | internal/utils/client_flow.go:112-146 | Both hellos and the messages before the first of the type, or which error |
| `Transcript.TranscriptsCohere` | internal/utils/client_flow.go:112-146 | A transcript builds if and only if the messages collect and the type occurs; it, its stop message and the later messages are together what the session keys hash |
| `Transcript.TranscriptOrder` | internal/utils/client_flow.go:127-139 | One transcript is a prefix of another if and only if its stop message comes no later |
| `Transcript.SessionTranscriptEndsWithFinished` | internal/key/key.go:261-265 | The hashed transcript ends with Finished, as the standard asks, if and only if Finished is the last message of the flight |
| `Flow.ParseServerHelloFromRecords` | internal/utils/utils.go:52-70 | The hello in the first ServerHello message of the clear stream, or which error |
| `Flow.ParseTLS13ServerHelloAndMessage` | internal/utils/client_flow.go:53-72 | That hello with the octets of its message; the second search cannot fail |
| `Flow.DeriveTLS13SharedSecretFromServerHello` | internal/utils/client_flow.go:74-84 | The share is looked up before keys are agreed |
| `Flow.ServerHandshakeFlightComplete` | internal/utils/client_flow.go:24-51 | True exactly when all steps up to dispatching succeed and a Finished is there |
| `Flow.FlightHasWhatOccurs` | cmd/handshake.go:103-136 | After dispatching, the CertificateVerify and Finished pointers are set exactly when a transcript before that message builds |
| `Flow.FlightCompleteIsSound` | cmd/handshake.go:58-148 | On a complete flight the Finished is there, the transcript before it builds and the session keys derive |
| `Flow.DoHandshake` | cmd/handshake.go:58-151 | Steps 4 to 12 with their early returns; no dereference meets a nil pointer |
| `Flow.HandshakeExact` | cmd/handshake.go:58-151 | Session keys come out if and only if the flight is complete, the chain is accepted, its leaf verifies a non-empty signature over the transcript before CertificateVerify, and Finished carries the MAC of the transcript before it |
| `Flow.NotDecryptedFor` | cmd/handshake.go:58-92 | Which error a flight ends in before the secrets are derived: that of framing, of the clear messages, of the hello, of the share or of key agreement, in this order |
| `Flow.RefusedFor` | cmd/handshake.go:94-148 | Which error a decrypted flight ends in: that of the first check on certificate, chain, CertificateVerify, signature, Finished and MAC that it does not pass |
| `Flow.ClientFinishedArrives` | internal/utils/client_flow.go:208-221 | The client's Finished record, opened with its handshake keys at the same number, is one Finished message with the MAC of the session transcript |
| `FlightReader.ReadServerHandshakeFlight` | internal/utils/transport.go:35-83 | The accumulate-and-parse-again loop: the first read that settles something settles the outcome, and the reads after it are left on the connection |
| `FlightReader.ReadSettles` | internal/utils/transport.go:46-82 | What the first read that settles something comes to: an alert record (type 0x15) at any place is refused, a complete flight returned, EOF and the read deadline return what is there, any other error is passed on |
| `FlightReader.SomeReadSettles` | internal/utils/transport.go:46-82 | There always is such a read |
| `FlightReader.AlertIsRefused` | internal/utils/transport.go:55-59 | Records with an alert at any place, in one read, are refused whatever counts as complete |
| `FlightReader.ReturnedFlight` | internal/utils/transport.go:46-82 | A returned flight is all that was delivered, holds no complete alert record, and is complete or was ended by EOF or timeout; nothing shorter was complete at the end of a read |
| `FlightReader.ReceivedIsTaken` | internal/utils/transport.go:46-47 | What arrives is what is read up to the first error, with the octets that come with it; without an error the read deadline ends it |
| `FlightReader.ReadsUntilComplete` | internal/utils/transport.go:46-82 | If a flight is the first complete accumulation and some read ends with it, exactly it is returned and exactly its octets are used up |
| `FlightReader.ReturnedExactly` | internal/utils/transport.go:46-82 | Such a flight is returned if and only if some read ends with it, whatever errors and empty reads there are |
| `HonestFlight.HandshakeMessagesArrive` | internal/utils/utils.go:242-281 | Any list of messages with non-empty bodies, fragmented anywhere into protected handshake records and interleaved with anything else sendable, comes back from parsing, decoding and collecting as exactly that list |
| `HonestFlight.AnswerDecrypts` | internal/utils/client_flow.go:24-51 | A flight of messages in any order, none repeated, decrypts to exactly them, and counts as complete if and only if a Finished is among them |
| `HonestFlight.HonestFlightDecrypts` | internal/utils/client_flow.go:24-51 | End to end: however a flight is fragmented, coalesced and interleaved with clear records, it decrypts to exactly its messages and counts as complete |
| `HonestFlight.HonestTranscripts` | internal/utils/client_flow.go:112-146 | Its transcripts are the hellos with all messages but Finished, and with all messages |
| `HonestFlight.PartIsIncomplete` | internal/utils/client_flow.go:24-51 | No proper first part of such a flight, cut anywhere, counts as complete |
| `HonestFlight.HonestFlightIsRead` | internal/utils/transport.go:35-83 | However such a flight and what follows it are cut into reads, the reader returns exactly the flight if and only if some read ends with it |
| `HonestFlight.AnswerDecides` | cmd/handshake.go:58-151 | Whatever messages a server sends and in whatever order, the handshake ends with keys over all of them if and only if its chain is accepted, the leaf verifies a non-empty signature over the messages before CertificateVerify, and its MAC over those before Finished are right |
| `HonestFlight.HonestHandshake` | cmd/handshake.go:58-151 | On an honest flight these are the keys over the messages up to and with Finished, as the standard has it |
| `PlainClients.PlainClientIsLawful` | cmd/handshake.go:20-25 | The assumptions on hashes, cipher and key agreement can be met together |
| `ServerFlights.FlightAnswers` | internal/utils/client_flow.go:24-51 | Any valid hello with a share the client can agree on, and any list of messages the dispatcher takes, can be written out as an answer; it is an honest one when Finished is last |
| `ServerFlights.StandardHelloOffers` | internal/messages/record/handshake/server_hello.go:107-136 | The hello of TLS 1.3 with ChaCha20-Poly1305, supported_versions and any share that fits is valid, and both lookups return what it says |
| `ServerFlights.StandardHelloOctets` | internal/messages/record/handshake/server_hello.go:25-105 | That hello octet by octet |
| `AcceptedFlights.HonestFlightsExist` | cmd/handshake.go:58-151 | For every client and hello, every valid server hello with a share it can agree on, any messages in front (EncryptedExtensions or not), and every certificate and signature that fit their length fields, there is an honest flight; it is accepted if and only if the chain and the signature over all before it are, and no version, cipher suite, supported_versions or EncryptedExtensions matters |
| `PlainClients.PlainClientAccepts` | cmd/handshake.go:58-151 | The handshake succeeds: one client accepts such a flight for every server hello, all messages in front and every certificate |
| `PlainClients.StandardFlightAccepted` | cmd/handshake.go:58-151 | Among them are flights as the standard has them: version 0x0303, suite 0x1303, supported_versions 0x0304, and EncryptedExtensions first |
| `PlainClients.NonconformingFlightAccepted` | cmd/handshake.go:58-151 | And, for whatever version, suite and other extensions in the hello, one without EncryptedExtensions |
| `AcceptedFlights.OrderIsNotChecked` | internal/utils/utils.go:166-226 | With Finished before CertificateVerify there is a flight as well; it is accepted if and only if the chain and a signature that also covers the Finished are |
| `PlainClients.PlainClientAcceptsOutOfOrder` | cmd/handshake.go:58-151 | Such a flight is accepted by that client |
| `AcceptedFlights.FinishedNeedNotBeLast` | internal/key/key.go:250-265 | Any accepted flight is accepted also with any further message of another type after it, and the session keys are then over that message too |
| `PlainClients.KeysCoverWhatFollows` | internal/key/key.go:250-321 | For that client a flight with a message of five octets after Finished is read and accepted, and transcript hash, client Finished and both application keys differ from those of the messages up to Finished |
| `Session.HandshakeKeysUsable` | internal/key/key.go:250-321 | Every key and iv that a successful handshake returns has the size the cipher checks |
| `Session.Run` | cmd/main.go:20-54 | Flight, handshake, client Finished, request, and application data on one connection: the second reader goes on where the first one stopped |
| `Overrun.PastTheFlight` | internal/utils/client_flow.go:24-51 | A flight with octets after it whose first protected record does not open under the handshake key decrypts only if they are whole records and none of them is protected |
| `HonestSession.SessionAfterFlight` | cmd/main.go:20-54 | After reads that end with an honest flight, and whatever the server then seals under the derived keys: the session succeeds if and only if the server proves itself; then the server opens the Finished, with the right MAC, and the request, and the client gets exactly the data |
| `HonestSession.SessionWithHonestServer` | cmd/main.go:20-54 | However an honest flight and a response that starts with a protected record are cut into reads: the session succeeds if and only if the server proves itself and some read ends with the flight; then both sides have read exactly what the other sealed |
| `HonestSession.TogetherWithMore` | internal/utils/transport.go:46-82 | Whatever the cipher, and even if the server proves itself: a flight read together with octets that end inside a record makes the session fail |
| `HonestSession.CuttingMatters` | cmd/main.go:20-54 | The same octets and the same final error: cut after the flight the session succeeds, in one read it fails |
| `HonestSession.PlainKeysSeparate` | internal/key/key.go:250-321 | The assumption of the exact result, that the first response record does not open under the handshake key, can be met |
| `HonestSession.SomeSessionSucceeds` | cmd/main.go:20-54 | For every request and every response that can be sealed there is a session that succeeds |
| `Meaning.DecryptExact` | internal/utils/client_flow.go:24-51 | Octets decrypt to d if and only if they have a reading that says d: whole records, whole clear messages, a first ServerHello that is a hello written out with a share to agree on, protected records that each open at their number, and encrypted messages of which none of the four types repeats or fails to parse |
| `Meaning.ReadingIsUnique` | internal/utils/client_flow.go:24-51 | No octets have two readings |
| `Meaning.ReadingDecides` | cmd/handshake.go:58-151 | A reading leads to keys over all its messages if and only if its server proves itself |
| `Meaning.AcceptedExactly` | cmd/handshake.go:58-151 | On any octets at all the handshake succeeds if and only if they have a reading whose chain, signature and MAC are right |
| `Meaning.OnlyTheServersMessages` | internal/utils/client_flow.go:24-51 | Whatever octets arrive, under the secrets of an honest server and without a forged record: what counts as complete carries exactly that server's messages |
| `Ordering.SealedAt` | internal/utils/transport.go:136-148 | The i-th protected record is the i-th protected item, sealed at the start number plus i |
| `Ordering.OpensAtItsNumber` | internal/utils/utils.go:72-106 | Under a cipher bound to its nonce a sealed record opens at its own number to its content, and at any other number is a bad MAC |
| `Ordering.OnlyAPrefixIsDelivered` | internal/utils/transport.go:217-283 | Drop, repeat or move protected records: if a first part of them is left in order its contents are delivered, in every other case the outcome is a bad MAC |
| `Ordering.OnlyWhatWasSealed` | internal/utils/transport.go:217-283 | Whatever octets arrive, if no record among them is forged, a success delivers a first part of what the sender sealed, in order |
| `Ordering.SelectionIsGenuine` | internal/utils/utils.go:72-106 | Under a cipher bound to its nonce, dropping, repeating and moving records is never a forgery |

## Left out

- Sockets, dialing, writes and their failures, deadlines as times, output: input and output.
- A failure to set a read deadline, and the 8192-octet read buffer: the read events are any lists of octets.
- X25519, SHA-256, HMAC, HKDF-Expand, ChaCha20-Poly1305, randomness: parameters with the laws named above; that forging is hard is not among them, so `OnlyWhatWasSealed` takes the absence of forgeries as a hypothesis.
- The cipher's own limit on the size of one sealed text (about 2^38 octets) and Go's limit on slice lengths.
- `internal/cert`: certificate parsing, chain and signature checks are parameters of the client.
- ClientHello construction and its extension codecs other than key shares: nothing in the repository reads them back.
- Alert, ChangeCipherSpec and ApplicationData wrappers, KeyUpdate, CertificateRequest: payload formats that the flight engine does not look into.
- Compositions that add no step: `ParseServerHelloFromBytes`, `DecodeApplicationDataFromCiphertextRecords`, `DetectTLS13ServerFinishedAndConcatHandshakeMessages`, `DeriveTLS13ServerEncryptedHandshakeMessages`, `ParseTLSCiphertextRecords`; and the text of the HTTP request, a parameter of the session.
- Error texts: an error is its class, with the numbers the text would show for lengths and types.
- Aliasing of byte slices: `NewTLSPlaintext` keeps its fragment, and the key-share parsers return slices of the payload; the model passes values, so a later write through a shared slice is not captured.
- HonestSession.SessionWithHonestServer: is about responses that start with a protected record, as a server's records after its Finished do; `SessionAfterFlight` has no such condition, and `PastTheFlight` says what clear records before it do.
