/** Protocol numbers and the errors the client reports. */
module Protocol {
  import opened Bytes

  // Record content types.
  const ALERT: byte := 0x15
  const HANDSHAKE: byte := 0x16
  const APPLICATION_DATA: byte := 0x17

  const TLS_VERSION_1_2: uint16 := 0x0303

  // Handshake message types.
  const SERVER_HELLO: byte := 2
  const ENCRYPTED_EXTENSIONS: byte := 8
  const CERTIFICATE: byte := 11
  const CERTIFICATE_VERIFY: byte := 15
  const FINISHED: byte := 20

  // Extension types.
  const EXT_SERVER_NAME: uint16 := 0
  const EXT_SUPPORTED_VERSIONS: uint16 := 43
  const EXT_COOKIE: uint16 := 44
  const EXT_KEY_SHARE: uint16 := 51

  const RECORD_HEADER_LEN := 5
  const HANDSHAKE_HEADER_LEN := 4
  const MAX_PAYLOAD_LEN := 16384

  // ChaCha20-Poly1305.
  const KEY_SIZE := 32
  const NONCE_SIZE := 12
  const TAG_SIZE := 16

  datatype Error =
    // record layer
    | DataTooShort
    | DataLengthMismatch
    | PayloadTooLarge
    | IncompleteFragment(have: nat)
    | InnerPlaintextTooShort
    | InnerPlaintextNoType
    // record protection
    | NilAead
    | InvalidKeyLength(have: nat)
    | InvalidIvLength(have: nat)
    | BadRecordMac
    | UnexpectedMessage
    | RecordOverflow
    // reassembly
    | MalformedHandshakeLength(length: nat)
    | IncompleteHandshakeHeader(have: nat)
    | IncompleteHandshakeMessage(need: nat, have: nat)
    | HandshakeBodyTooLarge
    // handshake messages
    | Malformed(what: string)
    | DuplicateExtension(ext: uint16)
    | DuplicateMessage(typ: byte)
    | MessageNotFound(typ: byte)
    | MissingExtension(ext: uint16)
    | HelloRetryRequest
    // key schedule
    | KeyAgreementFailed
    | EmptyInput(what: string)
    | HkdfLabelTooLong
    | HkdfContextTooLong
    | HkdfOutputTooLong
    // server authentication
    | ChainRejected
    | SignatureRejected
    | InvalidFinished
    // connection
    | AlertReceived
    | Eof
    | Timeout
    | Io(code: int)
}
