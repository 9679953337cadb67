/** Sorting the server's encrypted handshake messages into the four the client uses. */
module Dispatch {
  import opened Bytes
  import opened Protocol
  import opened Record
  import opened Reassembly
  import opened ServerMessages

  datatype Flight = Flight(
    encryptedExtensions: Option<EncryptedExtensionList>,
    certificate: Option<seq<bytes>>,
    certificateVerify: Option<Signature>,
    finished: Option<bytes>)

  const NOTHING := Flight(None, None, None, None)

  /** The flight with one more message in its slot, unless the slot is taken or it is malformed.
      Messages of other types are passed over. */
  ghost function Took(m: bytes, f: Flight): Result<Flight, Error>
    requires IsMessage(m)
  {
    SliceOfMessage(m);
    if m[0] == ENCRYPTED_EXTENSIONS then
      var p := EncryptedExtensionsOf(m);
      if f.encryptedExtensions.Some? then Err(DuplicateMessage(m[0]))
      else if p.err.Some? then Err(p.err.value) else Ok(f.(encryptedExtensions := Some(p.value)))
    else if m[0] == CERTIFICATE then
      var p := CertificateMessageOf(m);
      if f.certificate.Some? then Err(DuplicateMessage(m[0]))
      else if p.err.Some? then Err(p.err.value) else Ok(f.(certificate := Some(p.value)))
    else if m[0] == CERTIFICATE_VERIFY then
      var p := CertificateVerifyOf(Signature(0, []), m);
      if f.certificateVerify.Some? then Err(DuplicateMessage(m[0]))
      else if p.err.Some? then Err(p.err.value) else Ok(f.(certificateVerify := Some(p.value)))
    else if m[0] == FINISHED then
      var p := FinishedOf([], m);
      if f.finished.Some? then Err(DuplicateMessage(m[0]))
      else if p.err.Some? then Err(p.err.value) else Ok(f.(finished := Some(p.value)))
    else Ok(f)
  }

  /** Messages from `i` on, one after the other; no order among them is required. */
  ghost function Dispatched(ms: seq<bytes>, i: nat, f: Flight): Result<Flight, Error>
    requires i <= |ms| && AllMessages(ms)
    decreases |ms| - i
  {
    if i == |ms| then Ok(f)
    else
      assert IsMessage(ms[i]);
      var next := Took(ms[i], f);
      if next.Err? then next else Dispatched(ms, i + 1, next.value)
  }

  ghost function FlightIn(records: seq<TLSPlaintext>): Result<Flight, Error> {
    var s := HandshakeStream(records);
    var r := Collected(s);
    if r.Err? then Err(r.error)
    else
      CollectedExact(s, r.value, []);
      Dispatched(r.value, 0, NOTHING)
  }

  /** The four results point to new objects that hold the flight, or to nothing. */
  ghost predicate Holds(ee: EncryptedExtensions?, cert: Certificate?, cv: CertificateVerify?, fin: Finished?, f: Flight)
    reads ee, cert, cv, fin
  {
    && f.encryptedExtensions == (if ee == null then None else Some(ee.Contents()))
    && f.certificate == (if cert == null then None else Some(cert.certificates))
    && f.certificateVerify == (if cv == null then None else Some(cv.Contents()))
    && f.finished == (if fin == null then None else Some(fin.verifyData))
  }

  method NewEncryptedExtensions(message: bytes) returns (v: EncryptedExtensions, err: Option<Error>)
    requires SliceInBounds(message)
    ensures fresh(v) && Parsed(v.Contents(), err) == EncryptedExtensionsOf(message)
  {
    v := new EncryptedExtensions();
    err := v.Unmarshal(message);
  }

  method NewCertificate(message: bytes) returns (v: Certificate, err: Option<Error>)
    ensures fresh(v) && Parsed(v.certificates, err) == CertificateMessageOf(message)
  {
    v := new Certificate();
    err := v.Unmarshal(message);
  }

  method NewCertificateVerify(message: bytes) returns (v: CertificateVerify, err: Option<Error>)
    ensures fresh(v) && Parsed(v.Contents(), err) == CertificateVerifyOf(Signature(0, []), message)
  {
    v := new CertificateVerify();
    err := v.Unmarshal(message);
  }

  method NewFinished(message: bytes) returns (v: Finished, err: Option<Error>)
    ensures fresh(v) && Parsed(v.verifyData, err) == FinishedOf([], message)
  {
    v := new Finished();
    err := v.Unmarshal(message);
  }

  lemma DispatchedStep(ms: seq<bytes>, i: nat, f: Flight)
    requires i < |ms| && AllMessages(ms) && IsMessage(ms[i])
    ensures var next := Took(ms[i], f); Dispatched(ms, i, f) == if next.Err? then next else Dispatched(ms, i + 1, next.value)
  {
  }

  method ParseServerTLS13HandshakeMessages(records: seq<TLSPlaintext>)
    returns (err: Option<Error>, ee: EncryptedExtensions?, cert: Certificate?, cv: CertificateVerify?, fin: Finished?)
    ensures FlightIn(records).Err? ==>
      err == Some(FlightIn(records).error) && ee == null && cert == null && cv == null && fin == null
    ensures FlightIn(records).Ok? ==>
      err == None && Holds(ee, cert, cv, fin, FlightIn(records).value)
    ensures (ee == null || fresh(ee)) && (cert == null || fresh(cert))
    ensures (cv == null || fresh(cv)) && (fin == null || fresh(fin))
  {
    ee, cert, cv, fin := null, null, null, null;
    var collected := CollectHandshakeMessages(records);
    if collected.Err? {
      return Some(collected.error), null, null, null, null;
    }
    var messages := collected.value;
    CollectedExact(HandshakeStream(records), messages, []);
    ghost var f := NOTHING;
    for i := 0 to |messages|
      invariant (ee == null || fresh(ee)) && (cert == null || fresh(cert))
      invariant (cv == null || fresh(cv)) && (fin == null || fresh(fin))
      invariant Holds(ee, cert, cv, fin, f)
      invariant Dispatched(messages, i, f) == FlightIn(records)
    {
      var message := messages[i];
      assert IsMessage(message);
      SliceOfMessage(message);
      DispatchedStep(messages, i, f);
      if |message| < HANDSHAKE_HEADER_LEN {
        continue;
      }
      if message[0] == ENCRYPTED_EXTENSIONS {
        if ee != null {
          return Some(DuplicateMessage(message[0])), null, null, null, null;
        }
        var v, e := NewEncryptedExtensions(message);
        if e.Some? {
          return e, null, null, null, null;
        }
        ee := v;
        f := f.(encryptedExtensions := Some(v.Contents()));
      } else if message[0] == CERTIFICATE {
        if cert != null {
          return Some(DuplicateMessage(message[0])), null, null, null, null;
        }
        var v, e := NewCertificate(message);
        if e.Some? {
          return e, null, null, null, null;
        }
        cert := v;
        f := f.(certificate := Some(v.certificates));
      } else if message[0] == CERTIFICATE_VERIFY {
        if cv != null {
          return Some(DuplicateMessage(message[0])), null, null, null, null;
        }
        var v, e := NewCertificateVerify(message);
        if e.Some? {
          return e, null, null, null, null;
        }
        cv := v;
        f := f.(certificateVerify := Some(v.Contents()));
      } else if message[0] == FINISHED {
        if fin != null {
          return Some(DuplicateMessage(message[0])), null, null, null, null;
        }
        var v, e := NewFinished(message);
        if e.Some? {
          return e, null, null, null, null;
        }
        fin := v;
        f := f.(finished := Some(v.verifyData));
      }
    }
    return None, ee, cert, cv, fin;
  }

  // ----- What dispatching comes to -----

  predicate Known(typ: byte) {
    typ == ENCRYPTED_EXTENSIONS || typ == CERTIFICATE || typ == CERTIFICATE_VERIFY || typ == FINISHED
  }

  /** The four results, each from the first message of its type. */
  ghost function FlightOf(ms: seq<bytes>): Flight
    requires AllMessages(ms)
  {
    var ee, cert := FirstOf(ms, ENCRYPTED_EXTENSIONS), FirstOf(ms, CERTIFICATE);
    var cv, fin := FirstOf(ms, CERTIFICATE_VERIFY), FirstOf(ms, FINISHED);
    Flight(
      if ee.None? then None else (SliceOfMessage(ee.value); Some(EncryptedExtensionsOf(ee.value).value)),
      if cert.None? then None else Some(CertificateMessageOf(cert.value).value),
      if cv.None? then None else Some(CertificateVerifyOf(Signature(0, []), cv.value).value),
      if fin.None? then None else Some(fin.value[HANDSHAKE_HEADER_LEN..]))
  }

  /** A Finished message always unmarshals. */
  ghost predicate Unmarshals(m: bytes)
    requires IsMessage(m)
  {
    SliceOfMessage(m);
    && (m[0] == ENCRYPTED_EXTENSIONS ==> EncryptedExtensionsOf(m).err.None?)
    && (m[0] == CERTIFICATE ==> CertificateMessageOf(m).err.None?)
    && (m[0] == CERTIFICATE_VERIFY ==> CertificateVerifyOf(Signature(0, []), m).err.None?)
  }

  /** No message of a known type comes after another of its type. */
  ghost predicate NoneRepeats(ms: seq<bytes>) {
    forall i, j :: 0 <= i < j < |ms| && |ms[j]| > 0 && Known(ms[j][0]) ==> !HasType(ms[i], ms[j][0])
  }

  ghost predicate AllUnmarshal(ms: seq<bytes>)
    requires AllMessages(ms)
  {
    forall i :: 0 <= i < |ms| ==> IsMessage(ms[i]) && Unmarshals(ms[i])
  }

  lemma NoneRepeatsLast(ms: seq<bytes>, m: bytes)
    requires IsMessage(m)
    ensures NoneRepeats(ms + [m]) <==> NoneRepeats(ms) && (Known(m[0]) ==> !Occurs(ms, m[0]))
  {
    var all := ms + [m];
    if NoneRepeats(all) {
      forall i, j | 0 <= i < j < |ms| && |ms[j]| > 0 && Known(ms[j][0]) ensures !HasType(ms[i], ms[j][0]) {
        assert all[i] == ms[i] && all[j] == ms[j];
      }
      var k := IndexOf(ms, m[0]);
      assert all[|ms|] == m && (k < |ms| ==> all[k] == ms[k]);
    }
  }

  lemma AllMessagesLast(ms: seq<bytes>, m: bytes)
    ensures AllMessages(ms + [m]) <==> AllMessages(ms) && IsMessage(m)
  {
    if AllMessages(ms + [m]) {
      forall i | 0 <= i < |ms| ensures IsMessage(ms[i]) {
        assert IsMessage((ms + [m])[i]);
      }
      assert IsMessage((ms + [m])[|ms|]);
    }
  }

  lemma AllUnmarshalLast(ms: seq<bytes>, m: bytes)
    requires AllMessages(ms) && IsMessage(m) && AllMessages(ms + [m])
    ensures AllUnmarshal(ms + [m]) <==> AllUnmarshal(ms) && Unmarshals(m)
  {
    var all := ms + [m];
    if AllUnmarshal(all) {
      forall i | 0 <= i < |ms| ensures IsMessage(ms[i]) && Unmarshals(ms[i]) {
        assert Unmarshals(all[i]);
      }
      assert Unmarshals(all[|ms|]);
    }
  }

  /** One more message: it is taken exactly when it neither repeats nor fails to unmarshal. */
  lemma TookExact(ms: seq<bytes>, m: bytes)
    requires AllMessages(ms) && IsMessage(m) && AllMessages(ms + [m])
    ensures Took(m, FlightOf(ms)).Ok? <==> (Known(m[0]) ==> !Occurs(ms, m[0])) && Unmarshals(m)
    ensures Took(m, FlightOf(ms)).Ok? ==> Took(m, FlightOf(ms)).value == FlightOf(ms + [m])
  {
    FirstOfLast(ms, m, ENCRYPTED_EXTENSIONS);
    FirstOfLast(ms, m, CERTIFICATE);
    FirstOfLast(ms, m, CERTIFICATE_VERIFY);
    FirstOfLast(ms, m, FINISHED);
    FinishedOfMessage([], m);
    SliceOfMessage(m);
  }

  /** What a list of messages has to be for all four results to be well defined. */
  ghost predicate Acceptable(ms: seq<bytes>)
    requires AllMessages(ms)
  {
    NoneRepeats(ms) && AllUnmarshal(ms)
  }

  lemma AcceptableLast(ms: seq<bytes>, m: bytes)
    requires AllMessages(ms) && IsMessage(m)
    ensures AllMessages(ms + [m])
    ensures Acceptable(ms + [m]) <==> Acceptable(ms) && Took(m, FlightOf(ms)).Ok?
    ensures Took(m, FlightOf(ms)).Ok? ==> Took(m, FlightOf(ms)).value == FlightOf(ms + [m])
  {
    AllMessagesLast(ms, m);
    NoneRepeatsLast(ms, m);
    AllUnmarshalLast(ms, m);
    TookExact(ms, m);
  }

  lemma AcceptablePrefix(ms: seq<bytes>, n: nat)
    requires n <= |ms| && AllMessages(ms) && AllMessages(ms[..n]) && Acceptable(ms)
    ensures Acceptable(ms[..n])
  {
  }

  lemma {:induction false} DispatchedFrom(ms: seq<bytes>, i: nat)
    requires i <= |ms| && AllMessages(ms) && AllMessages(ms[..i]) && Acceptable(ms[..i])
    ensures var r := Dispatched(ms, i, FlightOf(ms[..i]));
            if Acceptable(ms) then r == Ok(FlightOf(ms)) else r.Err?
    decreases |ms| - i
  {
    if i == |ms| {
      assert ms[..i] == ms;
    } else {
      assert ms[..i + 1] == ms[..i] + [ms[i]];
      assert IsMessage(ms[i]);
      AcceptableLast(ms[..i], ms[i]);
      if Acceptable(ms[..i + 1]) {
        DispatchedFrom(ms, i + 1);
      } else if Acceptable(ms) {
        AcceptablePrefix(ms, i + 1);
      }
    }
  }

  /** Dispatching succeeds exactly when no message of the four types repeats and each of them
      unmarshals; then each result is there exactly when a message of its type is, and is what
      the first one says. */
  lemma DispatchExact(ms: seq<bytes>)
    requires AllMessages(ms)
    ensures Dispatched(ms, 0, NOTHING).Ok? <==> NoneRepeats(ms) && AllUnmarshal(ms)
    ensures Dispatched(ms, 0, NOTHING).Ok? ==> Dispatched(ms, 0, NOTHING).value == FlightOf(ms)
  {
    assert ms[..0] == [];
    assert FlightOf([]) == NOTHING;
    DispatchedFrom(ms, 0);
  }

  // ----- By type number, and the errors -----

  lemma SlotsByType(ms: seq<bytes>)
    requires AllMessages(ms)
    ensures var f := FlightOf(ms);
            && (f.encryptedExtensions.Some? <==> Occurs(ms, 8)) && (f.certificate.Some? <==> Occurs(ms, 11))
            && (f.certificateVerify.Some? <==> Occurs(ms, 15)) && (f.finished.Some? <==> Occurs(ms, 20))
  {
  }

  /** The four types by number, each parsed by its own parser into its own slot. */
  lemma TookByType(m: bytes, f: Flight)
    requires IsMessage(m)
    ensures SliceInBounds(m)
    ensures m[0] == 8 && f.encryptedExtensions.None? && EncryptedExtensionsOf(m).err.None? ==>
      Took(m, f) == Ok(f.(encryptedExtensions := Some(EncryptedExtensionsOf(m).value)))
    ensures m[0] == 11 && f.certificate.None? && CertificateMessageOf(m).err.None? ==>
      Took(m, f) == Ok(f.(certificate := Some(CertificateMessageOf(m).value)))
    ensures m[0] == 15 && f.certificateVerify.None? && CertificateVerifyOf(Signature(0, []), m).err.None? ==>
      Took(m, f) == Ok(f.(certificateVerify := Some(CertificateVerifyOf(Signature(0, []), m).value)))
    ensures m[0] == 20 && f.finished.None? ==> Took(m, f) == Ok(f.(finished := Some(m[4..])))
    ensures m[0] != 8 && m[0] != 11 && m[0] != 15 && m[0] != 20 ==> Took(m, f) == Ok(f)
  {
    SliceOfMessage(m);
    FinishedOfMessage([], m);
  }

  /** What the first message that is not taken is refused for: a second one of its type, or the error
      of its parser. */
  lemma RefusedMessage(ms: seq<bytes>, i: nat)
    requires i < |ms| && AllMessages(ms) && AllMessages(ms[..i]) && Acceptable(ms[..i])
    ensures IsMessage(ms[i]) && SliceInBounds(ms[i])
    ensures var m, r := ms[i], Dispatched(ms, 0, NOTHING);
            if (m[0] == 8 || m[0] == 11 || m[0] == 15 || m[0] == 20) && exists j :: 0 <= j < i && ms[j][..1] == m[..1]
            then r == Err(DuplicateMessage(m[0]))
            else && (m[0] == 8 && EncryptedExtensionsOf(m).err.Some? ==> r == Err(EncryptedExtensionsOf(m).err.value))
                 && (m[0] == 11 && CertificateMessageOf(m).err.Some? ==> r == Err(CertificateMessageOf(m).err.value))
                 && (m[0] == 15 && CertificateVerifyOf(Signature(0, []), m).err.Some? ==>
                       r == Err(CertificateVerifyOf(Signature(0, []), m).err.value))
  {
    var m := ms[i];
    assert IsMessage(m);
    SliceOfMessage(m);
    DispatchedUpTo(ms, 0, i);
    assert ms[..0] == [] && FlightOf([]) == NOTHING;
    SlotsByType(ms[..i]);
    AmongFirst(ms, i, m[0]);
  }

  lemma AmongFirst(ms: seq<bytes>, i: nat, typ: byte)
    requires i <= |ms| && AllMessages(ms)
    ensures Occurs(ms[..i], typ) <==> exists j :: 0 <= j < i && ms[j][..1] == [typ]
  {
    if Occurs(ms[..i], typ) {
      var j := IndexOf(ms[..i], typ);
      assert ms[..i][j] == ms[j] && ms[j][..1] == [typ];
    }
    if j :| 0 <= j < i && ms[j][..1] == [typ] {
      assert IsMessage(ms[j]) && HasType(ms[..i][j], typ);
    }
  }

  lemma {:induction false} DispatchedUpTo(ms: seq<bytes>, i: nat, k: nat)
    requires i <= k <= |ms| && AllMessages(ms) && AllMessages(ms[..k]) && Acceptable(ms[..k]) && AllMessages(ms[..i])
    ensures Dispatched(ms, i, FlightOf(ms[..i])) == Dispatched(ms, k, FlightOf(ms[..k]))
    decreases k - i
  {
    if i == k {
    } else {
      assert IsMessage(ms[i]);
      assert ms[..i + 1] == ms[..i] + [ms[i]] && ms[..k][..i + 1] == ms[..i + 1] && ms[..k][..i] == ms[..i];
      AcceptablePrefix(ms[..k], i + 1);
      AcceptablePrefix(ms[..k], i);
      AcceptableLast(ms[..i], ms[i]);
      DispatchedUpTo(ms, i + 1, k);
    }
  }
}
