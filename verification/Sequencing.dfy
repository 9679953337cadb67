/** Sequence numbers carried from record to record and from batch to batch. */
module Sequencing {
  import opened Bytes
  import opened Protocol
  import opened Record
  import opened Protection

  method DecodeTLSCiphertextRecordsRaw(suite: Suite, recs: seq<TLSPlaintext>, key: bytes, iv: bytes, initialSeq: uint64)
    returns (r: Decoded)
    ensures r == OpenedRaw(suite, key, iv, initialSeq, recs)
  {
    var aead :- NewAead(suite, key);
    r := DecodeTLSCiphertextRecordsWithAEAD(recs, Some(aead), iv, initialSeq);
  }

  datatype Batch = Batch(result: Decoded, nextSeq: uint64)

  /** Decoding one record at a time. Nothing is checked when there is no record, and a record
      that fails has already used its sequence number. */
  function Stepwise(suite: Suite, key: bytes, iv: bytes, sn: uint64, recs: seq<TLSPlaintext>): Batch
    decreases |recs|
  {
    if recs == [] then Batch(Ok([]), sn)
    else
      var one := OpenedRaw(suite, key, iv, sn, [recs[0]]);
      var sn' := SeqAfter(sn, recs[0]);
      if one.Err? then Batch(one, sn')
      else
        var tail := Stepwise(suite, key, iv, sn', recs[1..]);
        Batch(Prepend(one.value, tail.result), tail.nextSeq)
  }

  method DecodeTLSCiphertextRecordsAndNextSeq(suite: Suite, recs: seq<TLSPlaintext>, key: bytes, iv: bytes, initialSeq: uint64)
    returns (b: Batch)
    ensures b == Stepwise(suite, key, iv, initialSeq, recs)
  {
    var sn, decodedRecords := initialSeq, [];
    assert recs[0..] == recs;
    PrependLaws([], [], Stepwise(suite, key, iv, sn, recs).result);
    for i := 0 to |recs|
      invariant var b0, b1 := Stepwise(suite, key, iv, initialSeq, recs), Stepwise(suite, key, iv, sn, recs[i..]);
                b0 == Batch(Prepend(decodedRecords, b1.result), b1.nextSeq)
    {
      var rec := recs[i];
      assert recs[i..][1..] == recs[i + 1..];
      var plaintextRecords := DecodeTLSCiphertextRecordsRaw(suite, [rec], key, iv, sn);
      if rec.typ == APPLICATION_DATA {
        sn := NextSeq(sn);
      }
      if plaintextRecords.Err? {
        return Batch(plaintextRecords, sn);
      }
      PrependLaws(decodedRecords, plaintextRecords.value, Stepwise(suite, key, iv, sn, recs[i + 1..]).result);
      decodedRecords := decodedRecords + plaintextRecords.value;
    }
    assert recs[|recs|..] == [] && decodedRecords + [] == decodedRecords;
    return Batch(Ok(decodedRecords), sn);
  }

  /** One record at a time or all at once: the same records or the same error, exactly when there
      is a record to take or the key has the length that is checked. */
  lemma {:induction false} StepwiseIsWhole(suite: Suite, key: bytes, iv: bytes, sn: uint64, recs: seq<TLSPlaintext>)
    ensures Stepwise(suite, key, iv, sn, recs).result == OpenedRaw(suite, key, iv, sn, recs)
       <==> recs != [] || |key| == KEY_SIZE
    decreases |recs|
  {
    if recs == [] {
    } else {
      var sn' := SeqAfter(sn, recs[0]);
      SingleRecord(suite, key, iv, sn, recs[0]);
      if |key| == KEY_SIZE && OpenedRaw(suite, key, iv, sn, [recs[0]]).Ok? {
        StepwiseIsWhole(suite, key, iv, sn', recs[1..]);
      }
    }
  }

  /** The case in which they differ: nothing to decode, under a key that would be refused. */
  lemma EmptyBatchDiffers(suite: Suite, iv: bytes, sn: uint64)
    ensures Stepwise(suite, [7], iv, sn, []).result == Ok([])
    ensures OpenedRaw(suite, [7], iv, sn, []) == Err(InvalidKeyLength(1))
  {
  }

  lemma SingleRecord(suite: Suite, key: bytes, iv: bytes, sn: uint64, rec: TLSPlaintext)
    ensures |key| != KEY_SIZE ==> OpenedRaw(suite, key, iv, sn, [rec]) == Err(InvalidKeyLength(|key|))
    ensures |key| == KEY_SIZE ==>
      var p := Opened(Some(suite(key)), iv, sn, rec);
      OpenedRaw(suite, key, iv, sn, [rec]) == if p.Err? then Err(p.error) else Ok([PlainRecord(rec, p.value)])
  {
    if |key| == KEY_SIZE {
      var p := Opened(Some(suite(key)), iv, sn, rec);
      assert OpenedAll(Some(suite(key)), iv, SeqAfter(sn, rec), [rec][1..]) == Ok([]);
      if p.Ok? {
        assert [PlainRecord(rec, p.value)] + [] == [PlainRecord(rec, p.value)];
      }
    }
  }

  /** Two batches in a row are one batch. */
  lemma {:induction false} StepwiseAppend(suite: Suite, key: bytes, iv: bytes, sn: uint64,
                                          a: seq<TLSPlaintext>, b: seq<TLSPlaintext>)
    ensures var first := Stepwise(suite, key, iv, sn, a);
            var both := Stepwise(suite, key, iv, sn, a + b);
            if first.result.Err? then both == first
            else var second := Stepwise(suite, key, iv, first.nextSeq, b);
                 both == Batch(Prepend(first.result.value, second.result), second.nextSeq)
    decreases |a|
  {
    if a == [] {
      assert a + b == b;
      PrependLaws([], [], Stepwise(suite, key, iv, sn, b).result);
    } else {
      assert (a + b)[1..] == a[1..] + b && (a + b)[0] == a[0];
      var one := OpenedRaw(suite, key, iv, sn, [a[0]]);
      if one.Ok? {
        var sn' := SeqAfter(sn, a[0]);
        StepwiseAppend(suite, key, iv, sn', a[1..], b);
        var tail := Stepwise(suite, key, iv, sn', a[1..]);
        if tail.result.Ok? {
          PrependLaws(one.value, tail.result.value, Stepwise(suite, key, iv, tail.nextSeq, b).result);
        }
      }
    }
  }

  /** After a success the carried number has advanced by the protected records of the batch. */
  lemma {:induction false} SeqAfterSuccess(suite: Suite, key: bytes, iv: bytes, sn: uint64, recs: seq<TLSPlaintext>)
    requires Stepwise(suite, key, iv, sn, recs).result.Ok?
    ensures Stepwise(suite, key, iv, sn, recs).nextSeq == Advance(sn, AppCount(recs))
    decreases |recs|
  {
    if recs == [] {
    } else {
      var sn' := SeqAfter(sn, recs[0]);
      assert Stepwise(suite, key, iv, sn, recs).nextSeq == Stepwise(suite, key, iv, sn', recs[1..]).nextSeq;
      SeqAfterSuccess(suite, key, iv, sn', recs[1..]);
      AdvanceHead(sn, recs);
    }
  }

  lemma AdvanceLast(sn: uint64, front: seq<TLSPlaintext>, last: TLSPlaintext)
    ensures SeqAfter(Advance(sn, AppCount(front)), last) == Advance(sn, AppCount(front + [last]))
  {
    AppCountAppend(front, [last]);
    assert [last][1..] == [];
    AdvanceOnce(sn, AppCount(front));
  }

  lemma StepwiseSingle(suite: Suite, key: bytes, iv: bytes, sn: uint64, rec: TLSPlaintext)
    requires Stepwise(suite, key, iv, sn, [rec]).result.Err?
    ensures Stepwise(suite, key, iv, sn, [rec]) == Batch(OpenedRaw(suite, key, iv, sn, [rec]), SeqAfter(sn, rec))
  {
  }

  /** After a failure it has moved past the first record that fails: every record before record
      k opens, record k gives the error, and only records up to k are counted. */
  lemma {:induction false} SeqAfterFailure(suite: Suite, key: bytes, iv: bytes, sn: uint64, recs: seq<TLSPlaintext>)
    returns (k: nat)
    requires Stepwise(suite, key, iv, sn, recs).result.Err?
    ensures k < |recs| && Stepwise(suite, key, iv, sn, recs[..k]).result.Ok?
    ensures var b := Stepwise(suite, key, iv, sn, recs);
            && OpenedRaw(suite, key, iv, Advance(sn, AppCount(recs[..k])), [recs[k]]) == b.result
            && b.nextSeq == Advance(sn, AppCount(recs[..k + 1]))
    decreases |recs|
  {
    k := |recs| - 1;
    var front, last := recs[..k], recs[k];
    assert recs == front + [last];
    StepwiseAppend(suite, key, iv, sn, front, [last]);
    if Stepwise(suite, key, iv, sn, front).result.Err? {
      k := SeqAfterFailure(suite, key, iv, sn, front);
      assert front[..k] == recs[..k] && front[..k + 1] == recs[..k + 1];
    } else {
      SeqAfterSuccess(suite, key, iv, sn, front);
      AdvanceLast(sn, front, last);
      assert recs[..k + 1] == recs;
      StepwiseSingle(suite, key, iv, Advance(sn, AppCount(front)), last);
    }
  }
}
