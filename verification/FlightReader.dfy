/** Reading the server's first flight: accumulate, parse everything again, stop when complete. */
module FlightReader {
  import opened Bytes
  import opened Protocol
  import opened Record
  import opened Connection

  ghost predicate HoldsAlert(data: bytes) {
    exists i :: 0 <= i < |Frames(data).records| && Frames(data).records[i].typ == ALERT
  }

  /** What the reads before number `k` have delivered. */
  function Taken(events: seq<ReadEvent>, k: nat): bytes {
    if k == 0 then [] else Taken(events, k - 1) + EventAt(events, k - 1).data
  }

  /** What read number `i` settles, if anything. */
  ghost function Decision(events: seq<ReadEvent>, i: nat, isComplete: bytes -> bool): Option<Result<bytes, Error>> {
    var e := EventAt(events, i);
    var accumulated := Taken(events, i + 1);
    if e.data != [] && HoldsAlert(accumulated) then Some(Err(AlertReceived))
    else if e.data != [] && isComplete(accumulated) then Some(Ok(accumulated))
    else if e.err.None? then None
    else if EndsQuietly(e.err.value) && accumulated != [] then Some(Ok(accumulated))
    else Some(Err(e.err.value))
  }

  /** The first read from `i` on that settles something settles the outcome. */
  ghost function FlightFrom(events: seq<ReadEvent>, i: nat, isComplete: bytes -> bool): Result<bytes, Error>
    requires i <= |events|
    decreases |events| - i
  {
    match Decision(events, i, isComplete)
    case Some(r) => r
    case None => FlightFrom(events, i + 1, isComplete)
  }

  /** How many of the events are used up by then. */
  ghost function UsedFrom(events: seq<ReadEvent>, i: nat, isComplete: bytes -> bool): (n: nat)
    requires i <= |events|
    ensures n <= |events|
    decreases |events| - i
  {
    if Decision(events, i, isComplete).None? then UsedFrom(events, i + 1, isComplete)
    else if i < |events| then i + 1
    else i
  }

  /** One turn of the loop: this read settles the outcome, or leaves it to the next. */
  lemma FlightStep(events: seq<ReadEvent>, i: nat, isComplete: bytes -> bool)
    requires i <= |events|
    ensures var d := Decision(events, i, isComplete);
            && (d.Some? ==> FlightFrom(events, i, isComplete) == d.value
                            && UsedFrom(events, i, isComplete) == if i < |events| then i + 1 else i)
            && (d.None? ==> && i < |events| && FlightFrom(events, i, isComplete) == FlightFrom(events, i + 1, isComplete)
                            && UsedFrom(events, i, isComplete) == UsedFrom(events, i + 1, isComplete))
  {
  }

  /** What is left on the connection are the events from `used` on. */
  method ReadServerHandshakeFlight(events: seq<ReadEvent>, isComplete: bytes -> bool)
    returns (r: Result<bytes, Error>, used: nat)
    ensures r == FlightFrom(events, 0, isComplete) && used == UsedFrom(events, 0, isComplete)
  {
    var accumulated: bytes := [];
    var i := 0;
    while true
      invariant 0 <= i <= |events| && accumulated == Taken(events, i)
      invariant FlightFrom(events, i, isComplete) == FlightFrom(events, 0, isComplete)
      invariant UsedFrom(events, i, isComplete) == UsedFrom(events, 0, isComplete)
      decreases |events| - i
    {
      var event := EventAt(events, i);
      FlightStep(events, i, isComplete);
      used := if i < |events| then i + 1 else i;
      if |event.data| > 0 {
        accumulated := accumulated + event.data;
        var alert := AlertIn(accumulated);
        if alert {
          return Err(AlertReceived), used;
        }
        if isComplete(accumulated) {
          return Ok(accumulated), used;
        }
      } else {
        assert accumulated + event.data == accumulated;
      }
      if event.err.None? {
        i := i + 1;
        continue;
      }
      if event.err.value == Eof && |accumulated| > 0 {
        return Ok(accumulated), used;
      }
      if event.err.value == Timeout && |accumulated| > 0 {
        return Ok(accumulated), used;
      }
      return Err(event.err.value), used;
    }
  }

  method AlertIn(accumulated: bytes) returns (found: bool)
    requires accumulated != []
    ensures found <==> HoldsAlert(accumulated)
  {
    var framed := ParseTLSPlaintextRecordsWithRemainder(accumulated);
    if framed.Err? {
      assert false; // the input is not empty
    }
    found := FindAlert(framed.value.records);
  }

  method FindAlert(records: seq<TLSPlaintext>) returns (found: bool)
    ensures found <==> exists i :: 0 <= i < |records| && records[i].typ == ALERT
  {
    for i := 0 to |records|
      invariant forall j :: 0 <= j < i ==> records[j].typ != ALERT
    {
      if records[i].typ == ALERT {
        return true;
      }
    }
    return false;
  }

  // ----- What the reader settles on -----

  ghost predicate Undecided(events: seq<ReadEvent>, i: nat, k: nat, isComplete: bytes -> bool) {
    forall j :: i <= j < k ==> Decision(events, j, isComplete) == None
  }

  lemma UndecidedLast(events: seq<ReadEvent>, i: nat, k: nat, isComplete: bytes -> bool)
    requires Undecided(events, i, k, isComplete) && Decision(events, k, isComplete) == None
    ensures Undecided(events, i, k + 1, isComplete)
  {
  }

  lemma DecidedAt(events: seq<ReadEvent>, i: nat, isComplete: bytes -> bool) returns (k: nat)
    requires i <= |events|
    ensures i <= k <= |events| && Decision(events, k, isComplete) == Some(FlightFrom(events, i, isComplete))
    ensures Undecided(events, i, k, isComplete)
  {
    k := i;
    FlightStep(events, k, isComplete);
    while Decision(events, k, isComplete).None?
      invariant i <= k <= |events| && FlightFrom(events, k, isComplete) == FlightFrom(events, i, isComplete)
      invariant Decision(events, k, isComplete).Some? ==> Decision(events, k, isComplete).value == FlightFrom(events, k, isComplete)
      invariant Undecided(events, i, k, isComplete)
      decreases |events| - k
    {
      FlightStep(events, k, isComplete);
      UndecidedLast(events, i, k, isComplete);
      k := k + 1;
      FlightStep(events, k, isComplete);
    }
  }

  lemma AlertsStay(data: bytes, more: bytes)
    requires HoldsAlert(data)
    ensures HoldsAlert(data + more)
  {
    FramesAppend(data, more);
    var i :| 0 <= i < |Frames(data).records| && Frames(data).records[i].typ == ALERT;
    assert Frames(data + more).records[i].typ == ALERT;
  }

  lemma {:induction false} TakenGrows(events: seq<ReadEvent>, j: nat, k: nat)
    requires j <= k
    ensures Taken(events, j) <= Taken(events, k)
    decreases k
  {
    if j == k {
    } else {
      TakenGrows(events, j, k - 1);
    }
  }

  lemma {:induction false} NoAlertBefore(events: seq<ReadEvent>, k: nat, isComplete: bytes -> bool)
    requires forall j :: 0 <= j < k ==> Decision(events, j, isComplete) == None
    ensures !HoldsAlert(Taken(events, k))
    decreases k
  {
    if k == 0 {
      FramesStep([]);
    } else {
      NoAlertBefore(events, k - 1, isComplete);
      assert Decision(events, k - 1, isComplete) == None;
      if EventAt(events, k - 1).data == [] {
        assert Taken(events, k) == Taken(events, k - 1);
      }
    }
  }

  /** A flight that is returned is all that the first reads delivered. No complete alert record is
      in it, and reading stopped there because it is complete or because the peer fell silent,
      while no shorter accumulation was complete at the end of a read. */
  lemma ReturnedFlight(events: seq<ReadEvent>, isComplete: bytes -> bool) returns (k: nat)
    requires FlightFrom(events, 0, isComplete).Ok?
    ensures var b := FlightFrom(events, 0, isComplete).value;
            && k <= |events| && b == Taken(events, k + 1) && b != []
            && (forall i :: 0 <= i < |Frames(b).records| ==> Frames(b).records[i].typ != 0x15)
            && (isComplete(b) || EventAt(events, k).err == Some(Eof) || EventAt(events, k).err == Some(Timeout))
            && forall j :: 0 <= j < k ==> EventAt(events, j).err.None?
                                          && (EventAt(events, j).data != [] ==> !isComplete(Taken(events, j + 1)))
  {
    k := DecidedAt(events, 0, isComplete);
    NoAlertBefore(events, k, isComplete);
    var e := EventAt(events, k);
    if e.data == [] {
      assert Taken(events, k + 1) == Taken(events, k);
    }
    forall j | 0 <= j < k
      ensures EventAt(events, j).err.None? && (EventAt(events, j).data != [] ==> !isComplete(Taken(events, j + 1)))
    {
      assert Decision(events, j, isComplete) == None;
    }
  }

  /** The reads before number `k` all leave the question open: none fails, and what has arrived by any
      of them shows no record of type 0x15 and does not count as complete. */
  ghost predicate OpenUntil(events: seq<ReadEvent>, k: nat, isComplete: bytes -> bool) {
    forall j :: 0 <= j < k ==>
      && EventAt(events, j).err.None?
      && (EventAt(events, j).data != [] ==>
            && !isComplete(Taken(events, j + 1))
            && forall r :: r in Frames(Taken(events, j + 1)).records ==> r.typ != 0x15)
  }

  lemma OpenMeansUndecided(events: seq<ReadEvent>, k: nat, isComplete: bytes -> bool)
    ensures OpenUntil(events, k, isComplete) <==> forall j :: 0 <= j < k ==> Decision(events, j, isComplete) == None
  {
    if OpenUntil(events, k, isComplete) {
      forall j | 0 <= j < k ensures Decision(events, j, isComplete) == None {
        assert EventAt(events, j).err.None?;
      }
    }
    if forall j :: 0 <= j < k ==> Decision(events, j, isComplete) == None {
      forall j | 0 <= j < k
        ensures EventAt(events, j).err.None?
        ensures EventAt(events, j).data != [] ==>
          && !isComplete(Taken(events, j + 1))
          && forall r :: r in Frames(Taken(events, j + 1)).records ==> r.typ != 0x15
      {
        assert Decision(events, j, isComplete) == None;
      }
    }
  }

  lemma {:induction false} DecidedBy(events: seq<ReadEvent>, i: nat, k: nat, isComplete: bytes -> bool)
    requires i <= k <= |events| && Decision(events, k, isComplete).Some?
    requires forall j :: i <= j < k ==> Decision(events, j, isComplete) == None
    ensures Decision(events, k, isComplete) == Some(FlightFrom(events, i, isComplete))
    decreases k - i
  {
    if i == k {
    } else {
      DecidedBy(events, i + 1, k, isComplete);
    }
  }

  /** What the first read that does not leave it open comes to: an alert anywhere among the records is
      refused, a complete flight is returned; else, EOF and the read deadline return what is there,
      and any other error, or either of them before the first octet, is passed on. */
  lemma ReadSettles(events: seq<ReadEvent>, k: nat, isComplete: bytes -> bool)
    requires k <= |events| && OpenUntil(events, k, isComplete)
    ensures var e, buf, r := EventAt(events, k), Taken(events, k + 1), FlightFrom(events, 0, isComplete);
            if e.data != [] && exists i :: 0 <= i < |Frames(buf).records| && Frames(buf).records[i].typ == 0x15
            then r == Err(AlertReceived)
            else if e.data != [] && isComplete(buf) then r == Ok(buf)
            else if e.err == Some(Eof) || e.err == Some(Timeout) then r == if buf != [] then Ok(buf) else Err(e.err.value)
            else e.err.Some? ==> r == Err(e.err.value)
  {
    OpenMeansUndecided(events, k, isComplete);
    if Decision(events, k, isComplete).Some? {
      DecidedBy(events, 0, k, isComplete);
    }
  }

  /** There always is such a read. */
  lemma SomeReadSettles(events: seq<ReadEvent>, isComplete: bytes -> bool) returns (k: nat)
    ensures k <= |events| && OpenUntil(events, k, isComplete) && !OpenUntil(events, k + 1, isComplete)
  {
    k := DecidedAt(events, 0, isComplete);
    OpenMeansUndecided(events, k, isComplete);
    OpenMeansUndecided(events, k + 1, isComplete);
  }

  /** The usual refusal: records with an alert at any place, in one read. */
  lemma AlertIsRefused(rs: seq<TLSPlaintext>, k: nat, isComplete: bytes -> bool)
    requires AllWellFramed(rs) && k < |rs| && rs[k].typ == 0x15
    ensures FlightFrom([ReadEvent(MarshalAll(rs), None)], 0, isComplete) == Err(AlertReceived)
  {
    var events := [ReadEvent(MarshalAll(rs), None)];
    assert MarshalAll(rs) + [] == MarshalAll(rs);
    FramesExact(MarshalAll(rs), rs, []);
    RecordsOnlyExact(MarshalAll(rs), rs);
    assert Taken(events, 0) == [] && Taken(events, 1) == [] + MarshalAll(rs) && [] + MarshalAll(rs) == MarshalAll(rs);
    assert Frames(Taken(events, 1)).records[k].typ == 0x15;
    ReadSettles(events, 0, isComplete);
  }

  /** A flight counts as complete, and no proper first part of it does. */
  ghost predicate FirstComplete(wire: bytes, isComplete: bytes -> bool) {
    isComplete(wire) && forall n :: 0 <= n < |wire| ==> !isComplete(wire[..n])
  }

  /** The first `k` reads deliver these octets, and only the last of them may come with an error. */
  ghost predicate EndsAt(events: seq<ReadEvent>, k: nat, wire: bytes) {
    0 < k <= |events| && Taken(events, k) == wire && forall j :: 0 <= j < k - 1 ==> events[j].err.None?
  }

  ghost predicate SomeReadEndsWith(events: seq<ReadEvent>, wire: bytes) {
    exists k: nat :: EndsAt(events, k, wire)
  }

  /** If a flight is the first accumulation that counts as complete and some read ends with it, the
      reader returns exactly that flight, wherever the reads before have cut it. */
  lemma {:induction false} ReadsUntilComplete(events: seq<ReadEvent>, k: nat, i: nat, wire: bytes, isComplete: bytes -> bool)
    requires FirstComplete(wire, isComplete) && !HoldsAlert(wire) && EndsAt(events, k, wire)
    requires i <= k && Taken(events, i) != wire
    ensures FlightFrom(events, i, isComplete) == Ok(wire)
    ensures UsedFrom(events, i, isComplete) <= k && Taken(events, UsedFrom(events, i, isComplete)) == wire
    decreases k - i
  {
    var now := Taken(events, i + 1);
    TakenGrows(events, i + 1, k);
    if now == wire {
      assert Taken(events, i) + [] == Taken(events, i);
    } else {
      var rest := wire[|now|..];
      assert wire == now + rest && wire[..|now|] == now;
      if HoldsAlert(now) {
        AlertsStay(now, rest);
      }
      ReadsUntilComplete(events, k, i + 1, wire, isComplete);
    }
  }

  /** Such a flight is returned exactly when some read ends with it. */
  lemma ReturnedExactly(events: seq<ReadEvent>, wire: bytes, isComplete: bytes -> bool)
    requires FirstComplete(wire, isComplete) && !HoldsAlert(wire) && wire != []
    ensures FlightFrom(events, 0, isComplete) == Ok(wire) <==> SomeReadEndsWith(events, wire)
  {
    if FlightFrom(events, 0, isComplete) == Ok(wire) {
      var k := ReturnedFlight(events, isComplete);
      forall j | 0 <= j < k && j < |events| ensures events[j].err.None? {
        assert EventAt(events, j).err.None?;
      }
      if k == |events| {
        assert Taken(events, k + 1) == Taken(events, k) + [];
        assert EndsAt(events, k, wire);
      } else {
        assert EndsAt(events, k + 1, wire);
      }
    }
    if SomeReadEndsWith(events, wire) {
      var k: nat :| EndsAt(events, k, wire);
      ReadsUntilComplete(events, k, 0, wire, isComplete);
    }
  }

  /** What arrives is what the reads up to the first error take, the one with the error included, or
      all of them; and without an error the read deadline ends it. */
  lemma ReceivedIsTaken(events: seq<ReadEvent>, k: nat)
    requires k <= |events| && forall j :: 0 <= j < k ==> events[j].err.None?
    ensures k < |events| && events[k].err.Some? ==>
      Received(events) == Taken(events, k + 1) && FinalError(events) == events[k].err.value
    ensures k == |events| ==> Received(events) == Taken(events, k) && FinalError(events) == Timeout
    ensures EventAt(events, |events|) == ReadEvent([], Some(Timeout))
  {
    TakenIsFront(events, k);
    if k < |events| {
      assert events[k..][0] == events[k];
    } else {
      assert events[k..] == [] && Taken(events, k) + [] == Taken(events, k);
    }
  }

  /** What error-free reads have taken is the front of what arrives. */
  lemma {:induction false} TakenIsFront(events: seq<ReadEvent>, k: nat)
    requires k <= |events| && forall j :: 0 <= j < k ==> events[j].err.None?
    ensures Pending(events, k, Taken(events, k))
  {
    if k == 0 {
      assert events[0..] == events && [] + Received(events) == Received(events);
    } else {
      TakenIsFront(events, k - 1);
      var future := PendingStep(events, k - 1, Taken(events, k - 1));
    }
  }
}
