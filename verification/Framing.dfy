/** Cutting an octet stream into units whose length can be read off their first octets.
    Records, handshake messages, extension entries and certificate entries are all cut this way. */
module Framing {
  import opened Bytes

  /** The length of the unit that starts the stream, once enough of it is there to tell. */
  type Measure = bytes -> Option<nat>

  /** More octets do not change a length that is known. */
  ghost predicate Stable(need: Measure, s: bytes, t: bytes) {
    need(s).Some? ==> need(s + t) == need(s)
  }

  /** A unit's length can be told from the unit alone. */
  ghost predicate Local(need: Measure, s: bytes) {
    HasUnit(need, s) ==> need(s[..need(s).value]) == need(s)
  }

  ghost predicate Prefixed(need: Measure) {
    && (forall s, t :: Stable(need, s, t))
    && (forall s :: Local(need, s))
  }

  predicate HasUnit(need: Measure, s: bytes) {
    need(s).Some? && 0 < need(s).value <= |s|
  }

  predicate Whole(need: Measure, u: bytes) {
    need(u) == Some(|u|) && u != []
  }

  ghost predicate AllWhole(need: Measure, us: seq<bytes>) {
    forall i :: 0 <= i < |us| ==> Whole(need, us[i])
  }

  datatype Pieces = Pieces(units: seq<bytes>, rest: bytes)

  /** The whole units at the front of `s`, and the tail that does not hold one. */
  function Cut(need: Measure, s: bytes): (c: Pieces)
    decreases |s|
  {
    if HasUnit(need, s) then
      var n := need(s).value;
      var tail := Cut(need, s[n..]);
      Pieces([s[..n]] + tail.units, tail.rest)
    else
      Pieces([], s)
  }

  lemma {:induction false} CutKeepsAll(need: Measure, s: bytes)
    ensures s == Concat(Cut(need, s).units) + Cut(need, s).rest
    decreases |s|
  {
    if HasUnit(need, s) {
      var n := need(s).value;
      var u, s' := s[..n], s[n..];
      var tail := Cut(need, s');
      assert Cut(need, s) == Pieces([u] + tail.units, tail.rest);
      CutKeepsAll(need, s');
      Split(s, n);
      ConcatCons(u, tail.units);
      Associate(u, Concat(tail.units), tail.rest);
    } else {
      assert Concat([]) + s == s;
    }
  }

  lemma {:induction false} CutUnitsAreWhole(need: Measure, s: bytes)
    requires Prefixed(need)
    ensures AllWhole(need, Cut(need, s).units) && !HasUnit(need, Cut(need, s).rest)
    decreases |s|
  {
    if !HasUnit(need, s) {
    } else {
      var n := need(s).value;
      assert Local(need, s);
      CutUnitsAreWhole(need, s[n..]);
    }
  }

  lemma CutSound(need: Measure, s: bytes)
    requires Prefixed(need)
    ensures var c := Cut(need, s);
            s == Concat(c.units) + c.rest && AllWhole(need, c.units) && !HasUnit(need, c.rest)
  {
    CutKeepsAll(need, s);
    CutUnitsAreWhole(need, s);
  }

  lemma {:induction false} CutComplete(need: Measure, units: seq<bytes>, rest: bytes)
    requires Prefixed(need) && AllWhole(need, units) && !HasUnit(need, rest)
    ensures Cut(need, Concat(units) + rest) == Pieces(units, rest)
  {
    if units == [] {
      assert Concat(units) + rest == rest;
    } else {
      var u, tail := units[0], Concat(units[1..]) + rest;
      assert Concat(units) + rest == u + tail;
      assert Whole(need, u) && Stable(need, u, tail);
      assert (u + tail)[..|u|] == u && (u + tail)[|u|..] == tail;
      CutComplete(need, units[1..], rest);
      assert [u] + units[1..] == units;
    }
  }

  /** The cut is the only way to write the stream as whole units and a tail without one. */
  lemma CutExact(need: Measure, s: bytes, units: seq<bytes>, rest: bytes)
    requires Prefixed(need)
    ensures Cut(need, s) == Pieces(units, rest)
       <==> s == Concat(units) + rest && AllWhole(need, units) && !HasUnit(need, rest)
  {
    CutSound(need, s);
    if s == Concat(units) + rest && AllWhole(need, units) && !HasUnit(need, rest) {
      CutComplete(need, units, rest);
    }
  }

  /** Cutting may stop anywhere and go on later from the tail it left. */
  lemma {:induction false} CutAppend(need: Measure, a: bytes, b: bytes)
    requires Prefixed(need)
    ensures Cut(need, a + b)
         == Pieces(Cut(need, a).units + Cut(need, Cut(need, a).rest + b).units,
                   Cut(need, Cut(need, a).rest + b).rest)
    decreases |a|
  {
    if !HasUnit(need, a) {
    } else {
      var n := need(a).value;
      assert Stable(need, a, b);
      var u, a', ab := a[..n], a[n..], a + b;
      assert ab[..n] == u && ab[n..] == a' + b;
      CutAppend(need, a', b);
      var tail := Cut(need, a');
      var next := Cut(need, tail.rest + b);
      assert Cut(need, a) == Pieces([u] + tail.units, tail.rest);
      assert Cut(need, ab) == Pieces([u] + (tail.units + next.units), next.rest);
      assert [u] + (tail.units + next.units) == ([u] + tail.units) + next.units;
    }
  }
}
