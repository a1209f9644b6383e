/**
 A whole pass over a load file. What is handed out of each component depends on the buffers only when a
 deflated one inflates past its declared size; the archive arrives as declared exactly when every
 component is entire.
 */
module CapStream {
  import opened Bytes
  import opened Wrappers
  import opened Inflate
  import opened LoadFile
  import opened Cap

  // ---- Buffer sizes ----

  function Sum(sizes: seq<nat>): nat {
    if sizes == [] then 0 else sizes[0] + Sum(sizes[1..])
  }

  /** Buffers that are not empty. */
  predicate Positive(sizes: seq<nat>) {
    forall i :: 0 <= i < |sizes| ==> sizes[i] > 0
  }

  /** The room left after `n` bytes. */
  function Spend(sizes: seq<nat>, n: nat): seq<nat>
    decreases |sizes|
  {
    if sizes == [] then []
    else if n >= sizes[0] then Spend(sizes[1..], n - sizes[0])
    else [sizes[0] - n] + sizes[1..]
  }

  /** The first buffer boundary at or past `n` bytes, or the end of the last buffer. */
  function Boundary(sizes: seq<nat>, n: nat): nat
    decreases |sizes|
  {
    if sizes == [] then 0
    else if sizes[0] >= n then sizes[0]
    else sizes[0] + Boundary(sizes[1..], n - sizes[0])
  }

  function Min(a: nat, b: nat): nat {
    if a <= b then a else b
  }

  function Max(a: nat, b: nat): nat {
    if a <= b then b else a
  }

  lemma {:induction false} SpendSum(sizes: seq<nat>, n: nat)
    requires Positive(sizes) && n <= Sum(sizes)
    ensures Positive(Spend(sizes, n)) && Sum(Spend(sizes, n)) == Sum(sizes) - n
    decreases |sizes|
  {
    if sizes != [] {
      assert Positive(sizes[1..]);
      if n >= sizes[0] {
        SpendSum(sizes[1..], n - sizes[0]);
      } else {
        assert Spend(sizes, n)[1..] == sizes[1..];
      }
    }
  }

  lemma {:induction false} SpendTwice(sizes: seq<nat>, m: nat, n: nat)
    requires Positive(sizes) && m + n <= Sum(sizes)
    ensures Spend(Spend(sizes, m), n) == Spend(sizes, m + n)
    decreases |sizes|
  {
    if sizes != [] {
      assert Positive(sizes[1..]);
      if m >= sizes[0] {
        SpendTwice(sizes[1..], m - sizes[0], n);
      } else {
        assert ([sizes[0] - m] + sizes[1..])[1..] == sizes[1..];
      }
    }
  }

  // ---- A pass ----

  /** The blocks of a pass with buffers of the given sizes. */
  function DealAll(locs: Locs, outs: seq<bytes>, p: Spot, sizes: seq<nat>): (blocks: seq<bytes>)
    requires |locs| == |outs|
    ensures |blocks| == |sizes|
    decreases |sizes|
  {
    if sizes == [] then []
    else
      var (block, next) := Deal(locs, outs, p, sizes[0]);
      [block] + DealAll(locs, outs, next, sizes[1..])
  }

  /** Where the reader is after it. */
  function After(locs: Locs, outs: seq<bytes>, p: Spot, sizes: seq<nat>): Spot
    requires |locs| == |outs|
    decreases |sizes|
  {
    if sizes == [] then p else After(locs, outs, Deal(locs, outs, p, sizes[0]).1, sizes[1..])
  }

  /** Everything a pass hands out. */
  function Stream(locs: Locs, outs: seq<bytes>, sizes: seq<nat>): bytes
    requires |locs| == |outs|
  {
    Flatten(DealAll(locs, outs, START, sizes))
  }

  /** Past the header, at byte `e` of component `comp`. */
  function SpotAt(locs: Locs, comp: nat, e: nat): Spot {
    Spot(|HeaderBytes(ContentLen(locs))|, comp, e)
  }

  // ---- The stretch of each component ----

  /**
   How much of a component with `left` bytes left, `declared` of them still declared, is handed out: all of
   it if that is no more than declared, and otherwise up to the first buffer boundary by which the declared
   bytes (at least one) are out.
   */
  function StretchLen(left: nat, declared: nat, sizes: seq<nat>): nat {
    var due := Max(declared, 1);
    if left <= due || Sum(sizes) < due then Min(left, Sum(sizes)) else Min(left, Boundary(sizes, due))
  }

  /** What is still due of a component. */
  function Due(locs: Locs, comp: nat, e: nat): nat
    requires comp < |locs|
  {
    if e <= Declared(locs[comp]) then Declared(locs[comp]) - e else 0
  }

  /** `n` bytes of a component from byte `e` on. */
  function Piece(out: bytes, e: nat, n: nat): bytes {
    if e + n <= |out| then out[e..e + n] else []
  }

  /** The bytes handed out of each component from byte `e` of component `comp` on. */
  function Stretches(locs: Locs, outs: seq<bytes>, comp: nat, e: nat, sizes: seq<nat>): seq<bytes>
    requires |locs| == |outs|
    decreases |locs| - comp
  {
    if comp >= |locs| then []
    else if locs[comp].None? then [[]] + Stretches(locs, outs, comp + 1, 0, sizes)
    else
      var left := if e <= |outs[comp]| then |outs[comp]| - e else 0;
      var n := StretchLen(left, Due(locs, comp, e), sizes);
      [Piece(outs[comp], e, n)]
      + (if n >= Due(locs, comp, e) then Stretches(locs, outs, comp + 1, 0, Spend(sizes, n))
         else Nothing(|locs| - comp - 1))
  }

  function Nothing(n: nat): (r: seq<bytes>)
    ensures |r| == n
  {
    seq(n, _ => [])
  }

  lemma {:induction false} NothingJoins(n: nat)
    ensures Flatten(Nothing(n)) == []
  {
    if n > 0 {
      assert Nothing(n)[1..] == Nothing(n - 1);
      NothingJoins(n - 1);
    }
  }

  lemma {:induction false} StretchLenBounds(left: nat, declared: nat, sizes: seq<nat>)
    ensures StretchLen(left, declared, sizes) <= left && StretchLen(left, declared, sizes) <= Sum(sizes)
  {
    BoundaryBounds(sizes, Max(declared, 1));
  }

  lemma {:induction false} BoundaryBounds(sizes: seq<nat>, n: nat)
    ensures Boundary(sizes, n) <= Sum(sizes)
    ensures n <= Sum(sizes) && sizes != [] ==> n <= Boundary(sizes, n)
    decreases |sizes|
  {
    if sizes != [] && sizes[0] < n {
      BoundaryBounds(sizes[1..], n - sizes[0]);
    }
  }

  /** One buffer's worth of a stretch, then the rest of it. */
  lemma StretchSplits(left: nat, declared: nat, sizes: seq<nat>)
    requires sizes != [] && sizes[0] < left && sizes[0] < declared
    ensures StretchLen(left, declared, sizes) == sizes[0] + StretchLen(left - sizes[0], declared - sizes[0], sizes[1..])
  {
  }

  /** With nothing left to hand out, a pass hands out nothing. */
  lemma {:induction false} StalledPass(locs: Locs, outs: seq<bytes>, comp: nat, e: nat, sizes: seq<nat>)
    requires |locs| == |outs|
    requires comp >= |locs| || (locs[comp].Some? && |outs[comp]| <= e < Declared(locs[comp]))
    ensures Flatten(DealAll(locs, outs, SpotAt(locs, comp, e), sizes)) == []
    decreases |sizes|
  {
    hide DealFrom;
    if sizes != [] {
      if comp >= |locs| {
        AllBehind(locs, outs, comp, e, sizes[0]);
      } else {
        DealStall(locs, outs, comp, e, sizes[0]);
      }
      StalledPass(locs, outs, comp, e, sizes[1..]);
      assert DealAll(locs, outs, SpotAt(locs, comp, e), sizes)[1..]
        == DealAll(locs, outs, SpotAt(locs, comp, e), sizes[1..]);
    }
  }

  lemma AllBehind(locs: Locs, outs: seq<bytes>, comp: nat, e: nat, room: nat)
    requires |locs| == |outs| && comp >= |locs|
    ensures DealFrom(locs, outs, comp, e, room) == ([], SpotAt(locs, comp, e))
  {
  }

  /** A block and what follows it, joined. */
  lemma JoinedPass(locs: Locs, outs: seq<bytes>, p: Spot, sizes: seq<nat>)
    requires |locs| == |outs| && sizes != []
    ensures var (block, next) := Deal(locs, outs, p, sizes[0]);
            Flatten(DealAll(locs, outs, p, sizes)) == block + Flatten(DealAll(locs, outs, next, sizes[1..]))
  {
    hide Deal;
    var (block, next) := Deal(locs, outs, p, sizes[0]);
    assert ([block] + DealAll(locs, outs, next, sizes[1..]))[1..] == DealAll(locs, outs, next, sizes[1..]);
  }

  /** Everything handed out from a place past the header on. */
  function Rest(locs: Locs, outs: seq<bytes>, comp: nat, e: nat, sizes: seq<nat>): bytes
    requires |locs| == |outs|
  {
    Flatten(DealAll(locs, outs, SpotAt(locs, comp, e), sizes))
  }

  /** The first buffer, and what follows from where it ends. */
  lemma RestSplits(locs: Locs, outs: seq<bytes>, comp: nat, e: nat, sizes: seq<nat>)
    requires |locs| == |outs| && sizes != []
    ensures var (block, next) := DealFrom(locs, outs, comp, e, sizes[0]);
            Rest(locs, outs, comp, e, sizes) == block + Flatten(DealAll(locs, outs, next, sizes[1..]))
  {
    hide DealFrom, DealAll, HeaderBytes, ContentLen;
    JoinedPass(locs, outs, SpotAt(locs, comp, e), sizes);
  }

  /** Handing out `n` bytes of a component and going on in the same buffer is going on with the room left. */
  lemma PassSlice(locs: Locs, outs: seq<bytes>, comp: nat, e: nat, n: nat, sizes: seq<nat>)
    requires |locs| == |outs| && comp < |locs| && locs[comp].Some? && sizes != [] && Positive(sizes)
    requires n <= sizes[0] && e + n <= |outs[comp]| && (n == sizes[0] || e + n == |outs[comp]|)
    ensures var (comp', e') := if e + n >= Declared(locs[comp]) then (comp + 1, 0) else (comp, e + n);
            Rest(locs, outs, comp, e, sizes) == outs[comp][e..e + n] + Rest(locs, outs, comp', e', Spend(sizes, n))
  {
    hide DealFrom, Deal, DealAll, Rest, Flatten, Spend;
    var (comp', e') := if e + n >= Declared(locs[comp]) then (comp + 1, 0) else (comp, e + n);
    DealSlice(locs, outs, comp, e, sizes[0], n);
    RestSplits(locs, outs, comp, e, sizes);
    var (more, spot) := DealFrom(locs, outs, comp', e', sizes[0] - n);
    var piece, tail := outs[comp][e..e + n], Flatten(DealAll(locs, outs, spot, sizes[1..]));
    assert (piece + more) + tail == piece + (more + tail);
    RestAfter(locs, outs, comp', e', n, sizes);
  }

  /** Going on in a buffer with `n` bytes used is a pass over the room left. */
  lemma RestAfter(locs: Locs, outs: seq<bytes>, comp: nat, e: nat, n: nat, sizes: seq<nat>)
    requires |locs| == |outs| && sizes != [] && Positive(sizes) && n <= sizes[0]
    ensures var (more, spot) := DealFrom(locs, outs, comp, e, sizes[0] - n);
            Rest(locs, outs, comp, e, Spend(sizes, n)) == more + Flatten(DealAll(locs, outs, spot, sizes[1..]))
  {
    hide DealFrom, Deal, DealAll, Flatten, Spend;
    if n == sizes[0] {
      NoRoom(locs, outs, comp, e);
      SpendBuffer(sizes);
      assert [] + Rest(locs, outs, comp, e, sizes[1..]) == Rest(locs, outs, comp, e, sizes[1..]);
    } else {
      SpendWithin(sizes, n);
      RestSplits(locs, outs, comp, e, Spend(sizes, n));
    }
  }

  lemma NoRoom(locs: Locs, outs: seq<bytes>, comp: nat, e: nat)
    requires |locs| == |outs|
    ensures DealFrom(locs, outs, comp, e, 0) == ([], SpotAt(locs, comp, e))
  {
  }

  lemma PassAbsent(locs: Locs, outs: seq<bytes>, comp: nat, sizes: seq<nat>)
    requires |locs| == |outs| && comp < |locs| && locs[comp].None? && Positive(sizes)
    ensures Rest(locs, outs, comp, 0, sizes) == Rest(locs, outs, comp + 1, 0, sizes)
  {
    if sizes != [] {
      assert DealFrom(locs, outs, comp, 0, sizes[0]) == DealFrom(locs, outs, comp + 1, 0, sizes[0]);
    }
  }

  /** The reader may be at byte `e` of component `comp`. */
  predicate Within(locs: Locs, outs: seq<bytes>, comp: nat, e: nat)
    requires |locs| == |outs|
  {
    comp < |locs| ==>
      if locs[comp].Some? then e <= |outs[comp]| && (e == 0 || e < Declared(locs[comp])) else e == 0
  }

  /** A pass from inside a component: its stretch, then the next component with the room left, if it was reached. */
  predicate StretchThenNext(locs: Locs, outs: seq<bytes>, comp: nat, e: nat, sizes: seq<nat>)
    requires |locs| == |outs| && comp < |locs| && locs[comp].Some? && e <= |outs[comp]|
  {
    var due := Due(locs, comp, e);
    var n := StretchLen(|outs[comp]| - e, due, sizes);
    && e + n <= |outs[comp]|
    && Rest(locs, outs, comp, e, sizes)
       == outs[comp][e..e + n] + (if n >= due then Rest(locs, outs, comp + 1, 0, Spend(sizes, n)) else [])
  }

  lemma {:induction false} StretchOfOne(locs: Locs, outs: seq<bytes>, comp: nat, e: nat, sizes: seq<nat>)
    requires |locs| == |outs| && comp < |locs| && locs[comp].Some? && Within(locs, outs, comp, e) && Positive(sizes)
    ensures StretchThenNext(locs, outs, comp, e, sizes)
    decreases |sizes|
  {
    hide StretchThenNext, Rest, StretchLen, Spend;
    var left, due := |outs[comp]| - e, Due(locs, comp, e);
    if sizes == [] {
      StretchOfNone(locs, outs, comp, e);
    } else if Min(left, sizes[0]) >= due {
      StretchInOneBuffer(locs, outs, comp, e, sizes);
    } else if left <= sizes[0] {
      StretchStalls(locs, outs, comp, e, sizes);
    } else {
      SpendBuffer(sizes);
      StretchOfOne(locs, outs, comp, e + sizes[0], sizes[1..]);
      StretchGoesOn(locs, outs, comp, e, sizes);
    }
  }

  lemma StretchOfNone(locs: Locs, outs: seq<bytes>, comp: nat, e: nat)
    requires |locs| == |outs| && comp < |locs| && locs[comp].Some? && e <= |outs[comp]|
    ensures StretchThenNext(locs, outs, comp, e, [])
  {
    hide StretchLen, Spend, DealAll;
    NoBuffers(locs, outs, SpotAt(locs, comp, e), |outs[comp]| - e, Due(locs, comp, e));
    NoBuffers(locs, outs, SpotAt(locs, comp + 1, 0), |outs[comp]| - e, Due(locs, comp, e));
    assert outs[comp][e..e] + [] == [];
  }

  lemma StretchInOneBuffer(locs: Locs, outs: seq<bytes>, comp: nat, e: nat, sizes: seq<nat>)
    requires |locs| == |outs| && comp < |locs| && locs[comp].Some? && Within(locs, outs, comp, e) && Positive(sizes)
    requires sizes != [] && Min(|outs[comp]| - e, sizes[0]) >= Due(locs, comp, e)
    ensures StretchThenNext(locs, outs, comp, e, sizes)
  {
    hide StretchLen, Spend, DealAll;
    StretchReached(|outs[comp]| - e, Due(locs, comp, e), sizes);
    PassSlice(locs, outs, comp, e, Min(|outs[comp]| - e, sizes[0]), sizes);
  }

  lemma StretchStalls(locs: Locs, outs: seq<bytes>, comp: nat, e: nat, sizes: seq<nat>)
    requires |locs| == |outs| && comp < |locs| && locs[comp].Some? && Within(locs, outs, comp, e) && Positive(sizes)
    requires sizes != [] && |outs[comp]| - e <= sizes[0] && |outs[comp]| - e < Due(locs, comp, e)
    ensures StretchThenNext(locs, outs, comp, e, sizes)
  {
    hide StretchLen, Spend, DealAll;
    var left := |outs[comp]| - e;
    StretchShort(left, Due(locs, comp, e), sizes);
    PassSlice(locs, outs, comp, e, left, sizes);
    StalledPass(locs, outs, comp, e + left, Spend(sizes, left));
  }

  lemma StretchGoesOn(locs: Locs, outs: seq<bytes>, comp: nat, e: nat, sizes: seq<nat>)
    requires |locs| == |outs| && comp < |locs| && locs[comp].Some? && Within(locs, outs, comp, e) && Positive(sizes)
    requires sizes != [] && sizes[0] < |outs[comp]| - e && sizes[0] < Due(locs, comp, e)
    requires StretchThenNext(locs, outs, comp, e + sizes[0], sizes[1..])
    ensures StretchThenNext(locs, outs, comp, e, sizes)
  {
    hide StretchLen, Spend, DealAll;
    var r, left, due := sizes[0], |outs[comp]| - e, Due(locs, comp, e);
    var n := StretchLen(left - r, due - r, sizes[1..]);
    SpendBuffer(sizes);
    PassSlice(locs, outs, comp, e, r, sizes);
    StretchSplits(left, due, sizes);
    SpendOnward(sizes, n);
    SlicesJoin(outs[comp], e, r, n, if n >= due - r then Rest(locs, outs, comp + 1, 0, Spend(sizes[1..], n)) else []);
  }

  lemma NoBuffers(locs: Locs, outs: seq<bytes>, p: Spot, left: nat, declared: nat)
    requires |locs| == |outs|
    ensures Flatten(DealAll(locs, outs, p, [])) == [] && StretchLen(left, declared, []) == 0
    ensures forall n: nat :: Spend([], n) == []
  {
  }

  /** The declared bytes, and at least one, go out in the first buffer. */
  lemma StretchReached(left: nat, declared: nat, sizes: seq<nat>)
    requires sizes != [] && Positive(sizes) && Min(left, sizes[0]) >= declared
    ensures StretchLen(left, declared, sizes) == Min(left, sizes[0])
  {
  }

  /** All there is goes out in the first buffer, and it is less than declared. */
  lemma StretchShort(left: nat, declared: nat, sizes: seq<nat>)
    requires sizes != [] && left <= sizes[0] && left < declared
    ensures StretchLen(left, declared, sizes) == left
  {
  }

  lemma SpendBuffer(sizes: seq<nat>)
    requires sizes != [] && Positive(sizes)
    ensures Positive(sizes[1..]) && Spend(sizes, sizes[0]) == sizes[1..] && Spend(sizes[1..], 0) == sizes[1..]
  {
    assert sizes[1..] != [] ==> ([sizes[1..][0]] + sizes[1..][1..] == sizes[1..]);
  }

  lemma SpendOnward(sizes: seq<nat>, n: nat)
    requires sizes != []
    ensures Spend(sizes, sizes[0] + n) == Spend(sizes[1..], n)
  {
  }

  lemma SlicesJoin(out: bytes, e: nat, r: nat, n: nat, more: bytes)
    requires e + r + n <= |out|
    ensures out[e..e + r] + (out[e + r..e + r + n] + more) == out[e..e + r + n] + more
  {
    assert out[e..e + r] + out[e + r..e + r + n] == out[e..e + r + n];
  }

  /** What a pass hands out is, component by component, their stretches. */
  lemma {:induction false} PassIsStretches(locs: Locs, outs: seq<bytes>, comp: nat, e: nat, sizes: seq<nat>)
    requires |locs| == |outs| && Positive(sizes) && Within(locs, outs, comp, e)
    ensures Rest(locs, outs, comp, e, sizes) == Flatten(Stretches(locs, outs, comp, e, sizes))
    decreases |locs| - comp
  {
    hide Rest, StretchLen, Spend, Positive;
    if comp >= |locs| {
      RestPastEnd(locs, outs, comp, e, sizes);
    } else if locs[comp].None? {
      PassAbsent(locs, outs, comp, sizes);
      PassIsStretches(locs, outs, comp + 1, 0, sizes);
      StretchesAbsent(locs, outs, comp, sizes);
    } else {
      var n := StretchLen(|outs[comp]| - e, Due(locs, comp, e), sizes);
      StretchOfOne(locs, outs, comp, e, sizes);
      StretchLenBounds(|outs[comp]| - e, Due(locs, comp, e), sizes);
      SpendSum(sizes, n);
      if n >= Due(locs, comp, e) {
        PassIsStretches(locs, outs, comp + 1, 0, Spend(sizes, n));
      }
      StretchesUnfold(locs, outs, comp, e, sizes);
    }
  }

  lemma RestPastEnd(locs: Locs, outs: seq<bytes>, comp: nat, e: nat, sizes: seq<nat>)
    requires |locs| == |outs| && comp >= |locs|
    ensures Rest(locs, outs, comp, e, sizes) == Flatten(Stretches(locs, outs, comp, e, sizes)) == []
  {
    hide DealAll;
    StalledPass(locs, outs, comp, e, sizes);
  }

  lemma StretchesUnfold(locs: Locs, outs: seq<bytes>, comp: nat, e: nat, sizes: seq<nat>)
    requires |locs| == |outs| && comp < |locs| && locs[comp].Some? && e <= |outs[comp]|
    ensures var n := StretchLen(|outs[comp]| - e, Due(locs, comp, e), sizes);
            && e + n <= |outs[comp]|
            && Flatten(Stretches(locs, outs, comp, e, sizes))
               == outs[comp][e..e + n]
                  + (if n >= Due(locs, comp, e) then Flatten(Stretches(locs, outs, comp + 1, 0, Spend(sizes, n)))
                     else [])
  {
    hide StretchLen, Spend;
    var n := StretchLen(|outs[comp]| - e, Due(locs, comp, e), sizes);
    StretchLenBounds(|outs[comp]| - e, Due(locs, comp, e), sizes);
    var rest := if n >= Due(locs, comp, e) then Stretches(locs, outs, comp + 1, 0, Spend(sizes, n))
      else Nothing(|locs| - comp - 1);
    NothingJoins(|locs| - comp - 1);
    var piece := outs[comp][e..e + n];
    assert Stretches(locs, outs, comp, e, sizes) == [piece] + rest;
    FlattenOnto(piece, rest);
  }

  lemma StretchesAbsent(locs: Locs, outs: seq<bytes>, comp: nat, sizes: seq<nat>)
    requires |locs| == |outs| && comp < |locs| && locs[comp].None?
    ensures Flatten(Stretches(locs, outs, comp, 0, sizes)) == Flatten(Stretches(locs, outs, comp + 1, 0, sizes))
  {
    var rest := Stretches(locs, outs, comp + 1, 0, sizes);
    assert ([[]] + rest)[1..] == rest && [] + Flatten(rest) == Flatten(rest);
  }

  /** The header goes out first, whatever the buffers. */
  lemma {:induction false} HeaderFirst(locs: Locs, outs: seq<bytes>, h: nat, sizes: seq<nat>)
    requires |locs| == |outs| && Positive(sizes) && h <= |HeaderBytes(ContentLen(locs))|
    requires |HeaderBytes(ContentLen(locs))| - h <= Sum(sizes)
    ensures var header := HeaderBytes(ContentLen(locs));
            Flatten(DealAll(locs, outs, Spot(h, 0, 0), sizes))
            == header[h..] + Flatten(DealAll(locs, outs, SpotAt(locs, 0, 0), Spend(sizes, |header| - h)))
    decreases |sizes|
  {
    hide DealFrom, Deal, DealAll, HeaderBytes, ContentLen, Spend;
    var header := HeaderBytes(ContentLen(locs));
    if h == |header| {
      SpendNothing(sizes);
      assert header[h..] == [];
      assert [] + Flatten(DealAll(locs, outs, SpotAt(locs, 0, 0), sizes))
        == Flatten(DealAll(locs, outs, SpotAt(locs, 0, 0), sizes));
    } else {
      var r, rest := sizes[0], sizes[1..];
      JoinedPass(locs, outs, Spot(h, 0, 0), sizes);
      HeaderBlock(locs, outs, h, r);
      if h + r < |header| {
        assert Positive(rest);
        HeaderFirst(locs, outs, h + r, rest);
        SpendOnward(sizes, |header| - h - r);
        HeaderJoins(header, h, r, Flatten(DealAll(locs, outs, SpotAt(locs, 0, 0), Spend(rest, |header| - h - r))));
      } else {
        var room := r - (|header| - h);
        var (more, spot) := DealFrom(locs, outs, 0, 0, room);
        var tail := Flatten(DealAll(locs, outs, spot, rest));
        assert (header[h..] + more) + tail == header[h..] + (more + tail);
        if room == 0 {
          NoRoom(locs, outs, 0, 0);
          SpendBuffer(sizes);
          assert [] + tail == tail;
        } else {
          SpendWithin(sizes, |header| - h);
          JoinedPass(locs, outs, SpotAt(locs, 0, 0), Spend(sizes, |header| - h));
          PastHeader(locs, outs, room);
        }
      }
    }
  }

  lemma SpendNothing(sizes: seq<nat>)
    requires Positive(sizes)
    ensures Spend(sizes, 0) == sizes
  {
    assert sizes != [] ==> [sizes[0]] + sizes[1..] == sizes;
  }

  lemma SpendWithin(sizes: seq<nat>, n: nat)
    requires sizes != [] && n < sizes[0]
    ensures Spend(sizes, n) != [] && Spend(sizes, n)[0] == sizes[0] - n && Spend(sizes, n)[1..] == sizes[1..]
  {
  }

  lemma HeaderJoins(header: bytes, h: nat, r: nat, tail: bytes)
    requires h + r <= |header|
    ensures header[h..h + r] + (header[h + r..] + tail) == header[h..] + tail
  {
    assert header[h..h + r] + header[h + r..] == header[h..];
  }

  /** A block that starts inside the header. */
  lemma HeaderBlock(locs: Locs, outs: seq<bytes>, h: nat, r: nat)
    requires |locs| == |outs| && h < |HeaderBytes(ContentLen(locs))|
    ensures var header := HeaderBytes(ContentLen(locs));
            Deal(locs, outs, Spot(h, 0, 0), r)
            == if h + r < |header| then (header[h..h + r], Spot(h + r, 0, 0))
               else
                 var (more, spot) := DealFrom(locs, outs, 0, 0, r - (|header| - h));
                 (header[h..] + more, spot)
  {
    hide DealFrom, HeaderBytes, ContentLen;
  }

  lemma PastHeader(locs: Locs, outs: seq<bytes>, room: nat)
    requires |locs| == |outs|
    ensures Deal(locs, outs, SpotAt(locs, 0, 0), room) == DealFrom(locs, outs, 0, 0, room)
  {
  }

  /** The stretches of a pass from the start. */
  function StretchesOf(locs: Locs, outs: seq<bytes>, sizes: seq<nat>): seq<bytes>
    requires |locs| == |outs|
  {
    Stretches(locs, outs, 0, 0, Spend(sizes, |HeaderBytes(ContentLen(locs))|))
  }

  /** A pass with room for the header hands out the header and then every component's stretch. */
  lemma StreamIsStretches(locs: Locs, outs: seq<bytes>, sizes: seq<nat>)
    requires |locs| == |outs| && Positive(sizes) && |HeaderBytes(ContentLen(locs))| <= Sum(sizes)
    ensures Stream(locs, outs, sizes) == HeaderBytes(ContentLen(locs)) + Flatten(StretchesOf(locs, outs, sizes))
  {
    hide DealAll, HeaderBytes, ContentLen, Stretches;
    var header := HeaderBytes(ContentLen(locs));
    HeaderFirst(locs, outs, 0, sizes);
    SpendSum(sizes, |header|);
    PassIsStretches(locs, outs, 0, 0, Spend(sizes, |header|));
    assert header[0..] == header;
  }

  /** The boundary is where some buffer ends, and no earlier one ends at or past `n`. */
  lemma {:induction false} BoundaryIsFirst(sizes: seq<nat>, n: nat) returns (k: nat)
    requires Positive(sizes) && 0 < n <= Sum(sizes)
    ensures 0 < k <= |sizes| && Boundary(sizes, n) == Sum(sizes[..k]) && Sum(sizes[..k - 1]) < n <= Sum(sizes[..k])
    decreases |sizes|
  {
    if sizes[0] >= n {
      k := 1;
      assert sizes[..1][1..] == [] && sizes[..0] == [];
    } else {
      assert Positive(sizes[1..]);
      var j := BoundaryIsFirst(sizes[1..], n - sizes[0]);
      k := j + 1;
      assert sizes[..k][1..] == sizes[1..][..j] && sizes[..k - 1][1..] == sizes[1..][..j - 1];
    }
  }

  // ---- Delivered as declared ----

  /** Every component's stretch is its own data, as much as it declares. */
  predicate AsDeclared(zip: bytes, locs: Locs, outs: seq<bytes>, stretches: seq<bytes>) {
    && |stretches| == |locs| == |outs|
    && forall i :: 0 <= i < |locs| && locs[i].Some? ==>
         && HasData(zip, locs[i].value)
         && stretches[i] == OwnData(zip, locs[i].value, outs[i])
         && |stretches[i]| == locs[i].value.uncompSize
  }

  lemma {:induction false} StretchesCount(locs: Locs, outs: seq<bytes>, comp: nat, e: nat, sizes: seq<nat>)
    requires |locs| == |outs| && comp <= |locs|
    ensures |Stretches(locs, outs, comp, e, sizes)| == |locs| - comp
    decreases |locs| - comp
  {
    hide StretchLen, Spend;
    if comp < |locs| {
      if locs[comp].None? {
        StretchesCount(locs, outs, comp + 1, 0, sizes);
      } else {
        var left := if e <= |outs[comp]| then |outs[comp]| - e else 0;
        StretchesCount(locs, outs, comp + 1, 0, Spend(sizes, StretchLen(left, Due(locs, comp, e), sizes)));
      }
    }
  }

  /** Components of their declared sizes go out whole. */
  lemma {:induction false} ExactStretches(locs: Locs, outs: seq<bytes>, comp: nat, sizes: seq<nat>)
    requires |locs| == |outs| && comp <= |locs| && Positive(sizes) && ContentLen(locs[comp..]) <= Sum(sizes)
    requires forall i :: comp <= i < |locs| ==> |outs[i]| == Declared(locs[i])
    ensures Stretches(locs, outs, comp, 0, sizes) == outs[comp..]
    decreases |locs| - comp
  {
    if comp < |locs| {
      var n := |outs[comp]|;
      assert locs[comp..][0] == locs[comp] && locs[comp..][1..] == locs[comp + 1..];
      assert outs[comp..] == [outs[comp]] + outs[comp + 1..];
      if locs[comp].None? {
        ExactStretches(locs, outs, comp + 1, sizes);
      } else {
        assert StretchLen(n, n, sizes) == n && outs[comp][0..n] == outs[comp];
        SpendSum(sizes, n);
        ExactStretches(locs, outs, comp + 1, Spend(sizes, n));
      }
    }
  }

  /** What the reader reaches of a complete archive is its own data, in the declared sizes. */
  lemma CompleteReached(zip: bytes, locs: Locs, outs: seq<bytes>, i: nat)
    requires Complete(zip, locs, outs) && Reaches(zip, locs, outs) && i < |locs|
    ensures |outs[i]| == Declared(locs[i])
    ensures locs[i].Some? ==> HasData(zip, locs[i].value) && outs[i] == OwnData(zip, locs[i].value, outs[i])
  {
    assert ReachesOne(zip, locs[i], outs[i]);
    if locs[i].Some? {
      EntireReached(zip, locs[i].value, outs[i]);
    }
  }

  /** The header and every component, one after the other. */
  function Framed(locs: Locs, outs: seq<bytes>): bytes {
    HeaderBytes(ContentLen(locs)) + Flatten(outs)
  }

  lemma {:induction false} DeclaredLength(locs: Locs, outs: seq<bytes>)
    requires |locs| == |outs| && forall i :: 0 <= i < |locs| ==> |outs[i]| == Declared(locs[i])
    ensures |Flatten(outs)| == ContentLen(locs)
  {
    if locs != [] {
      DeclaredLength(locs[1..], outs[1..]);
    }
  }

  /** A complete archive's stream is the header and every component, with `len` as its length, for any buffers. */
  lemma CompleteStream(zip: bytes, locs: Locs, outs: seq<bytes>, sizes: seq<nat>)
    requires Complete(zip, locs, outs) && Reaches(zip, locs, outs) && Positive(sizes) && FramedLen(locs) <= Sum(sizes)
    ensures StretchesOf(locs, outs, sizes) == outs
    ensures Stream(locs, outs, sizes) == Framed(locs, outs) && |Framed(locs, outs)| == FramedLen(locs)
  {
    hide HeaderBytes, DealAll, Stretches, Reaches, Complete;
    var h := |HeaderBytes(ContentLen(locs))|;
    ReachesSizes(zip, locs, outs);
    forall i | 0 <= i < |locs|
      ensures |outs[i]| == Declared(locs[i])
    {
      CompleteReached(zip, locs, outs, i);
    }
    DeclaredLength(locs, outs);
    SpendSum(sizes, h);
    assert locs[0..] == locs && outs[0..] == outs;
    ExactStretches(locs, outs, 0, Spend(sizes, h));
    StreamIsStretches(locs, outs, sizes);
  }

  lemma ReachesSizes(zip: bytes, locs: Locs, outs: seq<bytes>)
    requires Reaches(zip, locs, outs)
    ensures |locs| == |outs| == LFDB_COMPONENTS
  {
  }

  /**
   For every list of buffer sizes with room for what is declared, each component's stretch of the stream is
   its own data in the declared size, if and only if every component is entire: a deflated one inflates to
   its declared size, a stored one has two equal sizes, and all have their bytes in the archive.
   */
  lemma DeliveredExactly(zip: bytes, locs: Locs, outs: seq<bytes>, sizes: seq<nat>)
    requires Reaches(zip, locs, outs) && Positive(sizes) && FramedLen(locs) <= Sum(sizes)
    ensures AsDeclared(zip, locs, outs, StretchesOf(locs, outs, sizes)) <==> Complete(zip, locs, outs)
  {
    hide Stretches, HeaderBytes, Reaches;
    ReachesSizes(zip, locs, outs);
    if Complete(zip, locs, outs) {
      CompleteStream(zip, locs, outs, sizes);
      forall i | 0 <= i < |locs|
        ensures |outs[i]| == Declared(locs[i])
        ensures locs[i].Some? ==> HasData(zip, locs[i].value) && outs[i] == OwnData(zip, locs[i].value, outs[i])
      {
        CompleteReached(zip, locs, outs, i);
      }
    }
  }

  // ---- When buffer sizes matter ----

  /** No component the reader gets to inflates past its declared size (or past one byte, if it declares none). */
  predicate Steady(locs: Locs, outs: seq<bytes>, comp: nat)
    requires |locs| == |outs|
    decreases |locs| - comp
  {
    comp < |locs| ==>
      if locs[comp].None? then Steady(locs, outs, comp + 1)
      else
        && |outs[comp]| <= Max(Declared(locs[comp]), 1)
        && (|outs[comp]| >= Declared(locs[comp]) ==> Steady(locs, outs, comp + 1))
  }

  /** The components whole, up to and including the first that falls short. */
  function Whole(locs: Locs, outs: seq<bytes>, comp: nat): bytes
    requires |locs| == |outs|
    decreases |locs| - comp
  {
    if comp >= |locs| then []
    else if locs[comp].None? then Whole(locs, outs, comp + 1)
    else outs[comp] + if |outs[comp]| >= Declared(locs[comp]) then Whole(locs, outs, comp + 1) else []
  }

  /** The stretches when everything goes out whole: every component up to the first that falls short. */
  function WholeStretches(locs: Locs, outs: seq<bytes>, comp: nat): (r: seq<bytes>)
    requires |locs| == |outs| && comp <= |locs|
    ensures |r| == |locs| - comp
    decreases |locs| - comp
  {
    if comp == |locs| then []
    else if locs[comp].None? then [[]] + WholeStretches(locs, outs, comp + 1)
    else
      [outs[comp]]
      + if |outs[comp]| >= Declared(locs[comp]) then WholeStretches(locs, outs, comp + 1)
        else Nothing(|locs| - comp - 1)
  }

  lemma {:induction false} WholeJoins(locs: Locs, outs: seq<bytes>, comp: nat)
    requires |locs| == |outs| && comp <= |locs|
    ensures Flatten(WholeStretches(locs, outs, comp)) == Whole(locs, outs, comp)
    decreases |locs| - comp
  {
    hide Flatten, Nothing;
    if comp == |locs| {
      FlattenNil();
    } else {
      var rest := WholeStretches(locs, outs, comp + 1);
      WholeJoins(locs, outs, comp + 1);
      if locs[comp].None? {
        FlattenOnto([], rest);
        assert [] + Flatten(rest) == Flatten(rest);
      } else if |outs[comp]| >= Declared(locs[comp]) {
        FlattenOnto(outs[comp], rest);
      } else {
        NothingJoins(|locs| - comp - 1);
        FlattenOnto(outs[comp], Nothing(|locs| - comp - 1));
      }
    }
  }

  /** One stretch, and those that follow it. */
  lemma StretchesSplit(locs: Locs, outs: seq<bytes>, comp: nat, sizes: seq<nat>)
    requires |locs| == |outs| && comp < |locs| && locs[comp].Some?
    ensures var n := StretchLen(|outs[comp]|, Declared(locs[comp]), sizes);
            && n <= |outs[comp]|
            && Stretches(locs, outs, comp, 0, sizes)
               == [outs[comp][..n]]
                  + (if n >= Declared(locs[comp]) then Stretches(locs, outs, comp + 1, 0, Spend(sizes, n))
                     else Nothing(|locs| - comp - 1))
  {
    hide StretchLen, Spend;
    StretchLenBounds(|outs[comp]|, Declared(locs[comp]), sizes);
    var n := StretchLen(|outs[comp]|, Declared(locs[comp]), sizes);
    assert outs[comp][0..n] == outs[comp][..n];
  }

  /** Steady components go out whole whatever the buffers. */
  lemma {:induction false} SteadyStretches(locs: Locs, outs: seq<bytes>, comp: nat, sizes: seq<nat>)
    requires |locs| == |outs| && comp <= |locs| && Positive(sizes)
    requires Steady(locs, outs, comp) && |Whole(locs, outs, comp)| <= Sum(sizes)
    ensures Stretches(locs, outs, comp, 0, sizes) == WholeStretches(locs, outs, comp)
    decreases |locs| - comp
  {
    hide Spend, Sum, Boundary;
    if comp < |locs| {
      if locs[comp].None? {
        SteadyStretches(locs, outs, comp + 1, sizes);
      } else {
        var n := |outs[comp]|;
        StretchesSplit(locs, outs, comp, sizes);
        assert outs[comp][..n] == outs[comp];
        SpendSum(sizes, n);
        if n >= Declared(locs[comp]) {
          SteadyStretches(locs, outs, comp + 1, Spend(sizes, n));
        }
      }
    }
  }

  /** In one buffer large enough everything goes out whole. */
  lemma {:induction false} OneBufferStretches(locs: Locs, outs: seq<bytes>, comp: nat, sizes: seq<nat>)
    requires |locs| == |outs| && comp <= |locs| && Positive(sizes) && |sizes| <= 1
    requires |Whole(locs, outs, comp)| <= Sum(sizes)
    ensures Stretches(locs, outs, comp, 0, sizes) == WholeStretches(locs, outs, comp)
    decreases |locs| - comp
  {
    hide Spend;
    if comp < |locs| {
      if locs[comp].None? {
        OneBufferStretches(locs, outs, comp + 1, sizes);
      } else {
        var n := |outs[comp]|;
        StretchesSplit(locs, outs, comp, sizes);
        OneBufferLen(n, Declared(locs[comp]), sizes);
        assert outs[comp][..n] == outs[comp];
        SpendSum(sizes, n);
        SpendShort(sizes, n);
        if n >= Declared(locs[comp]) {
          OneBufferStretches(locs, outs, comp + 1, Spend(sizes, n));
        }
      }
    }
  }

  lemma OneBufferLen(left: nat, declared: nat, sizes: seq<nat>)
    requires |sizes| <= 1 && left <= Sum(sizes)
    ensures StretchLen(left, declared, sizes) == left
  {
    if sizes != [] {
      assert sizes[1..] == [];
    }
  }

  lemma SpendShort(sizes: seq<nat>, n: nat)
    requires |sizes| <= 1
    ensures |Spend(sizes, n)| <= 1
  {
    if sizes != [] {
      assert sizes[1..] == [];
    }
  }

  /** Where to end the first buffer to cut the first component that is too long. */
  function CutPoint(locs: Locs, outs: seq<bytes>, comp: nat): (n: nat)
    requires |locs| == |outs| && !Steady(locs, outs, comp)
    ensures n > 0
    decreases |locs| - comp
  {
    if locs[comp].None? then CutPoint(locs, outs, comp + 1)
    else if |outs[comp]| > Max(Declared(locs[comp]), 1) then Max(Declared(locs[comp]), 1)
    else |outs[comp]| + CutPoint(locs, outs, comp + 1)
  }

  lemma {:induction false} CutIsShorter(locs: Locs, outs: seq<bytes>, comp: nat, room: nat)
    requires |locs| == |outs| && !Steady(locs, outs, comp) && room > 0 && |Whole(locs, outs, comp)| <= room
    ensures |Flatten(Stretches(locs, outs, comp, 0, [CutPoint(locs, outs, comp), room]))| < |Whole(locs, outs, comp)|
    decreases |locs| - comp
  {
    hide Spend, Stretches, Sum, Boundary;
    var sizes := [CutPoint(locs, outs, comp), room];
    if locs[comp].None? {
      CutIsShorter(locs, outs, comp + 1, room);
      StretchesAbsent(locs, outs, comp, sizes);
    } else {
      var n, declared := |outs[comp]|, Declared(locs[comp]);
      var due := Max(declared, 1);
      StretchesUnfold(locs, outs, comp, 0, sizes);
      TwoBuffers(CutPoint(locs, outs, comp), room);
      if n > due {
        SpendTwo(due, room);
        TwoBuffers(0, room);
        OneBufferStretches(locs, outs, comp + 1, [room]);
        WholeJoins(locs, outs, comp + 1);
      } else {
        SpendInto(n, CutPoint(locs, outs, comp + 1), room);
        CutIsShorter(locs, outs, comp + 1, room);
      }
    }
  }

  lemma TwoBuffers(a: nat, b: nat)
    ensures Sum([a, b]) == a + b && Sum([b]) == b && Boundary([a, b], a) == a
  {
    assert [a, b][1..] == [b] && [b][1..] == [];
    assert Sum([b]) == b + Sum([]);
    assert Sum([a, b]) == a + Sum([b]);
  }

  lemma SpendTwo(a: nat, b: nat)
    requires b > 0
    ensures Spend([a, b], a) == [b]
  {
    assert [a, b][1..] == [b] && [b][1..] == [];
  }

  lemma SpendInto(n: nat, a: nat, b: nat)
    requires a > 0
    ensures Spend([n + a, b], n) == [a, b]
  {
    assert [n + a, b][1..] == [b];
  }

  /** Room for the header and everything whole. */
  function RoomForAll(locs: Locs, outs: seq<bytes>): nat
    requires |locs| == |outs|
  {
    |HeaderBytes(ContentLen(locs))| + |Whole(locs, outs, 0)|
  }

  lemma SteadyStream(locs: Locs, outs: seq<bytes>, sizes: seq<nat>)
    requires |locs| == |outs| && Positive(sizes) && Steady(locs, outs, 0) && RoomForAll(locs, outs) <= Sum(sizes)
    ensures Stream(locs, outs, sizes) == HeaderBytes(ContentLen(locs)) + Whole(locs, outs, 0)
  {
    hide HeaderBytes, DealAll, Stretches, Steady, Whole;
    SpendSum(sizes, |HeaderBytes(ContentLen(locs))|);
    StreamIsStretches(locs, outs, sizes);
    SteadyStretches(locs, outs, 0, Spend(sizes, |HeaderBytes(ContentLen(locs))|));
    WholeJoins(locs, outs, 0);
  }

  /** Two lists of buffer sizes, both with room for everything, that give different streams. */
  lemma TwoSizesTwoStreams(locs: Locs, outs: seq<bytes>) returns (one: seq<nat>, two: seq<nat>)
    requires |locs| == |outs| && !Steady(locs, outs, 0)
    ensures Positive(one) && Positive(two) && RoomForAll(locs, outs) <= Sum(one) && RoomForAll(locs, outs) <= Sum(two)
    ensures Stream(locs, outs, one) == HeaderBytes(ContentLen(locs)) + Whole(locs, outs, 0)
    ensures StretchesOf(locs, outs, one) == WholeStretches(locs, outs, 0)
    ensures |Stream(locs, outs, two)| < |Stream(locs, outs, one)|
  {
    hide HeaderBytes, DealAll, Stretches, Steady, Whole, Spend, Sum;
    var h, all, cut := |HeaderBytes(ContentLen(locs))|, RoomForAll(locs, outs), CutPoint(locs, outs, 0);
    var room := all + 1;
    one, two := [h + room], [h + cut, room];
    TwoBuffers(h + cut, room);
    TwoBuffers(0, h + room);
    SpendInto(h, cut, room);
    SpendOne(h, room);
    TwoBuffers(0, room);
    StreamIsStretches(locs, outs, one);
    StreamIsStretches(locs, outs, two);
    OneBufferStretches(locs, outs, 0, [room]);
    WholeJoins(locs, outs, 0);
    CutIsShorter(locs, outs, 0, room);
  }

  lemma SpendOne(n: nat, a: nat)
    requires a > 0
    ensures Spend([n + a], n) == [a]
  {
    assert [n + a][1..] == [];
  }

  /** The stream is the same for all buffer sizes if and only if no component reached is too long. */
  lemma SizesMatterExactly(locs: Locs, outs: seq<bytes>)
    requires |locs| == |outs|
    ensures Steady(locs, outs, 0) <==>
              forall sizes :: Positive(sizes) && RoomForAll(locs, outs) <= Sum(sizes) ==>
                Stream(locs, outs, sizes) == HeaderBytes(ContentLen(locs)) + Whole(locs, outs, 0)
  {
    hide HeaderBytes, Stream, Steady, Whole;
    if Steady(locs, outs, 0) {
      forall sizes | Positive(sizes) && RoomForAll(locs, outs) <= Sum(sizes)
        ensures Stream(locs, outs, sizes) == HeaderBytes(ContentLen(locs)) + Whole(locs, outs, 0)
      {
        SteadyStream(locs, outs, sizes);
      }
    } else {
      var one, two := TwoSizesTwoStreams(locs, outs);
    }
  }

  /** A stretch that is all its entry holds; an absent component has none. */
  predicate OwnOne(zip: bytes, loc: Option<CompLoc>, out: bytes, stretch: bytes) {
    if loc.Some? then HasData(zip, loc.value) && stretch == OwnData(zip, loc.value, out) else stretch == []
  }

  /** Every component's stretch is its own data, all that the entry holds. */
  predicate OwnStretches(zip: bytes, locs: Locs, outs: seq<bytes>, stretches: seq<bytes>) {
    && |stretches| == |locs| == |outs|
    && forall i :: 0 <= i < |locs| ==> OwnOne(zip, locs[i], outs[i], stretches[i])
  }

  /** How much data an entry holds. */
  function OwnSize(loc: CompLoc, inflated: bytes): nat {
    if loc.coding == METHOD_DEFLATE then |inflated| else loc.compSize
  }

  /** How much of an entry the reader reaches. */
  function ReachSize(zip: bytes, loc: CompLoc, inflated: bytes): nat {
    if loc.coding == METHOD_DEFLATE then |inflated|
    else if loc.dataOff <= |zip| then Min(loc.uncompSize, |zip| - loc.dataOff) else 0
  }

  /** From `comp` on, no entry holds anything. */
  predicate NoMoreData(zip: bytes, locs: Locs, outs: seq<bytes>, comp: nat)
    requires |locs| == |outs|
  {
    forall i :: comp <= i < |locs| && locs[i].Some? ==>
      HasData(zip, locs[i].value) && OwnSize(locs[i].value, outs[i]) == 0
  }

  /**
   Sizes under which own data is handed out whatever the buffers: of each entry the reader reaches as much as
   it holds, which is not more than declared (or one byte, if none is), and after one that falls short
   there is nothing more to hand out.
   */
  predicate SizesAgree(zip: bytes, locs: Locs, outs: seq<bytes>, comp: nat)
    requires |locs| == |outs|
    decreases |locs| - comp
  {
    comp < |locs| ==>
      if locs[comp].None? then SizesAgree(zip, locs, outs, comp + 1)
      else
        var loc, size := locs[comp].value, OwnSize(locs[comp].value, outs[comp]);
        && HasData(zip, loc) && ReachSize(zip, loc, outs[comp]) == size <= Max(loc.uncompSize, 1)
        && if size >= loc.uncompSize then SizesAgree(zip, locs, outs, comp + 1)
          else NoMoreData(zip, locs, outs, comp + 1)
  }

  /** Reaching as much as an entry holds is reaching its own data. */
  lemma ReachIsOwn(zip: bytes, loc: CompLoc, out: bytes)
    requires ReachesOne(zip, Some(loc), out)
    ensures |out| == ReachSize(zip, loc, out)
    ensures HasData(zip, loc) ==>
              |OwnData(zip, loc, out)| == OwnSize(loc, out)
              && (out == OwnData(zip, loc, out) <==> ReachSize(zip, loc, out) == OwnSize(loc, out))
  {
  }

  /** Stretches from `comp` on that are own data. */
  predicate OwnFrom(zip: bytes, locs: Locs, outs: seq<bytes>, stretches: seq<bytes>, comp: nat)
    requires |locs| == |outs| && comp <= |locs| && |stretches| == |locs| - comp
    decreases |stretches|
  {
    stretches != [] ==>
      OwnOne(zip, locs[comp], outs[comp], stretches[0]) && OwnFrom(zip, locs, outs, stretches[1..], comp + 1)
  }

  lemma OwnFromSplits(zip: bytes, locs: Locs, outs: seq<bytes>, first: bytes, rest: seq<bytes>, comp: nat)
    requires |locs| == |outs| && comp < |locs| && |rest| == |locs| - comp - 1
    ensures OwnFrom(zip, locs, outs, [first] + rest, comp) <==>
              OwnOne(zip, locs[comp], outs[comp], first) && OwnFrom(zip, locs, outs, rest, comp + 1)
  {
    hide OwnOne;
    assert ([first] + rest)[1..] == rest;
  }

  lemma {:induction false} NothingIsOwn(zip: bytes, locs: Locs, outs: seq<bytes>, comp: nat)
    requires Reaches(zip, locs, outs) && comp <= |locs|
    ensures OwnFrom(zip, locs, outs, Nothing(|locs| - comp), comp) <==> NoMoreData(zip, locs, outs, comp)
    decreases |locs| - comp
  {
    hide HasData, OwnSize, OwnData, ReachesOne;
    if comp < |locs| {
      NothingIsOwn(zip, locs, outs, comp + 1);
      assert Nothing(|locs| - comp)[1..] == Nothing(|locs| - comp - 1);
      if locs[comp].Some? {
        ReachIsOwn(zip, locs[comp].value, outs[comp]);
      }
    }
  }

  lemma {:induction false} SizesAgreeExactly(zip: bytes, locs: Locs, outs: seq<bytes>, comp: nat)
    requires Reaches(zip, locs, outs) && comp <= |locs|
    ensures SizesAgree(zip, locs, outs, comp) <==>
              Steady(locs, outs, comp) && OwnFrom(zip, locs, outs, WholeStretches(locs, outs, comp), comp)
    decreases |locs| - comp
  {
    hide HasData, OwnData, OwnSize, ReachSize, OwnFrom, NoMoreData, Reaches, Nothing;
    ReachesSizes(zip, locs, outs);
    if comp == |locs| {
      OwnFromEnd(zip, locs, outs);
    } else {
      SizesAgreeExactly(zip, locs, outs, comp + 1);
      ReachesHere(zip, locs, outs, comp);
      var rest := WholeStretches(locs, outs, comp + 1);
      OwnFromSplits(zip, locs, outs, outs[comp], rest, comp);
      OwnFromSplits(zip, locs, outs, [], rest, comp);
      OwnFromSplits(zip, locs, outs, outs[comp], Nothing(|locs| - comp - 1), comp);
      NothingIsOwn(zip, locs, outs, comp + 1);
      if locs[comp].Some? {
        ReachIsOwn(zip, locs[comp].value, outs[comp]);
      }
    }
  }

  lemma OwnFromEnd(zip: bytes, locs: Locs, outs: seq<bytes>)
    requires |locs| == |outs|
    ensures OwnFrom(zip, locs, outs, [], |locs|)
  {
  }

  lemma ReachesHere(zip: bytes, locs: Locs, outs: seq<bytes>, comp: nat)
    requires Reaches(zip, locs, outs) && comp < |locs|
    ensures |locs| == |outs| && ReachesOne(zip, locs[comp], outs[comp])
  {
  }

  lemma {:induction false} OwnStretchesFrom(zip: bytes, locs: Locs, outs: seq<bytes>, stretches: seq<bytes>, comp: nat)
    requires |locs| == |outs| == |stretches| && comp <= |locs|
    ensures OwnFrom(zip, locs, outs, stretches[comp..], comp) <==>
              forall i :: comp <= i < |locs| ==> OwnOne(zip, locs[i], outs[i], stretches[i])
    decreases |locs| - comp
  {
    hide OwnOne;
    if comp < |locs| {
      OwnStretchesFrom(zip, locs, outs, stretches, comp + 1);
      assert stretches[comp..][1..] == stretches[comp + 1..];
    }
  }

  lemma OwnStretchesWhole(zip: bytes, locs: Locs, outs: seq<bytes>, stretches: seq<bytes>)
    requires |locs| == |outs| == |stretches|
    ensures OwnStretches(zip, locs, outs, stretches) <==> OwnFrom(zip, locs, outs, stretches, 0)
  {
    hide OwnFrom, OwnOne;
    OwnStretchesFrom(zip, locs, outs, stretches, 0);
    assert stretches[0..] == stretches;
  }

  /**
   Each component's stretch is its own data for every list of buffer sizes if and only if the sizes agree:
   a test on the sizes declared, occupied, inflated to and available alone.
   */
  lemma OwnDataForAllSizes(zip: bytes, locs: Locs, outs: seq<bytes>)
    requires Reaches(zip, locs, outs)
    ensures |locs| == |outs|
    ensures (forall sizes :: Positive(sizes) && RoomForAll(locs, outs) <= Sum(sizes) ==>
               OwnStretches(zip, locs, outs, StretchesOf(locs, outs, sizes)))
            <==> SizesAgree(zip, locs, outs, 0)
  {
    hide HeaderBytes, Stretches, Steady, Whole, WholeStretches, OwnStretches, Stream, SizesAgree, OwnFrom, Reaches;
    ReachesSizes(zip, locs, outs);
    SizesAgreeExactly(zip, locs, outs, 0);
    OwnStretchesWhole(zip, locs, outs, WholeStretches(locs, outs, 0));
    if Steady(locs, outs, 0) {
      forall sizes | Positive(sizes) && RoomForAll(locs, outs) <= Sum(sizes)
        ensures StretchesOf(locs, outs, sizes) == WholeStretches(locs, outs, 0)
      {
        SpendSum(sizes, |HeaderBytes(ContentLen(locs))|);
        SteadyStretches(locs, outs, 0, Spend(sizes, |HeaderBytes(ContentLen(locs))|));
      }
      OneSize(RoomForAll(locs, outs) + 1);
      assert StretchesOf(locs, outs, [RoomForAll(locs, outs) + 1]) == WholeStretches(locs, outs, 0);
    } else {
      var one, two := TwoSizesTwoStreams(locs, outs);
      StreamIsStretches(locs, outs, one);
      StreamIsStretches(locs, outs, two);
      if OwnStretches(zip, locs, outs, StretchesOf(locs, outs, one))
        && OwnStretches(zip, locs, outs, StretchesOf(locs, outs, two)) {
        OwnStretchesAgree(zip, locs, outs, StretchesOf(locs, outs, one), StretchesOf(locs, outs, two));
      }
    }
  }

  lemma OneSize(n: nat)
    requires n > 0
    ensures Positive([n]) && Sum([n]) == n
  {
    TwoBuffers(0, n);
  }

  lemma OwnStretchesAgree(zip: bytes, locs: Locs, outs: seq<bytes>, a: seq<bytes>, b: seq<bytes>)
    requires OwnStretches(zip, locs, outs, a) && OwnStretches(zip, locs, outs, b)
    ensures a == b
  {
  }

  // ---- Full blocks ----

  /** Nothing follows from here: every component is behind, or one has nothing left short of its declared size. */
  predicate Spent(locs: Locs, outs: seq<bytes>, p: Spot)
    requires |locs| == |outs|
  {
    && p.header >= |HeaderBytes(ContentLen(locs))|
    && (p.comp >= |locs| || (locs[p.comp].Some? && |outs[p.comp]| <= p.emitted < Declared(locs[p.comp])))
  }

  lemma {:induction false} ShortDealSpent(locs: Locs, outs: seq<bytes>, comp: nat, e: nat, room: nat)
    requires |locs| == |outs| && |DealFrom(locs, outs, comp, e, room).0| < room
    ensures Spent(locs, outs, DealFrom(locs, outs, comp, e, room).1)
    decreases |locs| - comp
  {
    hide HeaderBytes, ContentLen;
    if comp < |locs| {
      if locs[comp].None? {
        ShortDealSpent(locs, outs, comp + 1, 0, room);
      } else {
        var left := if e <= |outs[comp]| then |outs[comp]| - e else 0;
        var n := Min(left, room);
        if e + n >= Declared(locs[comp]) {
          ShortDealSpent(locs, outs, comp + 1, 0, room - n);
        }
      }
    }
  }

  lemma ShortBlockSpent(locs: Locs, outs: seq<bytes>, p: Spot, room: nat)
    requires |locs| == |outs|
    ensures |Deal(locs, outs, p, room).0| <= room
    ensures |Deal(locs, outs, p, room).0| < room ==> Spent(locs, outs, Deal(locs, outs, p, room).1)
  {
    hide HeaderBytes, ContentLen, DealFrom, Spent;
    var h := |HeaderBytes(ContentLen(locs))|;
    var rest := if p.header < h then room - Min(h - p.header, room) else room;
    DealFromFits(locs, outs, p.comp, p.emitted, rest);
    if |DealFrom(locs, outs, p.comp, p.emitted, rest).0| < rest {
      ShortDealSpent(locs, outs, p.comp, p.emitted, rest);
    }
  }

  lemma {:induction false} SpentBlocks(locs: Locs, outs: seq<bytes>, p: Spot, sizes: seq<nat>, j: nat)
    requires |locs| == |outs| && Spent(locs, outs, p) && j < |sizes|
    ensures DealAll(locs, outs, p, sizes)[j] == []
    decreases j
  {
    hide DealFrom, HeaderBytes, ContentLen;
    if p.comp >= |locs| {
      AllBehind(locs, outs, p.comp, p.emitted, sizes[0]);
    } else {
      DealStall(locs, outs, p.comp, p.emitted, sizes[0]);
    }
    if j > 0 {
      SpentBlocks(locs, outs, Deal(locs, outs, p, sizes[0]).1, sizes[1..], j - 1);
    }
  }

  /** Every block before the last that holds anything is full. */
  lemma {:induction false} BlocksFull(locs: Locs, outs: seq<bytes>, p: Spot, sizes: seq<nat>, i: nat, j: nat)
    requires |locs| == |outs| && i < j < |sizes|
    ensures |DealAll(locs, outs, p, sizes)[i]| <= sizes[i]
    ensures |DealAll(locs, outs, p, sizes)[i]| < sizes[i] ==> DealAll(locs, outs, p, sizes)[j] == []
    decreases i
  {
    hide Deal, Spent;
    ShortBlockSpent(locs, outs, p, sizes[0]);
    var next := Deal(locs, outs, p, sizes[0]).1;
    if i > 0 {
      BlocksFull(locs, outs, next, sizes[1..], i - 1, j - 1);
    } else if Spent(locs, outs, next) {
      SpentBlocks(locs, outs, next, sizes[1..], j - 1);
    }
  }

  // ---- Reading ----

  /** A pass of `next_block` calls with buffers of any sizes, from wherever the reader is. */
  method ReadBlocks<S(!new)>(lfdb: LoadFileDataBlock, infl: InflateCtx<S>, sizes: seq<nat>, ghost plan: Plan<S>)
    returns (blocks: seq<bytes>)
    requires lfdb.Valid() && infl.Valid() && lfdb.On(infl, plan)
    modifies lfdb, infl`state, infl.window
    ensures lfdb.Valid() && lfdb.On(infl, plan) && |plan.outs| == |lfdb.locs|
    ensures blocks == DealAll(lfdb.locs, plan.outs, old(lfdb.Place()), sizes)
  {
    hide DealAll, Deal, Tracking;
    OnPlan(lfdb, infl, plan);
    ghost var goal := DealAll(lfdb.locs, plan.outs, lfdb.Place(), sizes);
    assert sizes[0..] == sizes;
    blocks := [];
    for i := 0 to |sizes|
      invariant lfdb.Valid() && lfdb.On(infl, plan)
      invariant blocks + DealAll(lfdb.locs, plan.outs, lfdb.Place(), sizes[i..]) == goal
    {
      ghost var from := lfdb.Place();
      var block := ReadBlock(lfdb, infl, sizes[i], plan);
      DealAllStep(lfdb.locs, plan.outs, from, sizes, i, blocks, block, lfdb.Place());
      blocks := blocks + [block];
    }
    NoBlocks(lfdb.locs, plan.outs, lfdb.Place(), sizes[|sizes|..], blocks);
  }

  lemma OnPlan<S(!new)>(lfdb: LoadFileDataBlock, infl: InflateCtx<S>, plan: Plan<S>)
    requires lfdb.Valid() && lfdb.On(infl, plan)
    ensures |plan.outs| == |lfdb.locs| == LFDB_COMPONENTS && Reaches(lfdb.zip, lfdb.locs, plan.outs)
  {
  }

  lemma DealAllStep(locs: Locs, outs: seq<bytes>, p: Spot, sizes: seq<nat>, i: nat, blocks: seq<bytes>, block: bytes,
                    next: Spot)
    requires |locs| == |outs| && i < |sizes| && (block, next) == Deal(locs, outs, p, sizes[i])
    ensures blocks + DealAll(locs, outs, p, sizes[i..])
         == (blocks + [block]) + DealAll(locs, outs, next, sizes[i + 1..])
  {
    hide Deal;
    assert sizes[i..][1..] == sizes[i + 1..];
  }

  lemma NoBlocks(locs: Locs, outs: seq<bytes>, p: Spot, sizes: seq<nat>, blocks: seq<bytes>)
    requires |locs| == |outs| && sizes == []
    ensures blocks + DealAll(locs, outs, p, sizes) == blocks
  {
  }

  /** One call, with a buffer of its own. */
  method ReadBlock<S(!new)>(lfdb: LoadFileDataBlock, infl: InflateCtx<S>, size: nat, ghost plan: Plan<S>)
    returns (block: bytes)
    requires lfdb.Valid() && infl.Valid() && lfdb.On(infl, plan)
    modifies lfdb, infl`state, infl.window
    ensures lfdb.Valid() && lfdb.On(infl, plan) && |plan.outs| == |lfdb.locs|
    ensures (block, lfdb.Place()) == Deal(lfdb.locs, plan.outs, old(lfdb.Place()), size)
  {
    hide Deal, Tracking;
    var out := new byte[size](_ => 0);
    var r := lfdb.NextBlock(infl, out, plan);
    block := out[..r.value];
  }

  /**
   Two passes with a reset between them, as when the load file is hashed before it is loaded. They see one
   stream whatever sizes each uses, unless a component is too long.
   */
  method HashThenLoad<S(!new)>(lfdb: LoadFileDataBlock, infl: InflateCtx<S>, first: seq<nat>, second: seq<nat>,
                               ghost plan: Plan<S>)
    returns (hashed: seq<bytes>, loaded: seq<bytes>)
    requires lfdb.Valid() && infl.Valid() && lfdb.On(infl, plan) && lfdb.Place() == START && Positive(first)
    requires Positive(second)
    modifies lfdb, infl`state, infl.window
    ensures |plan.outs| == |lfdb.locs|
    ensures Flatten(hashed) == Stream(lfdb.locs, plan.outs, first)
    ensures Flatten(loaded) == Stream(lfdb.locs, plan.outs, second)
    ensures Steady(lfdb.locs, plan.outs, 0)
            && RoomForAll(lfdb.locs, plan.outs) <= Sum(first) && RoomForAll(lfdb.locs, plan.outs) <= Sum(second) ==>
              Flatten(hashed) == Flatten(loaded)
  {
    hide DealAll, Tracking, Feeds, Steady, Whole, HeaderBytes, Sum;
    OnFeeds(lfdb, infl, plan);
    hashed := ReadBlocks(lfdb, infl, first, plan);
    lfdb.Reset();
    lfdb.StartsOn(infl, plan);
    loaded := ReadBlocks(lfdb, infl, second, plan);
    if Steady(lfdb.locs, plan.outs, 0) && RoomForAll(lfdb.locs, plan.outs) <= Sum(first)
      && RoomForAll(lfdb.locs, plan.outs) <= Sum(second) {
      SteadyStream(lfdb.locs, plan.outs, first);
      SteadyStream(lfdb.locs, plan.outs, second);
    }
  }

  lemma OnFeeds<S(!new)>(lfdb: LoadFileDataBlock, infl: InflateCtx<S>, plan: Plan<S>)
    requires lfdb.Valid() && lfdb.On(infl, plan)
    ensures Feeds(infl.codec, lfdb.zip, lfdb.locs, plan) && |plan.outs| == |lfdb.locs| == LFDB_COMPONENTS
  {
  }
}
