/** The boundary sweep of the builder: overlapping categorised ranges become
    sorted, disjoint, maximally merged segments with category masks. */
module Sweeping {
  import opened Words
  import Orders

  /** Inclusive range with the category id it came from. */
  datatype RawRange = RawRange(lo: nat, hi: nat, cat: nat)

  datatype Segment = Segment(lo: nat, hi: nat, mask: Mask)

  /** `Infinity` is the source's `(true, 0)`: one past the numeric maximum. */
  datatype Boundary = Finite(pos: nat) | Infinity

  type Deltas = seq<(nat, int)>

  function Key(b: Boundary): nat {
    match b
    case Finite(pos) => pos
    case Infinity => U128_MAX + 1
  }

  predicate Before(a: Boundary, b: Boundary) {
    a.Finite? && (b.Infinity? || a.pos < b.pos)
  }

  function EndExclusive(hi: nat): Boundary {
    if hi < U128_MAX then Finite(hi + 1) else Infinity
  }

  predicate WellFormed(ranges: seq<RawRange>, words: nat) {
    forall r :: r in ranges ==> r.lo <= r.hi <= U128_MAX && r.cat < 64 * words
  }

  // ----- the relation the sweep computes

  /** The categories of the ranges that cover `p`. */
  ghost function CatsAt(ranges: seq<RawRange>, p: int): set<nat> {
    set r | r in ranges && r.lo <= p <= r.hi :: r.cat
  }

  /** The categories that the segments covering `p` carry. */
  ghost function CatsIn(segs: seq<Segment>, p: int): set<nat> {
    set i, c | 0 <= i < |segs| && segs[i].lo <= p <= segs[i].hi && c in Bits(segs[i].mask) :: c
  }

  /** Sorted, disjoint, maximally merged, every mask non-empty. */
  ghost predicate Canonical(segs: seq<Segment>, words: nat) {
    && (forall i :: 0 <= i < |segs| ==>
          && segs[i].lo <= segs[i].hi
          && |segs[i].mask| == words && ValidMask(segs[i].mask) && Bits(segs[i].mask) != {})
    && (forall i, j :: 0 <= i < j < |segs| ==> segs[i].hi < segs[j].lo)
    && (forall i :: 0 <= i < |segs| - 1 ==> segs[i].hi + 1 == segs[i + 1].lo ==> segs[i].mask != segs[i + 1].mask)
  }

  // ----- counting what the events add up to

  ghost function CoverCount(rs: seq<RawRange>, c: nat, p: int): nat {
    if rs == [] then 0
    else
      var r := rs[|rs| - 1];
      CoverCount(rs[..|rs| - 1], c, p) + (if r.cat == c && r.lo <= p <= r.hi then 1 else 0)
  }

  ghost function Starts(rs: seq<RawRange>, c: nat, b: Boundary): nat {
    if rs == [] then 0
    else
      var r := rs[|rs| - 1];
      Starts(rs[..|rs| - 1], c, b) + (if r.cat == c && Finite(r.lo) == b then 1 else 0)
  }

  ghost function Ends(rs: seq<RawRange>, c: nat, b: Boundary): nat {
    if rs == [] then 0
    else
      var r := rs[|rs| - 1];
      Ends(rs[..|rs| - 1], c, b) + (if r.cat == c && EndExclusive(r.hi) == b then 1 else 0)
  }

  ghost predicate IsBoundary(rs: seq<RawRange>, b: Boundary) {
    exists r :: r in rs && (b == Finite(r.lo) || b == EndExclusive(r.hi))
  }

  /** The deltas one range pushes at boundary `b`. */
  function RangeDeltas(r: RawRange, b: Boundary): Deltas {
    (if Finite(r.lo) == b then [(r.cat, 1)] else []) + (if EndExclusive(r.hi) == b then [(r.cat, -1)] else [])
  }

  /** The deltas pushed at boundary `b`, in push order. */
  ghost function DeltasAt(rs: seq<RawRange>, b: Boundary): Deltas {
    if rs == [] then [] else DeltasAt(rs[..|rs| - 1], b) + RangeDeltas(rs[|rs| - 1], b)
  }

  lemma RangeDeltasCount(r: RawRange, c: nat, b: Boundary)
    ensures multiset(RangeDeltas(r, b))[(c, 1)] == if r.cat == c && Finite(r.lo) == b then 1 else 0
    ensures multiset(RangeDeltas(r, b))[(c, -1)] == if r.cat == c && EndExclusive(r.hi) == b then 1 else 0
    ensures forall d :: d in RangeDeltas(r, b) ==> d.1 == 1 || d.1 == -1
  {
  }

  lemma {:induction false} DeltasCount(rs: seq<RawRange>, c: nat, b: Boundary)
    ensures multiset(DeltasAt(rs, b))[(c, 1)] == Starts(rs, c, b)
    ensures multiset(DeltasAt(rs, b))[(c, -1)] == Ends(rs, c, b)
    ensures forall d :: d in DeltasAt(rs, b) ==> d.1 == 1 || d.1 == -1
  {
    if rs != [] {
      var x, y := DeltasAt(rs[..|rs| - 1], b), RangeDeltas(rs[|rs| - 1], b);
      DeltasCount(rs[..|rs| - 1], c, b);
      RangeDeltasCount(rs[|rs| - 1], c, b);
      assert multiset(x + y) == multiset(x) + multiset(y);
    }
  }

  lemma {:induction false} CoverCountIsMembership(rs: seq<RawRange>, c: nat, p: int)
    ensures CoverCount(rs, c, p) > 0 <==> c in CatsAt(rs, p)
  {
    if rs != [] {
      var r := rs[|rs| - 1];
      CoverCountIsMembership(rs[..|rs| - 1], c, p);
      assert rs == rs[..|rs| - 1] + [r];
      assert CatsAt(rs, p) == CatsAt(rs[..|rs| - 1], p) + (if r.lo <= p <= r.hi then {r.cat} else {});
    }
  }

  /** No boundary of `rs` lies strictly between `p` and `k`. */
  ghost predicate Quiet(rs: seq<RawRange>, p: int, k: int) {
    forall r :: r in rs ==> !(p < r.lo < k) && !(p < r.hi + 1 < k)
  }

  /** From one boundary to the next the cover count changes by exactly the events
      there, and never more ranges close than are open: no counter goes below
      zero, in whatever order the deltas at the boundary are applied. */
  lemma {:induction false} CountStep(rs: seq<RawRange>, words: nat, c: nat, p: int, b: Boundary)
    requires WellFormed(rs, words) && -1 <= p < Key(b) && Quiet(rs, p, Key(b))
    requires b.Finite? ==> b.pos <= U128_MAX
    ensures CoverCount(rs, c, Key(b)) == CoverCount(rs, c, p) + Starts(rs, c, b) - Ends(rs, c, b)
    ensures Ends(rs, c, b) <= CoverCount(rs, c, p)
  {
    if rs != [] {
      var r := rs[|rs| - 1];
      assert r in rs;
      CountStep(rs[..|rs| - 1], words, c, p, b);
    }
  }

  lemma QuietIsConstant(rs: seq<RawRange>, p: int, q: int, k: int)
    requires Quiet(rs, p, k) && p <= q < k
    ensures CatsAt(rs, q) == CatsAt(rs, p)
  {
    forall r | r in rs ensures r.lo <= q <= r.hi <==> r.lo <= p <= r.hi {}
  }

  // ----- the sweep

  lemma BeforeIsTotalOrder()
    ensures Orders.TotalOrder(Before)
  {
  }

  function Value(active: map<nat, int>, c: nat): int {
    if c in active then active[c] else 0
  }

  /** The mask of a set of ids, bit by bit. */
  method MaskOf(ids: set<nat>, words: nat) returns (mask: Mask)
    requires forall c :: c in ids ==> c < 64 * words
    ensures |mask| == words && ValidMask(mask) && Bits(mask) == ids
  {
    mask := Zeros(words);
    ZerosEmpty(words);
    var todo := ids;
    while todo != {}
      invariant todo <= ids && |mask| == words && ValidMask(mask) && Bits(mask) == ids - todo
      decreases todo
    {
      var c :| c in todo;
      SetBitAdds(mask, c);
      mask := SetBit(mask, c);
      todo := todo - {c};
    }
  }

  /** Apply one boundary's deltas to the open-range counters. */
  method ApplyDeltas(active: map<nat, int>, deltas: Deltas) returns (after: map<nat, int>)
    requires forall c :: c in active ==> active[c] > 0
    requires forall d :: d in deltas ==> d.1 == 1 || d.1 == -1
    requires forall c: nat :: multiset(deltas)[(c, -1)] <= Value(active, c)
    ensures forall c :: c in after ==> after[c] > 0
    ensures forall c: nat :: Value(after, c) == Value(active, c) + multiset(deltas)[(c, 1)] - multiset(deltas)[(c, -1)]
  {
    after := active;
    for j := 0 to |deltas|
      invariant forall c :: c in after ==> after[c] > 0
      invariant Applied(active, deltas, j, after)
    {
      var (cat, delta) := deltas[j];
      AppliedStep(active, deltas, j, after);
      var counter := Value(after, cat) + delta;
      after := if counter <= 0 then after - {cat} else after[cat := counter];
    }
    assert deltas[..|deltas|] == deltas;
  }

  /** The counters once the first `j` deltas are in. */
  ghost predicate Applied(active: map<nat, int>, deltas: Deltas, j: nat, after: map<nat, int>)
    requires j <= |deltas|
  {
    forall c: nat ::
      Value(after, c) == Value(active, c) + multiset(deltas[..j])[(c, 1)] - multiset(deltas[..j])[(c, -1)]
  }

  /** No counter goes negative, whatever the order. */
  lemma AppliedStep(active: map<nat, int>, deltas: Deltas, j: nat, after: map<nat, int>)
    requires j < |deltas| && (deltas[j].1 == 1 || deltas[j].1 == -1) && Applied(active, deltas, j, after)
    requires forall c :: c in after ==> after[c] > 0
    requires forall c: nat :: multiset(deltas)[(c, -1)] <= Value(active, c)
    ensures var counter := Value(after, deltas[j].0) + deltas[j].1;
            && counter >= 0
            && Applied(active, deltas, j + 1,
                       if counter <= 0 then after - {deltas[j].0} else after[deltas[j].0 := counter])
  {
    assert deltas[..j + 1] == deltas[..j] + [deltas[j]];
    assert deltas == deltas[..j + 1] + deltas[j + 1..];
    assert multiset(deltas[..j + 1])[(deltas[j].0, -1)] <= multiset(deltas)[(deltas[j].0, -1)];
  }

  function Entry(events: map<Boundary, Deltas>, b: Boundary): Deltas {
    if b in events then events[b] else []
  }

  /** `events.entry(b).or_default().push(d)` */
  function Push(events: map<Boundary, Deltas>, b: Boundary, d: (nat, int)): map<Boundary, Deltas> {
    events[b := Entry(events, b) + [d]]
  }

  ghost predicate Records(events: map<Boundary, Deltas>, rs: seq<RawRange>) {
    && (forall b :: b in events <==> IsBoundary(rs, b))
    && (forall b :: Entry(events, b) == DeltasAt(rs, b))
  }

  lemma RecordsStep(events: map<Boundary, Deltas>, rs: seq<RawRange>, r: RawRange)
    requires Records(events, rs)
    ensures Records(Push(Push(events, Finite(r.lo), (r.cat, 1)), EndExclusive(r.hi), (r.cat, -1)), rs + [r])
  {
    var next := Push(Push(events, Finite(r.lo), (r.cat, 1)), EndExclusive(r.hi), (r.cat, -1));
    forall b ensures Entry(next, b) == DeltasAt(rs + [r], b) && (b in next <==> IsBoundary(rs + [r], b)) {
      PushEntry(events, r, b);
      DeltasSnoc(rs, r, b);
      assert Entry(events, b) == DeltasAt(rs, b);
    }
  }

  lemma PushEntry(events: map<Boundary, Deltas>, r: RawRange, b: Boundary)
    ensures var next := Push(Push(events, Finite(r.lo), (r.cat, 1)), EndExclusive(r.hi), (r.cat, -1));
            && Entry(next, b) == Entry(events, b) + RangeDeltas(r, b)
            && (b in next <==> b in events || b == Finite(r.lo) || b == EndExclusive(r.hi))
  {
  }

  lemma DeltasSnoc(rs: seq<RawRange>, r: RawRange, b: Boundary)
    ensures DeltasAt(rs + [r], b) == DeltasAt(rs, b) + RangeDeltas(r, b)
    ensures IsBoundary(rs + [r], b) <==> IsBoundary(rs, b) || b == Finite(r.lo) || b == EndExclusive(r.hi)
  {
    assert (rs + [r])[..|rs|] == rs;
    assert r in rs + [r] && forall x :: x in rs ==> x in rs + [r];
  }

  /** All boundaries with the deltas pushed at each. */
  method CollectEvents(ranges: seq<RawRange>) returns (events: map<Boundary, Deltas>)
    ensures Records(events, ranges)
  {
    events := map[];
    for k := 0 to |ranges|
      invariant Records(events, ranges[..k])
    {
      var r := ranges[k];
      assert ranges[..k + 1] == ranges[..k] + [r];
      RecordsStep(events, ranges[..k], r);
      events := Push(Push(events, Finite(r.lo), (r.cat, 1)), EndExclusive(r.hi), (r.cat, -1));
    }
    assert ranges[..|ranges|] == ranges;
  }

  /** What `out` must be once every position below `upto` is settled. */
  ghost predicate Settled(out: seq<Segment>, ranges: seq<RawRange>, words: nat, upto: int) {
    && Canonical(out, words)
    && (forall i :: 0 <= i < |out| ==> out[i].hi < upto)
    && (forall p: nat :: p < upto ==> CatsIn(out, p) == CatsAt(ranges, p))
  }

  /** Append the segment `[from, to]`, or extend the last one when it touches and
      has the same mask. */
  function PushSegment(out: seq<Segment>, from: nat, to: nat, mask: Mask): seq<Segment> {
    if out != [] && out[|out| - 1].mask == mask && out[|out| - 1].hi < U128_MAX && out[|out| - 1].hi + 1 == from
    then out[|out| - 1 := out[|out| - 1].(hi := to)]
    else out + [Segment(from, to, mask)]
  }

  lemma SameBelow(out: seq<Segment>, out': seq<Segment>, from: nat, p: nat)
    requires p < from && |out| <= |out'|
    requires forall i :: 0 <= i < |out| ==> out'[i].lo == out[i].lo && out'[i].mask == out[i].mask
    requires forall i :: 0 <= i < |out| ==> (p <= out'[i].hi <==> p <= out[i].hi)
    requires forall i :: |out| <= i < |out'| ==> from <= out'[i].lo
    ensures CatsIn(out', p) == CatsIn(out, p)
  {
    forall c | c in CatsIn(out, p) ensures c in CatsIn(out', p) {
      var i :| 0 <= i < |out| && out[i].lo <= p <= out[i].hi && c in Bits(out[i].mask);
      assert out'[i].lo <= p <= out'[i].hi && c in Bits(out'[i].mask);
    }
    forall c | c in CatsIn(out', p) ensures c in CatsIn(out, p) {
      var i :| 0 <= i < |out'| && out'[i].lo <= p <= out'[i].hi && c in Bits(out'[i].mask);
      assert out[i].lo <= p <= out[i].hi && c in Bits(out[i].mask);
    }
  }

  lemma PushCanonical(out: seq<Segment>, words: nat, from: nat, to: nat, mask: Mask)
    requires Canonical(out, words) && from <= to && from <= U128_MAX
    requires forall i :: 0 <= i < |out| ==> out[i].hi < from
    requires |mask| == words && ValidMask(mask) && Bits(mask) != {}
    ensures var out' := PushSegment(out, from, to, mask);
            Canonical(out', words) && forall i :: 0 <= i < |out'| ==> out'[i].hi <= to
  {
    if out != [] && out[|out| - 1].mask == mask && out[|out| - 1].hi < U128_MAX && out[|out| - 1].hi + 1 == from {
      GrownCanonical(out, words, to);
    } else {
      AppendedCanonical(out, words, Segment(from, to, mask));
    }
  }

  /** The last segment may end later. */
  lemma GrownCanonical(out: seq<Segment>, words: nat, to: nat)
    requires Canonical(out, words) && out != [] && out[|out| - 1].hi <= to
    ensures var out' := out[|out| - 1 := out[|out| - 1].(hi := to)];
            Canonical(out', words) && forall i :: 0 <= i < |out'| ==> out'[i].hi <= to
  {
    var n := |out| - 1;
    forall i | 0 <= i < n ensures out[i].hi < out[n].lo {}
  }

  /** A later segment may follow, unless it continues the last with the same mask. */
  lemma AppendedCanonical(out: seq<Segment>, words: nat, s: Segment)
    requires Canonical(out, words) && s.lo <= s.hi && |s.mask| == words && ValidMask(s.mask) && Bits(s.mask) != {}
    requires forall i :: 0 <= i < |out| ==> out[i].hi < s.lo
    requires out != [] && out[|out| - 1].hi + 1 == s.lo ==> out[|out| - 1].mask != s.mask
    ensures Canonical(out + [s], words) && forall i :: 0 <= i < |out + [s]| ==> (out + [s])[i].hi <= s.hi
  {
  }

  lemma PushCats(out: seq<Segment>, words: nat, from: nat, to: nat, mask: Mask, p: nat)
    requires Canonical(out, words) && from <= to
    requires forall i :: 0 <= i < |out| ==> out[i].hi < from
    ensures CatsIn(PushSegment(out, from, to, mask), p) ==
            if p < from then CatsIn(out, p) else if p <= to then Bits(mask) else {}
  {
    var out' := PushSegment(out, from, to, mask);
    var n := |out'| - 1;
    if p < from {
      SameBelow(out, out', from, p);
    } else {
      assert forall i :: 0 <= i < n ==> out'[i].hi < p;
      assert out'[n].lo <= from && out'[n].hi == to && out'[n].mask == mask;
      if p <= to {
        forall c | c in Bits(mask) ensures c in CatsIn(out', p) {
          assert out'[n].lo <= p <= out'[n].hi && c in Bits(out'[n].mask);
        }
      }
    }
  }

  lemma PushKeepsSettled(out: seq<Segment>, ranges: seq<RawRange>, words: nat, from: nat, to: nat, mask: Mask)
    requires Settled(out, ranges, words, from) && from <= to <= U128_MAX
    requires |mask| == words && ValidMask(mask) && Bits(mask) != {}
    requires forall p :: from <= p <= to ==> CatsAt(ranges, p) == Bits(mask)
    ensures Settled(PushSegment(out, from, to, mask), ranges, words, to + 1)
  {
    PushCanonical(out, words, from, to, mask);
    var out' := PushSegment(out, from, to, mask);
    forall p: nat | p < to + 1 ensures CatsIn(out', p) == CatsAt(ranges, p) {
      PushCats(out, words, from, to, mask, p);
    }
  }

  lemma SkipKeepsSettled(out: seq<Segment>, ranges: seq<RawRange>, words: nat, from: int, to: int)
    requires -1 <= from && Settled(out, ranges, words, from)
    requires from <= to && forall p: nat :: from <= p < to ==> CatsAt(ranges, p) == {}
    ensures Settled(out, ranges, words, to)
  {
    forall p: nat | p < to ensures CatsIn(out, p) == CatsAt(ranges, p) {
      if p >= from {
        forall i | 0 <= i < |out| ensures out[i].hi < p {}
      }
    }
  }

  ghost predicate AllBoundaries(order: seq<Boundary>, ranges: seq<RawRange>) {
    Orders.Increasing(order, Before) && forall b :: b in order <==> IsBoundary(ranges, b)
  }

  lemma BoundaryKeys(ranges: seq<RawRange>, words: nat, b: Boundary)
    requires WellFormed(ranges, words) && IsBoundary(ranges, b)
    ensures Key(b) <= U128_MAX + 1 && (b.Finite? ==> Key(b) <= U128_MAX)
  {
  }

  lemma NextBoundary(ranges: seq<RawRange>, words: nat, order: seq<Boundary>, i: nat)
    requires WellFormed(ranges, words) && AllBoundaries(order, ranges) && i < |order|
    ensures var at := if i == 0 then -1 else Key(order[i - 1]);
            at < Key(order[i]) <= U128_MAX + 1 && Quiet(ranges, at, Key(order[i]))
    ensures order[i].Finite? ==> order[i].pos <= U128_MAX
  {
    forall j | 0 <= j < |order| ensures order[j].Finite? ==> order[j].pos <= U128_MAX {
      assert order[j] in order;
      BoundaryKeys(ranges, words, order[j]);
    }
    var at := if i == 0 then -1 else Key(order[i - 1]);
    forall b | IsBoundary(ranges, b) ensures Key(b) <= at || Key(b) >= Key(order[i]) {
      var j :| 0 <= j < |order| && order[j] == b;
      assert j < i - 1 ==> Before(order[j], order[i - 1]);
      assert j > i ==> Before(order[i], order[j]);
    }
    forall r | r in ranges ensures !(at < r.lo < Key(order[i])) && !(at < r.hi + 1 < Key(order[i])) {
      assert IsBoundary(ranges, Finite(r.lo)) && IsBoundary(ranges, EndExclusive(r.hi));
    }
  }

  lemma NothingBeyond(ranges: seq<RawRange>, words: nat, order: seq<Boundary>)
    requires WellFormed(ranges, words) && AllBoundaries(order, ranges) && order != []
    ensures forall p :: p >= Key(order[|order| - 1]) ==> CatsAt(ranges, p) == {}
  {
    forall r | r in ranges ensures r.hi < Key(order[|order| - 1]) {
      var b := EndExclusive(r.hi);
      assert IsBoundary(ranges, b);
      var j :| 0 <= j < |order| && order[j] == b;
      var n := |order| - 1;
      assert IsBoundary(ranges, order[n]);
      BoundaryKeys(ranges, words, order[n]);
      assert j < n ==> Before(order[j], order[n]);
    }
  }

  /** `active` holds the number of open ranges of each category at `at`. */
  ghost predicate Tracks(active: map<nat, int>, ranges: seq<RawRange>, at: int) {
    && (forall c :: c in active ==> active[c] > 0)
    && (forall c: nat :: Value(active, c) == CoverCount(ranges, c, at))
  }

  lemma TracksCats(active: map<nat, int>, ranges: seq<RawRange>, at: int)
    requires Tracks(active, ranges, at)
    ensures active.Keys == CatsAt(ranges, at)
  {
    forall c: nat ensures c in active <==> c in CatsAt(ranges, at) {
      CoverCountIsMembership(ranges, c, at);
      assert Value(active, c) == CoverCount(ranges, c, at);
    }
  }

  lemma TracksStart(ranges: seq<RawRange>)
    ensures Tracks(map[], ranges, -1)
  {
    forall c: nat ensures CoverCount(ranges, c, -1) == 0 { CoverCountIsMembership(ranges, c, -1); }
  }

  /** The events at `b` take the counters from `at` to `Key(b)`. */
  lemma TracksStep(active: map<nat, int>, ranges: seq<RawRange>, words: nat, at: int, b: Boundary)
    requires WellFormed(ranges, words) && Tracks(active, ranges, at)
    requires -1 <= at < Key(b) && Quiet(ranges, at, Key(b)) && (b.Finite? ==> b.pos <= U128_MAX)
    ensures forall d :: d in DeltasAt(ranges, b) ==> d.1 == 1 || d.1 == -1
    ensures forall c: nat :: multiset(DeltasAt(ranges, b))[(c, -1)] <= Value(active, c)
    ensures forall c: nat :: CoverCount(ranges, c, Key(b)) ==
                             Value(active, c) + multiset(DeltasAt(ranges, b))[(c, 1)] -
                             multiset(DeltasAt(ranges, b))[(c, -1)]
  {
    DeltasCount(ranges, 0, b);
    var ds := multiset(DeltasAt(ranges, b));
    forall c: nat
      ensures ds[(c, -1)] <= Value(active, c)
      ensures CoverCount(ranges, c, Key(b)) == Value(active, c) + ds[(c, 1)] - ds[(c, -1)]
    {
      CountStep(ranges, words, c, at, b);
      DeltasCount(ranges, c, b);
      assert Value(active, c) == CoverCount(ranges, c, at);
    }
  }

  /** Close the segment between two neighbouring boundaries, if any range is open. */
  method Emit(out: seq<Segment>, ghost ranges: seq<RawRange>, words: nat, prev: Boundary, boundary: Boundary,
              active: map<nat, int>)
      returns (out': seq<Segment>)
    requires WellFormed(ranges, words) && Settled(out, ranges, words, Key(prev))
    requires Key(prev) < Key(boundary) && Quiet(ranges, Key(prev), Key(boundary))
    requires boundary.Finite? ==> boundary.pos <= U128_MAX
    requires active.Keys == CatsAt(ranges, Key(prev))
    ensures Settled(out', ranges, words, Key(boundary))
  {
    forall p | Key(prev) <= p < Key(boundary) ensures CatsAt(ranges, p) == active.Keys {
      QuietIsConstant(ranges, Key(prev), p, Key(boundary));
    }
    if active.Keys != {} && prev.Finite? {
      var segEnd := if boundary.Finite? then boundary.pos - 1 else U128_MAX;
      var mask := MaskOf(active.Keys, words);
      PushKeepsSettled(out, ranges, words, prev.pos, segEnd, mask);
      out' := PushSegment(out, prev.pos, segEnd, mask);
    } else {
      SkipKeepsSettled(out, ranges, words, Key(prev), Key(boundary));
      out' := out;
    }
  }

  ghost function PositionBefore(order: seq<Boundary>, i: nat): int
    requires i <= |order|
  {
    if i == 0 then -1 else Key(order[i - 1])
  }

  ghost predicate Exact(out: seq<Segment>, ranges: seq<RawRange>) {
    forall p: nat :: CatsIn(out, p) == CatsAt(ranges, p)
  }

  lemma NoRanges()
    ensures Exact([], [])
  {
  }

  /** Nothing lies below the first boundary. */
  lemma StartsSettled(ranges: seq<RawRange>, words: nat, order: seq<Boundary>)
    requires WellFormed(ranges, words) && AllBoundaries(order, ranges) && order != []
    ensures Settled([], ranges, words, Key(order[0]))
  {
    NextBoundary(ranges, words, order, 0);
    forall p: nat | p < Key(order[0]) ensures CatsAt(ranges, p) == {} {
      QuietIsConstant(ranges, -1, p, Key(order[0]));
    }
  }

  /** Nothing lies from the last boundary on. */
  lemma EndsExact(out: seq<Segment>, ranges: seq<RawRange>, words: nat, order: seq<Boundary>)
    requires WellFormed(ranges, words) && AllBoundaries(order, ranges) && order != []
    requires Settled(out, ranges, words, Key(order[|order| - 1]))
    ensures Canonical(out, words) && Exact(out, ranges)
    ensures forall i :: 0 <= i < |out| ==> out[i].hi <= U128_MAX
  {
    NextBoundary(ranges, words, order, |order| - 1);
    NothingBeyond(ranges, words, order);
    var at := Key(order[|order| - 1]);
    forall p: nat ensures CatsIn(out, p) == CatsAt(ranges, p) {
      SkipKeepsSettled(out, ranges, words, at, if p < at then at else p + 1);
    }
  }

  /** The counters after the `i`-th boundary. */
  method Advance(active: map<nat, int>, ghost ranges: seq<RawRange>, ghost words: nat, ghost order: seq<Boundary>,
                 ghost i: nat, deltas: Deltas)
      returns (after: map<nat, int>)
    requires WellFormed(ranges, words) && AllBoundaries(order, ranges) && i < |order|
    requires Tracks(active, ranges, PositionBefore(order, i)) && deltas == DeltasAt(ranges, order[i])
    ensures Tracks(after, ranges, Key(order[i]))
  {
    NextBoundary(ranges, words, order, i);
    TracksStep(active, ranges, words, PositionBefore(order, i), order[i]);
    after := ApplyDeltas(active, deltas);
  }

  /** The state before the `i`-th boundary. */
  ghost predicate Swept(out: seq<Segment>, active: map<nat, int>, ranges: seq<RawRange>, words: nat,
                        order: seq<Boundary>, i: nat)
    requires i <= |order| && order != []
  {
    && Tracks(active, ranges, PositionBefore(order, i))
    && Settled(out, ranges, words, if i == 0 then Key(order[0]) else Key(order[i - 1]))
  }

  lemma StartsSwept(ranges: seq<RawRange>, words: nat, order: seq<Boundary>)
    requires WellFormed(ranges, words) && AllBoundaries(order, ranges) && order != []
    ensures Swept([], map[], ranges, words, order, 0)
  {
    StartsSettled(ranges, words, order);
    TracksStart(ranges);
  }

  /** One boundary: close the segment before it, then apply its deltas. */
  method Cross(out: seq<Segment>, active: map<nat, int>, ghost ranges: seq<RawRange>, words: nat, order: seq<Boundary>,
               i: nat, deltas: Deltas)
      returns (out': seq<Segment>, active': map<nat, int>)
    requires WellFormed(ranges, words) && AllBoundaries(order, ranges) && i < |order|
    requires Swept(out, active, ranges, words, order, i) && deltas == DeltasAt(ranges, order[i])
    ensures Swept(out', active', ranges, words, order, i + 1)
  {
    NextBoundary(ranges, words, order, i);
    TracksCats(active, ranges, PositionBefore(order, i));
    out' := out;
    if i > 0 {
      out' := Emit(out, ranges, words, order[i - 1], order[i], active);
    }
    active' := Advance(active, ranges, words, order, i, deltas);
  }

  /** The boundaries in ascending order, as the map is iterated. */
  method OrderOfEvents(events: map<Boundary, Deltas>, ghost ranges: seq<RawRange>) returns (order: seq<Boundary>)
    requires Records(events, ranges) && ranges != []
    ensures AllBoundaries(order, ranges) && order != []
    ensures forall i :: 0 <= i < |order| ==> Entry(events, order[i]) == DeltasAt(ranges, order[i])
  {
    BeforeIsTotalOrder();
    order := Orders.SortedSeq(events.Keys, Before);
    assert IsBoundary(ranges, Finite(ranges[0].lo));
  }

  method CrossAll(events: map<Boundary, Deltas>, ghost ranges: seq<RawRange>, words: nat, order: seq<Boundary>)
      returns (out: seq<Segment>)
    requires WellFormed(ranges, words) && AllBoundaries(order, ranges) && order != []
    requires forall i :: 0 <= i < |order| ==> Entry(events, order[i]) == DeltasAt(ranges, order[i])
    ensures Settled(out, ranges, words, Key(order[|order| - 1]))
  {
    StartsSwept(ranges, words, order);
    var active: map<nat, int> := map[];
    out := [];
    for i := 0 to |order|
      invariant Swept(out, active, ranges, words, order, i)
    {
      out, active := Cross(out, active, ranges, words, order, i, Entry(events, order[i]));
    }
  }

  /** For every list of ranges: canonical segments whose categories at every
      position are those of the ranges covering it. */
  method Sweep(ranges: seq<RawRange>, words: nat) returns (out: seq<Segment>)
    requires WellFormed(ranges, words)
    ensures Canonical(out, words)
    ensures forall i :: 0 <= i < |out| ==> out[i].hi <= U128_MAX
    ensures forall p: nat :: CatsIn(out, p) == CatsAt(ranges, p)
  {
    if ranges == [] {
      NoRanges();
      out := [];
    } else {
      var events := CollectEvents(ranges);
      var order := OrderOfEvents(events, ranges);
      out := CrossAll(events, ranges, words, order);
      EndsExact(out, ranges, words, order);
    }
    assert Exact(out, ranges);
  }
}
