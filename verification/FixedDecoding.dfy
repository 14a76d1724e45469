/** The decoders of the fixed-width sections: category sets and address ranges. */
module FixedDecoding {
  import opened Wrappers
  import opened Words
  import opened Text
  import opened BookFormat
  import opened Flattening
  import opened LittleEndian
  import opened Sections
  import opened StringDecoding

  // ----- category sets

  lemma CatsetSlices(words: nat, n: nat, catsets: seq<nat>)
    ensures var p := CatsetPayload(words, n, catsets);
            && |p| == 8 + 8 * |catsets| && p[..4] == LE(words, 4) && p[4..8] == LE(n, 4)
            && p[8..] == Flatten(WordRows(catsets))
  {
    FlattenLength(WordRows(catsets), 8);
  }

  lemma WordRowsInjective(xs: seq<nat>, ys: seq<nat>)
    requires |xs| == |ys| && ValidMask(xs) && ValidMask(ys) && Flatten(WordRows(xs)) == Flatten(WordRows(ys))
    ensures xs == ys
  {
    Widths();
    forall i | 0 <= i < |xs| ensures xs[i] == ys[i] {
      FlattenRow(WordRows(xs), 8, i);
      FlattenRow(WordRows(ys), 8, i);
      LEInjective(xs[i], ys[i], 8);
    }
  }

  /** Two leading fields and the rest determine a layout. */
  lemma CatsetFields(payload: Bytes, words: nat, n: nat, catsets: seq<nat>, words': nat, n': nat)
    requires CatsetLayout(payload, words, n, catsets) && words' < U32_LIMIT && n' < U32_LIMIT
    requires |payload| >= 8 && payload[..4] == LE(words', 4) && payload[4..8] == LE(n', 4)
    ensures words == words' && n == n' && |payload| == 8 + 8 * |catsets|
  {
    Widths();
    CatsetSlices(words, n, catsets);
    LEInjective(words, words', 4);
    LEInjective(n, n', 4);
  }

  lemma CatsetUnique(payload: Bytes, w: nat, xs: seq<nat>, v: nat, ys: seq<nat>)
    requires CatsetSection(payload, w, xs) && CatsetSection(payload, v, ys)
    ensures w == v && xs == ys
  {
    var m: nat :| CatsetLayout(payload, w, m, xs);
    var n: nat :| CatsetLayout(payload, v, n, ys);
    CatsetSlices(w, m, xs);
    CatsetSlices(v, n, ys);
    CatsetFields(payload, w, m, xs, v, n);
    WordRowsInjective(xs, ys);
  }

  lemma WordRowsSnoc(ws: seq<nat>, w: nat)
    ensures Flatten(WordRows(ws + [w])) == Flatten(WordRows(ws)) + LE(w, 8)
  {
    assert WordRows(ws + [w]) == WordRows(ws) + [LE(w, 8)];
    FlattenSnoc(WordRows(ws), LE(w, 8));
  }

  lemma SliceGrows(buf: Bytes, start: nat, from: nat, to: nat)
    requires start <= from <= to <= |buf|
    ensures buf[start..to] == buf[start..from] + buf[from..to]
  {
  }

  /** `count` words of 64 bits. */
  method ReadWords(cur: Cursor, count: nat) returns (ws: seq<nat>)
    requires cur.Valid() && cur.pos + 8 * count <= |cur.buf|
    modifies cur
    ensures cur.Valid() && cur.pos == old(cur.pos) + 8 * count
    ensures |ws| == count && ValidMask(ws) && cur.buf[old(cur.pos)..cur.pos] == Flatten(WordRows(ws))
  {
    Widths();
    ws := [];
    ghost var start := cur.pos;
    for i := 0 to count
      invariant cur.Valid() && cur.pos == start + 8 * i
      invariant |ws| == i && ValidMask(ws) && cur.buf[start..cur.pos] == Flatten(WordRows(ws))
    {
      ghost var from := cur.pos;
      var w := cur.Uint(8);
      SliceGrows(cur.buf, start, from, cur.pos);
      WordRowsSnoc(ws, w.value);
      ws := ws + [w.value];
    }
  }

  lemma CatsetAssembled(payload: Bytes, words: nat, n: nat, ws: seq<nat>)
    requires |payload| >= 8 && payload[..4] == LE(words, 4) && payload[4..8] == LE(n, 4)
    requires payload[8..] == Flatten(WordRows(ws)) && ValidMask(ws)
    requires words < U32_LIMIT && n < U32_LIMIT && TotalWords(words, n) == |ws| <= MAX_ENTRIES
    ensures CatsetSection(payload, words, ws)
  {
    assert payload == payload[..4] + payload[4..8] + payload[8..];
    assert CatsetLayout(payload, words, n, ws);
  }

  ghost predicate CatsetsAffordable(payload: Bytes, w: nat, xs: seq<nat>, heap: nat) {
    CatsetSection(payload, w, xs) && heap + |xs| * 8 <= MAX_DECODED_HEAP_BYTES
  }

  /** The two leading fields. */
  method ReadCounts(payload: Bytes) returns (cur: Cursor, r: Option<(nat, nat)>)
    ensures fresh(cur) && cur.buf == payload && cur.Valid()
    ensures r.None? <==> |payload| < 8
    ensures r.Some? ==>
              && cur.pos == 8 && r.value.0 < U32_LIMIT && r.value.1 < U32_LIMIT
              && payload[..4] == LE(r.value.0, 4) && payload[4..8] == LE(r.value.1, 4)
  {
    Widths();
    r := None;
    cur := new Cursor(payload);
    var words := cur.Uint(4);
    if words.None? { return; }
    var n := cur.Uint(4);
    if n.None? { return; }
    r := Some((words.value, n.value));
  }

  method DecodeCatsets(payload: Bytes, heap: nat) returns (r: Option<(nat, seq<nat>)>, heap': nat)
    ensures r.Some? ==>
              && CatsetsAffordable(payload, r.value.0, r.value.1, heap)
              && heap' == heap + |r.value.1| * 8
    ensures r.None? ==> forall w, xs :: !CatsetsAffordable(payload, w, xs, heap)
  {
    r, heap' := None, heap;
    ghost var good := exists w, xs :: CatsetsAffordable(payload, w, xs, heap);
    ghost var w: nat, m: nat, xs: seq<nat> := 0, 0, [];
    if good {
      w, xs :| CatsetsAffordable(payload, w, xs, heap);
      m :| CatsetLayout(payload, w, m, xs);
      CatsetSlices(w, m, xs);
    }
    var cur, counts := ReadCounts(payload);
    if counts.None? { return; }
    var (words, n) := counts.value;
    var total := TotalWords(words, n);
    if good { CatsetFields(payload, w, m, xs, words, n); }
    if total > MAX_ENTRIES || |payload| != 8 + 8 * total { return; }
    var charged := Charge(heap, total * 8);
    if charged.None? { return; }
    var ws := ReadWords(cur, total);
    CatsetAssembled(payload, words, n, ws);
    r, heap' := Some((words, ws)), charged.value;
  }

  // ----- address ranges

  lemma RangeSlices(rs: seq<Range>, v6: bool)
    ensures var p := RangePayload(rs, v6);
            |p| == 4 + RangeBytes(|rs|, v6) && p[..4] == LE(|rs|, 4) && p[4..] == Flatten(RangeRows(rs, v6))
  {
    FlattenLength(RangeRows(rs, v6), RangeBytes(1, v6));
  }

  lemma RangeRowInjective(r: Range, s: Range, v6: bool)
    requires RangeRow(r, v6) == RangeRow(s, v6) && TypedRanges([r, s], AddressLimit(v6))
    ensures r == s
  {
    Widths();
    assert r in [r, s] && s in [r, s];
    var w := Width(v6);
    var x, y := RangeRow(r, v6), RangeRow(s, v6);
    assert x[..w] == LE(r.lo, w) && y[..w] == LE(s.lo, w);
    assert x[w..2 * w] == LE(r.hi, w) && y[w..2 * w] == LE(s.hi, w);
    assert x[2 * w..] == LE(r.catset, 4) && y[2 * w..] == LE(s.catset, 4);
    LEInjective(r.lo, s.lo, w);
    LEInjective(r.hi, s.hi, w);
    LEInjective(r.catset, s.catset, 4);
  }

  lemma RangeUnique(payload: Bytes, rs: seq<Range>, ss: seq<Range>, v6: bool)
    requires RangeSection(payload, rs, v6) && RangeSection(payload, ss, v6)
    ensures rs == ss
  {
    Widths();
    RangeSlices(rs, v6);
    RangeSlices(ss, v6);
    LEInjective(|rs|, |ss|, 4);
    forall i | 0 <= i < |rs| ensures rs[i] == ss[i] { SameRange(rs, ss, v6, i); }
  }

  lemma SameRange(rs: seq<Range>, ss: seq<Range>, v6: bool, i: nat)
    requires i < |rs| == |ss| && Flatten(RangeRows(rs, v6)) == Flatten(RangeRows(ss, v6))
    requires TypedRanges(rs, AddressLimit(v6)) && TypedRanges(ss, AddressLimit(v6))
    ensures rs[i] == ss[i]
  {
    FlattenRow(RangeRows(rs, v6), RangeBytes(1, v6), i);
    FlattenRow(RangeRows(ss, v6), RangeBytes(1, v6), i);
    RangeRowInjective(rs[i], ss[i], v6);
  }

  method ReadRange(cur: Cursor, v6: bool) returns (r: Range)
    requires cur.Valid() && cur.pos + RangeBytes(1, v6) <= |cur.buf|
    modifies cur
    ensures cur.Valid() && cur.pos == old(cur.pos) + RangeBytes(1, v6)
    ensures TypedRanges([r], AddressLimit(v6)) && cur.buf[old(cur.pos)..cur.pos] == RangeRow(r, v6)
  {
    Widths();
    var lo := cur.Uint(Width(v6));
    var hi := cur.Uint(Width(v6));
    var c := cur.Uint(4);
    r := Range(lo.value, hi.value, c.value);
    RowOfFields(cur.buf, old(cur.pos), Width(v6), r, v6);
  }

  lemma RowOfFields(buf: Bytes, pos: nat, w: nat, r: Range, v6: bool)
    requires w == Width(v6) && pos + 2 * w + 4 <= |buf|
    requires buf[pos..pos + w] == LE(r.lo, w) && buf[pos + w..pos + 2 * w] == LE(r.hi, w)
    requires buf[pos + 2 * w..pos + 2 * w + 4] == LE(r.catset, 4)
    ensures buf[pos..pos + 2 * w + 4] == RangeRow(r, v6)
  {
    SliceGrows(buf, pos, pos + w, pos + 2 * w);
    SliceGrows(buf, pos, pos + 2 * w, pos + 2 * w + 4);
  }

  lemma RangeRowsSnoc(rs: seq<Range>, r: Range, v6: bool)
    ensures Flatten(RangeRows(rs + [r], v6)) == Flatten(RangeRows(rs, v6)) + RangeRow(r, v6)
  {
    assert RangeRows(rs + [r], v6) == RangeRows(rs, v6) + [RangeRow(r, v6)];
    FlattenSnoc(RangeRows(rs, v6), RangeRow(r, v6));
  }

  method ReadRanges(cur: Cursor, count: nat, v6: bool) returns (rs: seq<Range>)
    requires cur.Valid() && cur.pos + RangeBytes(count, v6) == |cur.buf|
    modifies cur
    ensures |rs| == count && TypedRanges(rs, AddressLimit(v6)) && cur.pos == |cur.buf|
    ensures cur.buf[old(cur.pos)..cur.pos] == Flatten(RangeRows(rs, v6))
  {
    rs := [];
    ghost var start := cur.pos;
    for i := 0 to count
      invariant cur.Valid() && cur.pos == start + RangeBytes(i, v6)
      invariant |rs| == i && TypedRanges(rs, AddressLimit(v6)) && cur.buf[start..cur.pos] == Flatten(RangeRows(rs, v6))
    {
      ghost var from := cur.pos;
      var r := ReadRange(cur, v6);
      SliceGrows(cur.buf, start, from, cur.pos);
      RangeRowsSnoc(rs, r, v6);
      assert r in [r];
      rs := rs + [r];
    }
  }

  lemma RangeFields(payload: Bytes, rs: seq<Range>, v6: bool, n: nat)
    requires RangeSection(payload, rs, v6) && n < U32_LIMIT && |payload| >= 4 && payload[..4] == LE(n, 4)
    ensures |rs| == n && |payload| == 4 + RangeBytes(n, v6)
  {
    Widths();
    RangeSlices(rs, v6);
    LEInjective(|rs|, n, 4);
  }

  lemma RangesAssembled(payload: Bytes, rs: seq<Range>, v6: bool)
    requires |payload| >= 4 && payload[..4] == LE(|rs|, 4) && payload[4..] == Flatten(RangeRows(rs, v6))
    requires |rs| <= MAX_ENTRIES && TypedRanges(rs, AddressLimit(v6))
    ensures RangeSection(payload, rs, v6)
  {
    HeadAndRest(payload, LE(|rs|, 4), Flatten(RangeRows(rs, v6)));
  }

  lemma HeadAndRest(payload: Bytes, head: Bytes, rest: Bytes)
    requires |head| <= |payload| && payload[..|head|] == head && payload[|head|..] == rest
    ensures payload == head + rest
  {
  }

  /** Some ranges the payload encodes, within the remaining budget. */
  ghost predicate RangesAffordable(payload: Bytes, rs: seq<Range>, v6: bool, heap: nat) {
    RangeSection(payload, rs, v6) && heap + RangeHeap(|rs|, v6) <= MAX_DECODED_HEAP_BYTES
  }

  method DecodeRanges(payload: Bytes, v6: bool, heap: nat) returns (r: Option<seq<Range>>, heap': nat)
    ensures r.Some? ==> RangesAffordable(payload, r.value, v6, heap) && heap' == heap + RangeHeap(|r.value|, v6)
    ensures r.None? ==> forall rs :: !RangesAffordable(payload, rs, v6, heap)
  {
    r, heap' := None, heap;
    ghost var good := exists rs :: RangesAffordable(payload, rs, v6, heap);
    ghost var w: seq<Range> := [];
    if good {
      w :| RangesAffordable(payload, w, v6, heap);
      RangeSlices(w, v6);
    }
    var cur := new Cursor(payload);
    var count := cur.Uint(4);
    if count.None? { return; }
    var n := count.value;
    assert n < U32_LIMIT by { Widths(); }
    if good { RangeFields(payload, w, v6, n); }
    if n > MAX_ENTRIES || |payload| != 4 + RangeBytes(n, v6) { return; }
    var charged := Charge(heap, RangeHeap(n, v6));
    if charged.None? { return; }
    var rs := ReadRanges(cur, n, v6);
    RangesAssembled(payload, rs, v6);
    r, heap' := Some(rs), charged.value;
  }
}
