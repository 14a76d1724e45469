/** The bounds-checked cursor, and the decoder of string sections: it accepts a
    payload exactly when it is the canonical encoding of some entries. */
module StringDecoding {
  import opened Wrappers
  import opened Text
  import opened BookFormat
  import opened Flattening
  import opened LittleEndian
  import opened Sections

  class Cursor {
    const buf: Bytes
    var pos: nat

    ghost predicate Valid()
      reads this
    {
      pos <= |buf|
    }

    constructor (buf: Bytes)
      ensures this.buf == buf && pos == 0 && Valid()
    {
      this.buf := buf;
      pos := 0;
    }

    /** The next `n` bytes, or nothing and no movement. */
    method Take(n: nat) returns (r: Option<Bytes>)
      requires Valid()
      modifies this
      ensures Valid()
      ensures old(pos) + n <= |buf| ==> pos == old(pos) + n && r == Some(buf[old(pos)..pos])
      ensures old(pos) + n > |buf| ==> pos == old(pos) && r == None
    {
      if pos + n > |buf| { return None; }
      r := Some(buf[pos..pos + n]);
      pos := pos + n;
    }

    /** A little-endian integer of `k` bytes. */
    method Uint(k: nat) returns (r: Option<nat>)
      requires Valid()
      modifies this
      ensures Valid()
      ensures old(pos) + k <= |buf| ==>
                && pos == old(pos) + k && r.Some? && r.value < Pow256(k)
                && buf[old(pos)..pos] == LE(r.value, k)
      ensures old(pos) + k > |buf| ==> pos == old(pos) && r == None
    {
      var bs := Take(k);
      if bs.None? { return None; }
      WriteBack(bs.value);
      r := Some(FromLE(bs.value));
    }
  }

  /** Add a charge to the running heap budget. */
  method Charge(total: nat, bytes: nat) returns (r: Option<nat>)
    ensures r == if total + bytes <= MAX_DECODED_HEAP_BYTES then Some(total + bytes) else None
  {
    var t := total + bytes;
    return if t > MAX_DECODED_HEAP_BYTES then None else Some(t);
  }

  // ----- what the parts of a payload must be

  lemma LEInjective(m: nat, n: nat, k: nat)
    requires LE(m, k) == LE(n, k) && m < Pow256(k) && n < Pow256(k)
    ensures m == n
  {
    ReadBack(m, k);
    ReadBack(n, k);
  }

  /** The slices of a canonical payload. */
  lemma StringSlices(es: seq<StrEntry>)
    ensures var p, n := StringPayload(es), |es|;
            && |p| == 8 + 10 * n + |Pool(es)|
            && p[..4] == LE(n, 4)
            && p[4..4 + 10 * n] == Flatten(HeadRows(HeadsOf(es)))
            && p[4 + 10 * n..8 + 10 * n] == LE(|Pool(es)|, 4)
            && p[8 + 10 * n..] == Pool(es)
  {
    FlattenLength(HeadRows(HeadsOf(es)), 10);
  }

  lemma HeadRowInjective(g: Head, h: Head)
    requires HeadRow(g) == HeadRow(h)
    requires g.off < U32_LIMIT && g.len < 0x1_0000 && g.tag < U32_LIMIT
    requires h.off < U32_LIMIT && h.len < 0x1_0000 && h.tag < U32_LIMIT
    ensures g == h
  {
    Widths();
    assert HeadRow(g)[..4] == LE(g.off, 4) && HeadRow(h)[..4] == LE(h.off, 4);
    assert HeadRow(g)[4..6] == LE(g.len, 2) && HeadRow(h)[4..6] == LE(h.len, 2);
    assert HeadRow(g)[6..] == LE(g.tag, 4) && HeadRow(h)[6..] == LE(h.tag, 4);
    LEInjective(g.off, h.off, 4);
    LEInjective(g.len, h.len, 2);
    LEInjective(g.tag, h.tag, 4);
  }

  lemma {:induction false} PoolPrefix(es: seq<StrEntry>, i: nat)
    requires i < |es|
    ensures |Pool(es[..i])| + |es[i].text| <= |Pool(es)|
    ensures Pool(es)[|Pool(es[..i])|..|Pool(es[..i])| + |es[i].text|] == es[i].text
    ensures Pool(es[..i + 1]) == Pool(es[..i]) + es[i].text
    decreases |es|
  {
    assert es[..i + 1] == es[..i] + [es[i]];
    PoolSnoc(es[..i], es[i]);
    var n := |es| - 1;
    assert es == es[..n] + [es[n]];
    PoolSnoc(es[..n], es[n]);
    if i < n {
      PoolPrefix(es[..n], i);
      assert es[..n][..i] == es[..i];
      assert Pool(es)[|Pool(es[..i])|..|Pool(es[..i])| + |es[i].text|] ==
             Pool(es[..n])[|Pool(es[..i])|..|Pool(es[..i])| + |es[i].text|];
    } else {
      assert es[..i] == es[..n];
    }
  }

  // ----- the two loops

  predicate NarrowHead(h: Head) {
    h.off < U32_LIMIT && h.len < 0x1_0000 && h.tag < U32_LIMIT
  }

  lemma HeadRead(buf: Bytes, from: nat, h: Head)
    requires from + 10 <= |buf| && buf[from..from + 4] == LE(h.off, 4)
    requires buf[from + 4..from + 6] == LE(h.len, 2) && buf[from + 6..from + 10] == LE(h.tag, 4)
    ensures buf[from..from + 10] == HeadRow(h)
  {
    var row := buf[from..from + 10];
    assert row == buf[from..from + 4] + buf[from + 4..from + 6] + buf[from + 6..from + 10];
  }

  lemma HeadsNext(buf: Bytes, start: nat, from: nat, to: nat, heads: seq<Head>, h: Head)
    requires start <= from <= to <= |buf|
    requires buf[start..from] == Flatten(HeadRows(heads)) && buf[from..to] == HeadRow(h)
    ensures buf[start..to] == Flatten(HeadRows(heads + [h]))
  {
    assert buf[start..to] == buf[start..from] + buf[from..to];
    assert HeadRows(heads + [h]) == HeadRows(heads) + [HeadRow(h)];
    FlattenSnoc(HeadRows(heads), HeadRow(h));
  }

  method ReadHeads(cur: Cursor, n: nat) returns (heads: seq<Head>)
    requires cur.Valid() && cur.pos + 10 * n <= |cur.buf|
    modifies cur
    ensures cur.Valid() && cur.pos == old(cur.pos) + 10 * n
    ensures |heads| == n && forall i :: 0 <= i < n ==> NarrowHead(heads[i])
    ensures cur.buf[old(cur.pos)..cur.pos] == Flatten(HeadRows(heads))
  {
    Widths();
    heads := [];
    for i := 0 to n
      invariant cur.Valid() && cur.pos == old(cur.pos) + 10 * i
      invariant |heads| == i && forall k :: 0 <= k < i ==> NarrowHead(heads[k])
      invariant cur.buf[old(cur.pos)..cur.pos] == Flatten(HeadRows(heads))
    {
      ghost var from := cur.pos;
      var off := cur.Uint(4);
      var len := cur.Uint(2);
      var tag := cur.Uint(4);
      var h := Head(off.value, len.value, tag.value);
      HeadRead(cur.buf, from, h);
      HeadsNext(cur.buf, old(cur.pos), from, cur.pos, heads, h);
      heads := heads + [h];
    }
  }

  ghost predicate AllUtf8(es: seq<StrEntry>, utf8: Utf8) {
    forall i :: 0 <= i < |es| ==> utf8(es[i].text)
  }

  /** The entries the heads describe in the pool. */
  ghost predicate Describes(heads: seq<Head>, pool: Bytes, es: seq<StrEntry>) {
    HeadsOf(es) == heads && Pool(es) == pool
  }

  lemma HeadsSnoc(es: seq<StrEntry>, e: StrEntry)
    ensures HeadsOf(es + [e]) == HeadsOf(es) + [Head(|Pool(es)|, |e.text|, e.catset)]
  {
    var es' := es + [e];
    forall i | 0 <= i < |es'| ensures HeadsOf(es')[i] == (HeadsOf(es) + [Head(|Pool(es)|, |e.text|, e.catset)])[i] {
      assert i < |es| ==> es'[..i] == es[..i];
      assert i == |es| ==> es'[..i] == es;
    }
  }

  /** What the next head of a described list must be. */
  lemma NextHead(heads: seq<Head>, pool: Bytes, es: seq<StrEntry>, i: nat)
    requires Describes(heads, pool, es) && i < |heads|
    ensures |es| == |heads| && heads[i].off == |Pool(es[..i])| && heads[i].tag == es[i].catset
    ensures heads[i].off + heads[i].len <= |pool|
    ensures pool[heads[i].off..heads[i].off + heads[i].len] == es[i].text
  {
    assert |HeadsOf(es)| == |es|;
    assert heads[i] == HeadAt(es, i);
    PoolPrefix(es, i);
  }

  /** The entries sliced so far: the first heads, and the pool up to `next`. */
  ghost predicate SlicedTo(heads: seq<Head>, pool: Bytes, out: seq<StrEntry>, next: nat) {
    && |out| <= |heads| && HeadsOf(out) == heads[..|out|]
    && next <= |pool| && pool[..next] == Pool(out)
  }

  lemma SliceStep(heads: seq<Head>, pool: Bytes, out: seq<StrEntry>, next: nat, end: nat)
    requires SlicedTo(heads, pool, out, next) && |out| < |heads|
    requires heads[|out|].off == next && end == next + heads[|out|].len <= |pool|
    ensures SlicedTo(heads, pool, out + [StrEntry(pool[next..end], heads[|out|].tag)], end)
  {
    var e := StrEntry(pool[next..end], heads[|out|].tag);
    HeadsSnoc(out, e);
    PoolSnoc(out, e);
    assert heads[..|out| + 1] == heads[..|out|] + [heads[|out|]];
    assert pool[..end] == pool[..next] + pool[next..end];
  }

  /** The next entry of a described list is what the next head cuts out. */
  lemma SliceAgrees(heads: seq<Head>, pool: Bytes, w: seq<StrEntry>, out: seq<StrEntry>, next: nat, utf8: Utf8)
    requires Describes(heads, pool, w) && AllUtf8(w, utf8) && SlicedTo(heads, pool, out, next)
    requires |out| < |heads| && |w| == |heads| && out == w[..|out|]
    ensures var h := heads[|out|];
            && h.off == next && next + h.len <= |pool| && utf8(pool[next..next + h.len])
            && out + [StrEntry(pool[next..next + h.len], h.tag)] == w[..|out| + 1]
  {
    NextHead(heads, pool, w, |out|);
    assert next == |pool[..next]|;
    assert w[..|out| + 1] == w[..|out|] + [w[|out|]];
  }

  method SliceTexts(heads: seq<Head>, pool: Bytes, utf8: Utf8) returns (r: Option<seq<StrEntry>>)
    ensures r.Some? ==> Describes(heads, pool, r.value) && AllUtf8(r.value, utf8)
    ensures r.None? ==> forall es :: Describes(heads, pool, es) ==> !AllUtf8(es, utf8)
  {
    ghost var good := exists es :: Describes(heads, pool, es) && AllUtf8(es, utf8);
    ghost var w: seq<StrEntry> := [];
    if good { w :| Describes(heads, pool, w) && AllUtf8(w, utf8); }
    assert good ==> |HeadsOf(w)| == |w|;
    var out: seq<StrEntry> := [];
    var next: nat := 0;
    assert Pool(out) == [];
    for i := 0 to |heads|
      invariant |out| == i && SlicedTo(heads, pool, out, next) && AllUtf8(out, utf8)
      invariant good ==> out == w[..i]
    {
      var h := heads[i];
      if good { SliceAgrees(heads, pool, w, out, next, utf8); }
      if h.off != next { return None; }
      var end := h.off + h.len;
      if end > |pool| { return None; }
      var text := pool[h.off..end];
      if !utf8(text) { return None; }
      SliceStep(heads, pool, out, next, end);
      out := out + [StrEntry(text, h.tag)];
      next := end;
    }
    assert heads[..|heads|] == heads && pool[..|pool|] == pool;
    if good { assert w[..|w|] == w; }
    if next != |pool| { return None; }
    r := Some(out);
  }

  lemma SameDescription(heads: seq<Head>, pool: Bytes, es: seq<StrEntry>, fs: seq<StrEntry>)
    requires Describes(heads, pool, es) && Describes(heads, pool, fs)
    ensures es == fs
  {
    assert |HeadsOf(fs)| == |fs| && |HeadsOf(es)| == |es|;
    forall i | 0 <= i < |es| ensures fs[i] == es[i] {
      NextHead(heads, pool, es, i);
      NextHead(heads, pool, fs, i);
    }
  }

  // ----- a whole section

  /** The fixed fields of an encoded section. */
  lemma SectionFields(payload: Bytes, es: seq<StrEntry>, max: nat, utf8: Utf8)
    requires StringSection(payload, es, max, utf8)
    ensures |payload| == 8 + 10 * |es| + |Pool(es)|
    ensures forall n: nat :: n < U32_LIMIT && payload[..4] == LE(n, 4) ==> n == |es|
    ensures forall n: nat :: n < U32_LIMIT && payload[4 + 10 * |es|..8 + 10 * |es|] == LE(n, 4) ==> n == |Pool(es)|
    ensures payload[8 + 10 * |es|..] == Pool(es)
  {
    StringSlices(es);
    Widths();
    forall n: nat | n < U32_LIMIT && payload[..4] == LE(n, 4) ensures n == |es| { LEInjective(n, |es|, 4); }
    forall n: nat | n < U32_LIMIT && payload[4 + 10 * |es|..8 + 10 * |es|] == LE(n, 4) ensures n == |Pool(es)| {
      LEInjective(n, |Pool(es)|, 4);
    }
  }

  lemma FitsNarrow(es: seq<StrEntry>, utf8: Utf8)
    requires StringFits(es, utf8)
    ensures forall i :: 0 <= i < |es| ==> NarrowHead(HeadsOf(es)[i])
  {
    forall i | 0 <= i < |es| ensures NarrowHead(HeadsOf(es)[i]) { PoolPrefix(es, i); }
  }

  lemma HeadRowsInjective(gs: seq<Head>, hs: seq<Head>)
    requires |gs| == |hs| && Flatten(HeadRows(gs)) == Flatten(HeadRows(hs))
    requires forall i :: 0 <= i < |gs| ==> NarrowHead(gs[i]) && NarrowHead(hs[i])
    ensures gs == hs
  {
    forall i | 0 <= i < |gs| ensures gs[i] == hs[i] {
      FlattenRow(HeadRows(gs), 10, i);
      FlattenRow(HeadRows(hs), 10, i);
      HeadRowInjective(gs[i], hs[i]);
    }
  }

  /** The heads read are those of the encoded entries. */
  lemma SectionHeads(payload: Bytes, es: seq<StrEntry>, max: nat, utf8: Utf8, heads: seq<Head>)
    requires StringSection(payload, es, max, utf8) && |heads| == |es|
    requires 4 + 10 * |es| <= |payload| && payload[4..4 + 10 * |es|] == Flatten(HeadRows(heads))
    requires forall i :: 0 <= i < |heads| ==> NarrowHead(heads[i])
    ensures HeadsOf(es) == heads
  {
    StringSlices(es);
    FitsNarrow(es, utf8);
    HeadRowsInjective(HeadsOf(es), heads);
  }

  /** The fixed part of a payload: count, heads and pool length. */
  ghost predicate ReadOff(payload: Bytes, n: nat, heads: seq<Head>, poolLen: nat) {
    && 8 + 10 * n <= |payload| && n < U32_LIMIT && poolLen < U32_LIMIT && |heads| == n
    && payload[..4] == LE(n, 4)
    && payload[4..4 + 10 * n] == Flatten(HeadRows(heads))
    && payload[4 + 10 * n..8 + 10 * n] == LE(poolLen, 4)
    && forall i :: 0 <= i < n ==> NarrowHead(heads[i])
  }

  lemma ReadOffDecides(payload: Bytes, n: nat, heads: seq<Head>, poolLen: nat, es: seq<StrEntry>, utf8: Utf8)
    requires ReadOff(payload, n, heads, poolLen) && StringSection(payload, es, n, utf8)
    ensures HeadsOf(es) == heads && |payload| == 8 + 10 * n + poolLen && payload[8 + 10 * n..] == Pool(es)
  {
    SectionFields(payload, es, n, utf8);
    SectionHeads(payload, es, n, utf8, heads);
  }

  lemma ReadOffAssembles(payload: Bytes, n: nat, heads: seq<Head>, poolLen: nat, es: seq<StrEntry>, utf8: Utf8)
    requires ReadOff(payload, n, heads, poolLen) && |payload| == 8 + 10 * n + poolLen
    requires Describes(heads, payload[8 + 10 * n..], es) && AllUtf8(es, utf8)
    ensures StringSection(payload, es, n, utf8) && |es| == n
  {
    assert |HeadsOf(es)| == |es|;
    var mid, end := 4 + 10 * n, 8 + 10 * n;
    assert payload == payload[..4] + payload[4..mid] + payload[mid..end] + payload[end..];
    NarrowFits(es, heads, utf8);
  }

  lemma NarrowFits(es: seq<StrEntry>, heads: seq<Head>, utf8: Utf8)
    requires HeadsOf(es) == heads && (forall i :: 0 <= i < |heads| ==> NarrowHead(heads[i])) && AllUtf8(es, utf8)
    requires |es| < U32_LIMIT && |Pool(es)| < U32_LIMIT
    ensures StringFits(es, utf8)
  {
    assert |HeadsOf(es)| == |es|;
    forall i | 0 <= i < |es| ensures |es[i].text| < 0x1_0000 && es[i].catset < U32_LIMIT {
      assert heads[i] == HeadAt(es, i);
    }
  }

  /** Heads and pool length, the count being read already. */
  method ReadFixed(cur: Cursor, n: nat) returns (heads: seq<Head>, poolLen: nat)
    requires cur.Valid() && cur.pos == 4 && n < U32_LIMIT && 8 + 10 * n <= |cur.buf| && cur.buf[..4] == LE(n, 4)
    modifies cur
    ensures cur.Valid() && cur.pos == 8 + 10 * n && ReadOff(cur.buf, n, heads, poolLen)
  {
    Widths();
    heads := ReadHeads(cur, n);
    var len := cur.Uint(4);
    poolLen := len.value;
  }

  /** Everything after the entry count. */
  method ReadStrings(cur: Cursor, n: nat, utf8: Utf8) returns (r: Option<seq<StrEntry>>)
    requires cur.Valid() && cur.pos == 4 && n < U32_LIMIT && 8 + 10 * n <= |cur.buf| && cur.buf[..4] == LE(n, 4)
    modifies cur
    ensures r.Some? ==> StringSection(cur.buf, r.value, n, utf8) && |r.value| == n
    ensures r.None? ==> forall es :: !StringSection(cur.buf, es, n, utf8)
  {
    var heads, poolLen := ReadFixed(cur, n);
    forall es | StringSection(cur.buf, es, n, utf8)
      ensures |cur.buf| == 8 + 10 * n + poolLen && Describes(heads, cur.buf[8 + 10 * n..], es) && AllUtf8(es, utf8)
    {
      ReadOffDecides(cur.buf, n, heads, poolLen, es, utf8);
    }
    var pool := cur.Take(poolLen);
    if pool.None? || cur.pos != |cur.buf| { return None; }
    assert pool.value == cur.buf[8 + 10 * n..];
    r := SliceTexts(heads, pool.value, utf8);
    if r.Some? { ReadOffAssembles(cur.buf, n, heads, poolLen, r.value, utf8); }
  }

  lemma SameCount(payload: Bytes, es: seq<StrEntry>, fs: seq<StrEntry>, max: nat, utf8: Utf8)
    requires StringSection(payload, es, max, utf8) && StringSection(payload, fs, max, utf8)
    ensures |es| == |fs| && |Pool(es)| == |Pool(fs)| && Pool(es) == Pool(fs)
  {
    StringSlices(fs);
    SectionFields(payload, es, max, utf8);
  }

  lemma SameHeads(es: seq<StrEntry>, fs: seq<StrEntry>, utf8: Utf8)
    requires |es| == |fs| && StringPayload(es) == StringPayload(fs) && StringFits(es, utf8) && StringFits(fs, utf8)
    ensures HeadsOf(es) == HeadsOf(fs)
  {
    var gs, hs := HeadsOf(es), HeadsOf(fs);
    assert Flatten(HeadRows(gs)) == Flatten(HeadRows(hs)) by {
      StringSlices(es);
      StringSlices(fs);
    }
    FitsNarrow(es, utf8);
    FitsNarrow(fs, utf8);
    HeadRowsInjective(gs, hs);
  }

  lemma SectionUnique(payload: Bytes, es: seq<StrEntry>, fs: seq<StrEntry>, max: nat, utf8: Utf8)
    requires StringSection(payload, es, max, utf8) && StringSection(payload, fs, max, utf8)
    ensures es == fs
  {
    SameCount(payload, es, fs, max, utf8);
    SameHeads(es, fs, utf8);
    SameDescription(HeadsOf(fs), Pool(fs), es, fs);
  }

  /** Decode one string section and charge it: accepts exactly the canonical
      payloads within limits and budget. */
  method DecodeStrings(payload: Bytes, max: nat, heap: nat, utf8: Utf8) returns (r: Option<seq<StrEntry>>, heap': nat)
    requires max < U32_LIMIT
    ensures r.Some? ==>
              && StringSection(payload, r.value, max, utf8)
              && heap' == heap + StringHeap(r.value) <= MAX_DECODED_HEAP_BYTES
    ensures r.None? ==>
              forall es :: StringSection(payload, es, max, utf8) ==> heap + StringHeap(es) > MAX_DECODED_HEAP_BYTES
  {
    heap' := heap;
    Widths();
    ghost var good :=
      exists es :: StringSection(payload, es, max, utf8) && heap + StringHeap(es) <= MAX_DECODED_HEAP_BYTES;
    ghost var w: seq<StrEntry> := [];
    if good {
      w :| StringSection(payload, w, max, utf8) && heap + StringHeap(w) <= MAX_DECODED_HEAP_BYTES;
      SectionFields(payload, w, max, utf8);
    }
    r := None;
    var cur := new Cursor(payload);
    var count := cur.Uint(4);
    if count.None? { return; }
    var n := count.value;
    if n > max || |payload| < 8 + 10 * n { return; }
    var charged := Charge(heap, n * STRING_COST + |payload|);
    if charged.None? { return; }
    if good { assert StringSection(payload, w, n, utf8); }
    r := ReadStrings(cur, n, utf8);
    heap' := charged.value;
  }
}
