/** Header, section table and tiling of the artifact body. */
module Container {
  import opened Wrappers
  import opened Words
  import opened Text
  import opened Flattening
  import opened LittleEndian
  import opened Sections
  import opened StringDecoding

  // ----- header and table

  lemma TableRowInjective(d: TableEntry, e: TableEntry)
    requires TableRow(d) == TableRow(e) && WideEntry(d) && WideEntry(e)
    ensures d == e
  {
    Widths();
    var x, y := TableRow(d), TableRow(e);
    assert x[..4] == LE(d.kind, 4) && y[..4] == LE(e.kind, 4);
    assert x[4..12] == LE(d.off, 8) && y[4..12] == LE(e.off, 8);
    assert x[12..] == LE(d.len, 8) && y[12..] == LE(e.len, 8);
    LEInjective(d.kind, e.kind, 4);
    LEInjective(d.off, e.off, 8);
    LEInjective(d.len, e.len, 8);
  }

  lemma HeaderSlices(epoch: nat)
    ensures var h := Header(epoch);
            h[..4] == MAGIC && h[4..6] == LE(FORMAT_VERSION, 2) && h[6..8] == LE(0, 2)
            && h[8..16] == LE(epoch, 8) && h[16..20] == LE(SECTION_COUNT, 4)
  {
  }

  lemma HeaderParts(body: Bytes, epoch: nat, t: seq<TableEntry>)
    requires HeaderOf(body, epoch, t)
    ensures body[..4] == MAGIC && body[4..6] == LE(FORMAT_VERSION, 2) && body[6..8] == LE(0, 2)
    ensures body[8..16] == LE(epoch, 8) && body[16..20] == LE(SECTION_COUNT, 4)
    ensures body[20..160] == Flatten(TableRows(t))
  {
    HeaderSlices(epoch);
    FlattenLength(TableRows(t), 20);
    var x := Header(epoch) + Flatten(TableRows(t));
    assert body[..160] == x;
    assert body[..4] == x[..4] && body[4..6] == x[4..6] && body[6..8] == x[6..8];
    assert body[8..16] == x[8..16] && body[16..20] == x[16..20] && body[20..160] == x[20..160];
  }

  lemma HeaderAssembled(body: Bytes, epoch: nat, t: seq<TableEntry>)
    requires PAYLOAD_START <= |body| && |t| == SECTION_COUNT && epoch < WORD_LIMIT
    requires forall i :: 0 <= i < |t| ==> WideEntry(t[i])
    requires body[..4] == MAGIC && body[4..6] == LE(FORMAT_VERSION, 2) && body[6..8] == LE(0, 2)
    requires body[8..16] == LE(epoch, 8) && body[16..20] == LE(SECTION_COUNT, 4)
    requires body[20..160] == Flatten(TableRows(t))
    ensures HeaderOf(body, epoch, t)
  {
    assert body[..160] == body[..4] + body[4..6] + body[6..8] + body[8..16] + body[16..20] + body[20..160];
  }

  /** A body has one header and one table. */
  lemma HeaderUnique(body: Bytes, m: nat, s: seq<TableEntry>, n: nat, t: seq<TableEntry>)
    requires HeaderOf(body, m, s) && HeaderOf(body, n, t)
    ensures m == n && s == t
  {
    Widths();
    HeaderParts(body, m, s);
    HeaderParts(body, n, t);
    LEInjective(m, n, 8);
    forall i | 0 <= i < |s| ensures s[i] == t[i] {
      FlattenRow(TableRows(s), 20, i);
      FlattenRow(TableRows(t), 20, i);
      TableRowInjective(s[i], t[i]);
    }
  }

  method ReadTable(cur: Cursor, n: nat) returns (t: seq<TableEntry>)
    requires cur.Valid() && cur.pos + 20 * n <= |cur.buf|
    modifies cur
    ensures cur.Valid() && cur.pos == old(cur.pos) + 20 * n
    ensures |t| == n && (forall i :: 0 <= i < n ==> WideEntry(t[i]))
    ensures cur.buf[old(cur.pos)..cur.pos] == Flatten(TableRows(t))
  {
    Widths();
    t := [];
    for i := 0 to n
      invariant cur.Valid() && cur.pos == old(cur.pos) + 20 * i
      invariant |t| == i && forall k :: 0 <= k < i ==> WideEntry(t[k])
      invariant cur.buf[old(cur.pos)..cur.pos] == Flatten(TableRows(t))
    {
      ghost var from := cur.pos;
      var kind := cur.Uint(4);
      var off := cur.Uint(8);
      var len := cur.Uint(8);
      var e := TableEntry(kind.value, off.value, len.value);
      assert cur.buf[from..cur.pos] == TableRow(e);
      assert cur.buf[old(cur.pos)..cur.pos] == cur.buf[old(cur.pos)..from] + cur.buf[from..cur.pos];
      assert TableRows(t + [e]) == TableRows(t) + [TableRow(e)];
      FlattenSnoc(TableRows(t), TableRow(e));
      t := t + [e];
    }
  }

  /** The five fixed header fields. */
  method ReadPreamble(cur: Cursor) returns (epoch: Option<nat>)
    requires cur.Valid() && cur.pos == 0 && |cur.buf| >= HEADER_LEN
    modifies cur
    ensures cur.Valid()
    ensures epoch.Some? ==>
              && cur.pos == HEADER_LEN && epoch.value < WORD_LIMIT
              && cur.buf[..4] == MAGIC && cur.buf[4..6] == LE(FORMAT_VERSION, 2) && cur.buf[6..8] == LE(0, 2)
              && cur.buf[8..16] == LE(epoch.value, 8) && cur.buf[16..20] == LE(SECTION_COUNT, 4)
    ensures epoch.None? ==>
              !(cur.buf[..4] == MAGIC && cur.buf[4..6] == LE(FORMAT_VERSION, 2) && cur.buf[6..8] == LE(0, 2)
                && cur.buf[16..20] == LE(SECTION_COUNT, 4))
  {
    Widths();
    epoch := None;
    var magic := cur.Take(4);
    if magic.value != MAGIC { return; }
    var version := cur.Uint(2);
    if cur.buf[4..6] == LE(FORMAT_VERSION, 2) { LEInjective(version.value, FORMAT_VERSION, 2); }
    if version.value != FORMAT_VERSION { return; }
    var reserved := cur.Uint(2);
    if cur.buf[6..8] == LE(0, 2) { LEInjective(reserved.value, 0, 2); }
    if reserved.value != 0 { return; }
    var stamp := cur.Uint(8);
    var n := cur.Uint(4);
    if cur.buf[16..20] == LE(SECTION_COUNT, 4) { LEInjective(n.value, SECTION_COUNT, 4); }
    if n.value != SECTION_COUNT { return; }
    epoch := stamp;
  }

  method ReadHeader(body: Bytes) returns (r: Option<(nat, seq<TableEntry>)>)
    requires |body| >= HEADER_LEN
    ensures r.Some? ==> HeaderOf(body, r.value.0, r.value.1)
    ensures r.None? ==> forall epoch, t :: !HeaderOf(body, epoch, t)
  {
    r := None;
    var cur := new Cursor(body);
    var epoch := ReadPreamble(cur);
    if epoch.None? {
      forall n, t | HeaderOf(body, n, t) ensures false { HeaderParts(body, n, t); }
      return;
    }
    if cur.pos + 20 * SECTION_COUNT > |body| { return; }
    var t := ReadTable(cur, SECTION_COUNT);
    HeaderAssembled(body, epoch.value, t);
    r := Some((epoch.value, t));
  }

  // ----- tiling

  /** `order` lists the indices of `t` by ascending offset. */
  ghost predicate SortedOrder(order: seq<nat>, t: seq<TableEntry>, n: nat) {
    && n <= |t| && |order| == n
    && (forall k :: 0 <= k < n ==> order[k] < n)
    && (forall k, l :: 0 <= k < l < n ==> order[k] != order[l] && t[order[k]].off <= t[order[l]].off)
    && (forall i :: 0 <= i < n ==> i in order)
  }

  lemma PlaceOf(order: seq<nat>, t: seq<TableEntry>, n: nat, i: nat) returns (k: nat)
    requires SortedOrder(order, t, n) && i < n
    ensures k < n && order[k] == i
  {
    assert i in order;
    k :| 0 <= k < |order| && order[k] == i;
  }

  /** The coverage list sorted by offset; ties in any order. */
  method SortByOffset(t: seq<TableEntry>) returns (order: seq<nat>)
    ensures SortedOrder(order, t, |t|)
  {
    order := [];
    for i := 0 to |t|
      invariant SortedOrder(order, t, i)
    {
      var p := 0;
      while p < i && t[order[p]].off <= t[i].off
        invariant 0 <= p <= i
        invariant forall k :: 0 <= k < p ==> t[order[k]].off <= t[i].off
      {
        p := p + 1;
      }
      InsertSorted(order, t, i, p);
      order := order[..p] + [i] + order[p..];
    }
  }

  lemma InsertSorted(order: seq<nat>, t: seq<TableEntry>, i: nat, p: nat)
    requires SortedOrder(order, t, i) && i < |t| && p <= i
    requires forall k :: 0 <= k < p ==> t[order[k]].off <= t[i].off
    requires p < i ==> t[order[p]].off > t[i].off
    ensures SortedOrder(order[..p] + [i] + order[p..], t, i + 1)
  {
    var order' := order[..p] + [i] + order[p..];
    forall x | 0 <= x < i + 1 ensures x in order' { InsertHas(order, t, i, p, x); }
    forall k, l | 0 <= k < l < i + 1 ensures order'[k] != order'[l] && t[order'[k]].off <= t[order'[l]].off {
      var k', l' := if k < p then k else k - 1, if l < p then l else l - 1;
      assert k != p ==> order'[k] == order[k'];
      assert l != p ==> order'[l] == order[l'];
    }
  }

  lemma InsertHas(order: seq<nat>, t: seq<TableEntry>, i: nat, p: nat, x: nat)
    requires SortedOrder(order, t, i) && i < |t| && p <= i && x <= i
    ensures x in order[..p] + [i] + order[p..]
  {
    var order' := order[..p] + [i] + order[p..];
    if x < i {
      var k := PlaceOf(order, t, i, x);
      assert order'[if k < p then k else k + 1] == x;
    } else {
      assert order'[p] == i;
    }
  }

  ghost predicate NoneEmpty(t: seq<TableEntry>) {
    forall i :: 0 <= i < |t| ==> t[i].len > 0
  }

  /** The first `k` sections in order cover `start .. next` without overlap. */
  ghost predicate TiledTo(t: seq<TableEntry>, order: seq<nat>, k: nat, start: nat, next: nat)
    requires SortedOrder(order, t, |t|) && k <= |t|
  {
    && start <= next
    && (forall m :: 0 <= m < k ==> start <= t[order[m]].off && t[order[m]].off + t[order[m]].len <= next)
    && (forall m, l :: 0 <= m < l < k ==> t[order[m]].off + t[order[m]].len <= t[order[l]].off)
    && forall p: nat :: start <= p < next ==> InFirst(t, order, k, p)
  }

  ghost predicate InFirst(t: seq<TableEntry>, order: seq<nat>, k: nat, p: nat)
    requires SortedOrder(order, t, |t|) && k <= |t|
  {
    exists m :: 0 <= m < k && HasByte(t[order[m]], p)
  }

  lemma TileStep(t: seq<TableEntry>, order: seq<nat>, k: nat, start: nat, next: nat)
    requires SortedOrder(order, t, |t|) && k < |t| && TiledTo(t, order, k, start, next) && t[order[k]].off == next
    ensures TiledTo(t, order, k + 1, start, next + t[order[k]].len)
  {
    var next', k' := next + t[order[k]].len, k + 1;
    forall p: nat | start <= p < next' ensures InFirst(t, order, k', p) {
      if p < next {
        assert InFirst(t, order, k, p);
        var m :| 0 <= m < k && HasByte(t[order[m]], p);
        assert 0 <= m < k' && HasByte(t[order[m]], p);
      } else {
        assert HasByte(t[order[k]], p);
      }
    }
  }

  lemma TiledIsTiles(t: seq<TableEntry>, order: seq<nat>, start: nat, end: nat)
    requires SortedOrder(order, t, |t|) && TiledTo(t, order, |t|, start, end)
    ensures Tiles(t, start, end)
  {
    forall p: nat | start <= p < end ensures InSomeSection(t, p) {
      assert InFirst(t, order, |t|, p);
      var m :| 0 <= m < |t| && HasByte(t[order[m]], p);
    }
    forall i | 0 <= i < |t| ensures start <= t[i].off && t[i].off + t[i].len <= end {
      var k := PlaceOf(order, t, |t|, i);
      assert start <= t[order[k]].off && t[order[k]].off + t[order[k]].len <= end;
    }
    forall i, j, p | 0 <= i < j < |t| ensures !(HasByte(t[i], p) && HasByte(t[j], p)) {
      var k := PlaceOf(order, t, |t|, i);
      var l := PlaceOf(order, t, |t|, j);
      if k < l {
        assert t[order[k]].off + t[order[k]].len <= t[order[l]].off;
      } else {
        assert l < k;
        assert t[order[l]].off + t[order[l]].len <= t[order[k]].off;
      }
    }
  }

  lemma EarlierHold(t: seq<TableEntry>, order: seq<nat>, k: nat, start: nat, end: nat, p: nat)
    requires SortedOrder(order, t, |t|) && k < |t| && Tiles(t, start, end) && InFirst(t, order, k, p)
    ensures !HasByte(t[order[k]], p)
  {
    var m :| 0 <= m < k && HasByte(t[order[m]], p);
    assert order[m] != order[k];
  }

  /** The next section of a tiling cannot start anywhere else. */
  lemma TilingForces(t: seq<TableEntry>, order: seq<nat>, k: nat, start: nat, next: nat, end: nat)
    requires SortedOrder(order, t, |t|) && k < |t| && TiledTo(t, order, k, start, next)
    requires Tiles(t, start, end) && NoneEmpty(t)
    ensures t[order[k]].off == next
  {
    var e := t[order[k]];
    if InFirst(t, order, k, e.off) { EarlierHold(t, order, k, start, end, e.off); }
    assert HasByte(e, e.off);
    assert next <= e.off;
    assert InSomeSection(t, next);
    var i :| 0 <= i < |t| && HasByte(t[i], next);
    var l := PlaceOf(order, t, |t|, i);
    assert k <= l;
  }

  lemma TilingEnds(t: seq<TableEntry>, order: seq<nat>, start: nat, next: nat, end: nat)
    requires SortedOrder(order, t, |t|) && TiledTo(t, order, |t|, start, next)
    requires Tiles(t, start, end) && next <= end
    ensures next == end
  {
    forall i | 0 <= i < |t| ensures !HasByte(t[i], next) {
      var l := PlaceOf(order, t, |t|, i);
      assert t[order[l]].off + t[order[l]].len <= next;
    }
    assert next < end ==> InSomeSection(t, next);
  }

  /** Accepts only tilings, and every tiling by non-empty sections. */
  method CheckTiling(t: seq<TableEntry>, start: nat, end: nat) returns (ok: bool)
    requires start <= end
    ensures ok ==> Tiles(t, start, end)
    ensures !ok ==> !(Tiles(t, start, end) && NoneEmpty(t))
  {
    for i := 0 to |t|
      invariant forall k :: 0 <= k < i ==> start <= t[k].off && t[k].off + t[k].len <= end
    {
      if t[i].off + t[i].len > end || t[i].off < start { return false; }
    }
    var order := SortByOffset(t);
    ghost var good := Tiles(t, start, end) && NoneEmpty(t);
    var next: nat := start;
    for k := 0 to |t|
      invariant TiledTo(t, order, k, start, next) && next <= end
    {
      var e := t[order[k]];
      if good { TilingForces(t, order, k, start, next, end); }
      if e.off != next { return false; }
      TileStep(t, order, k, start, next);
      next := e.off + e.len;
    }
    if good { TilingEnds(t, order, start, next, end); }
    if next != end { return false; }
    TiledIsTiles(t, order, start, end);
    ok := true;
  }
}
