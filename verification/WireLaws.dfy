/** Where in an artifact what stands, said of byte positions and numbers. */
module WireLaws {
  import opened Words
  import opened Text
  import opened Flattening
  import opened LittleEndian
  import opened BookFormat
  import opened Spelling
  import opened Sections
  import opened StringDecoding
  import opened FixedDecoding
  import opened Decoder
  import opened PartEncoding
  import opened Encoder

  /** The number that these bytes are, the lowest first. */
  function Number(bs: Bytes): nat {
    if bs == [] then 0 else bs[0] + 256 * Number(bs[1..])
  }

  /** The number in the `k` bytes at `at`. */
  function NumberAt(bs: Bytes, at: nat, k: nat): nat
    requires at + k <= |bs|
  {
    Number(bs[at..at + k])
  }

  lemma {:induction false} NumberIsFrom(bs: Bytes)
    ensures Number(bs) == FromLE(bs)
  {
    if bs != [] { NumberIsFrom(bs[1..]); }
  }

  /** The piece stands at `at`. */
  predicate StandsAt(bs: Bytes, at: nat, piece: Bytes) {
    at + |piece| <= |bs| && forall i :: 0 <= i < |piece| ==> bs[at + i] == piece[i]
  }

  lemma SliceStands(bs: Bytes, at: nat, n: nat, piece: Bytes)
    requires at + n <= |bs| && bs[at..at + n] == piece
    ensures StandsAt(bs, at, piece)
  {
    forall i | 0 <= i < n ensures bs[at + i] == piece[i] { assert bs[at..at + n][i] == bs[at + i]; }
  }

  lemma StandsIsSlice(bs: Bytes, at: nat, piece: Bytes)
    requires StandsAt(bs, at, piece)
    ensures bs[at..at + |piece|] == piece
  {
    forall i | 0 <= i < |piece| ensures bs[at..at + |piece|][i] == piece[i] { assert bs[at + i] == piece[i]; }
  }

  /** A piece of a piece. */
  lemma StandsWithin(bs: Bytes, at: nat, whole: Bytes, x: nat, piece: Bytes)
    requires StandsAt(bs, at, whole) && StandsAt(whole, x, piece)
    ensures StandsAt(bs, at + x, piece)
  {
    forall i | 0 <= i < |piece| ensures bs[at + x + i] == piece[i] { assert bs[at + (x + i)] == whole[x + i]; }
  }

  lemma NumberStands(bs: Bytes, at: nat, part: Bytes, n: nat, k: nat)
    requires StandsAt(bs, at, part) && part == LE(n, k) && n < Pow256(k)
    ensures at + k <= |bs| && NumberAt(bs, at, k) == n
  {
    StandsIsSlice(bs, at, part);
    NumberIsFrom(part);
    ReadBack(n, k);
  }

  /** A field of a row that stands at `at`. */
  lemma FieldIs(bs: Bytes, at: nat, row: Bytes, x: nat, part: Bytes, n: nat, k: nat)
    requires StandsAt(bs, at, row) && StandsAt(row, x, part) && part == LE(n, k) && n < Pow256(k)
    ensures at + x + k <= |bs| && NumberAt(bs, at + x, k) == n
  {
    StandsWithin(bs, at, row, x, part);
    NumberStands(bs, at + x, part, n, k);
  }

  lemma TwoParts(whole: Bytes, a: Bytes, b: Bytes)
    requires whole == a + b
    ensures StandsAt(whole, 0, a) && StandsAt(whole, |a|, b)
  {
  }

  lemma ThreeParts(whole: Bytes, a: Bytes, b: Bytes, c: Bytes)
    requires whole == a + b + c
    ensures StandsAt(whole, 0, a) && StandsAt(whole, |a|, b) && StandsAt(whole, |a| + |b|, c)
  {
  }

  lemma FourParts(whole: Bytes, a: Bytes, b: Bytes, c: Bytes, d: Bytes)
    requires whole == a + b + c + d
    ensures StandsAt(whole, 0, a) && StandsAt(whole, |a|, b) && StandsAt(whole, |a| + |b|, c)
    ensures StandsAt(whole, |a| + |b| + |c|, d)
  {
  }

  /** Row `i` of a table of rows of one width that stands at `at`. */
  lemma RowAt(bs: Bytes, at: nat, rows: seq<Bytes>, width: nat, i: nat, x: nat)
    requires Rectangular(rows, width) && i < |rows| && x == i * width && StandsAt(bs, at, Flatten(rows))
    ensures StandsAt(bs, at + x, rows[i])
  {
    var table := Flatten(rows);
    FlattenRow(rows, width, i);
    SliceStands(table, x, width, rows[i]);
    StandsWithin(bs, at, table, x, rows[i]);
  }

  // ----- string sections

  /** Entry `j` of a string section: offset, length and tag in ten bytes, and its text in
      the pool after the table. */
  ghost predicate EntryLaid(p: Bytes, n: nat, j: nat, text: Bytes, tag: nat)
    requires j < n && 8 + 10 * n <= |p|
  {
    && NumberAt(p, 4 + 10 * j + 4, 2) == |text| && NumberAt(p, 4 + 10 * j + 6, 4) == tag
    && StandsAt(p, 8 + 10 * n + NumberAt(p, 4 + 10 * j, 4), text)
  }

  ghost predicate StringsLaid(p: Bytes, es: seq<StrEntry>) {
    && 8 + 10 * |es| <= |p| && NumberAt(p, 0, 4) == |es|
    && NumberAt(p, 4 + 10 * |es|, 4) == |p| - (8 + 10 * |es|)
    && forall j :: 0 <= j < |es| ==> EntryLaid(p, |es|, j, es[j].text, es[j].catset)
  }

  lemma HeadAtLaid(p: Bytes, at: nat, h: Head)
    requires StandsAt(p, at, HeadRow(h)) && NarrowHead(h)
    ensures at + 10 <= |p|
    ensures NumberAt(p, at, 4) == h.off && NumberAt(p, at + 4, 2) == h.len && NumberAt(p, at + 6, 4) == h.tag
  {
    Widths();
    var row, a, b, c := HeadRow(h), LE(h.off, 4), LE(h.len, 2), LE(h.tag, 4);
    ThreeParts(row, a, b, c);
    FieldIs(p, at, row, 0, a, h.off, 4);
    FieldIs(p, at, row, 4, b, h.len, 2);
    FieldIs(p, at, row, 6, c, h.tag, 4);
  }

  lemma HeadsStand(p: Bytes, es: seq<StrEntry>, rows: seq<Bytes>)
    requires p == StringPayload(es) && rows == HeadRows(HeadsOf(es))
    ensures StandsAt(p, 4, Flatten(rows))
  {
    StringSlices(es);
    SliceStands(p, 4, 10 * |es|, Flatten(rows));
  }

  lemma PoolStands(p: Bytes, es: seq<StrEntry>, base: nat)
    requires p == StringPayload(es) && base == 8 + 10 * |es|
    ensures |p| == base + |Pool(es)| && StandsAt(p, base, Pool(es))
  {
    StringSlices(es);
    assert p[base..] == p[base..base + |Pool(es)|];
    SliceStands(p, base, |Pool(es)|, Pool(es));
  }

  lemma HeadIsAt(p: Bytes, es: seq<StrEntry>, j: nat, x: nat)
    requires p == StringPayload(es) && j < |es| && x == 10 * j
    ensures StandsAt(p, 4 + x, HeadRow(HeadAt(es, j)))
  {
    var rows := HeadRows(HeadsOf(es));
    HeadsStand(p, es, rows);
    RowAt(p, 4, rows, 10, j, x);
    assert rows[j] == HeadRow(HeadsOf(es)[j]);
  }

  lemma TextStands(es: seq<StrEntry>, j: nat, off: nat, pool: Bytes)
    requires j < |es| && off == |Pool(es[..j])| && pool == Pool(es)
    ensures StandsAt(pool, off, es[j].text)
  {
    PoolPrefix(es, j);
    SliceStands(pool, off, |es[j].text|, es[j].text);
  }

  lemma TextIsAt(p: Bytes, es: seq<StrEntry>, j: nat, base: nat, off: nat)
    requires p == StringPayload(es) && base == 8 + 10 * |es| && j < |es| && off == |Pool(es[..j])|
    ensures base <= |p| && StandsAt(p, base + off, es[j].text)
  {
    var pool := Pool(es);
    PoolStands(p, es, base);
    TextStands(es, j, off, pool);
    StandsWithin(p, base, pool, off, es[j].text);
  }

  lemma CountsAreLaid(p: Bytes, es: seq<StrEntry>, at: nat)
    requires p == StringPayload(es) && |es| < U32_LIMIT && |Pool(es)| < U32_LIMIT && at == 4 + 10 * |es|
    ensures at + 4 <= |p| && NumberAt(p, 0, 4) == |es| && NumberAt(p, at, 4) == |Pool(es)|
  {
    Widths();
    StringSlices(es);
    assert p[0..4] == p[..4];
    SliceStands(p, 0, 4, LE(|es|, 4));
    SliceStands(p, at, 4, LE(|Pool(es)|, 4));
    NumberStands(p, 0, LE(|es|, 4), |es|, 4);
    NumberStands(p, at, LE(|Pool(es)|, 4), |Pool(es)|, 4);
  }

  lemma HeadIsNarrow(es: seq<StrEntry>, utf8: Utf8, j: nat)
    requires StringFits(es, utf8) && j < |es|
    ensures NarrowHead(HeadAt(es, j))
  {
    PoolPrefix(es, j);
  }

  lemma EntryFrom(p: Bytes, n: nat, j: nat, at: nat, base: nat, h: Head, text: Bytes)
    requires j < n && at == 4 + 10 * j && base == 8 + 10 * n <= |p| && h.len == |text| && NarrowHead(h)
    requires StandsAt(p, at, HeadRow(h)) && StandsAt(p, base + h.off, text)
    ensures EntryLaid(p, n, j, text, h.tag)
  {
    HeadAtLaid(p, at, h);
  }

  lemma EntryIsLaid(p: Bytes, es: seq<StrEntry>, utf8: Utf8, j: nat, at: nat, base: nat)
    requires p == StringPayload(es) && StringFits(es, utf8) && j < |es| && at == 4 + 10 * j && base == 8 + 10 * |es|
    ensures base <= |p| && EntryLaid(p, |es|, j, es[j].text, es[j].catset)
  {
    var h := HeadAt(es, j);
    HeadIsAt(p, es, j, 10 * j);
    TextIsAt(p, es, j, base, h.off);
    HeadIsNarrow(es, utf8, j);
    EntryFrom(p, |es|, j, at, base, h, es[j].text);
  }

  lemma StringsAreLaid(p: Bytes, es: seq<StrEntry>, utf8: Utf8)
    requires p == StringPayload(es) && StringFits(es, utf8)
    ensures StringsLaid(p, es)
  {
    PoolStands(p, es, 8 + 10 * |es|);
    CountsAreLaid(p, es, 4 + 10 * |es|);
    forall j | 0 <= j < |es| ensures EntryLaid(p, |es|, j, es[j].text, es[j].catset) {
      EntryIsLaid(p, es, utf8, j, 4 + 10 * j, 8 + 10 * |es|);
    }
  }

  // ----- category sets and ranges

  /** Words to a set, number of sets, and the words in eight bytes each. */
  ghost predicate SetsLaid(p: Bytes, words: nat, catsets: seq<nat>) {
    && |p| == 8 + 8 * |catsets| && NumberAt(p, 0, 4) == words && words * NumberAt(p, 4, 4) == |catsets|
    && forall j :: 0 <= j < |catsets| ==> NumberAt(p, 8 + 8 * j, 8) == catsets[j]
  }

  lemma WordIsLaid(p: Bytes, catsets: seq<nat>, j: nat, x: nat, rows: seq<Bytes>)
    requires j < |catsets| && ValidMask(catsets) && x == 8 * j
    requires rows == WordRows(catsets) && StandsAt(p, 8, Flatten(rows))
    ensures 8 + x + 8 <= |p| && NumberAt(p, 8 + x, 8) == catsets[j]
  {
    Widths();
    RowAt(p, 8, rows, 8, j, x);
    NumberStands(p, 8 + x, rows[j], catsets[j], 8);
  }

  lemma SetsAreLaid(p: Bytes, words: nat, catsets: seq<nat>)
    requires CatsetSection(p, words, catsets)
    ensures SetsLaid(p, words, catsets)
  {
    var n: nat :| CatsetLayout(p, words, n, catsets);
    Widths();
    var rows := WordRows(catsets);
    FlattenLength(rows, 8);
    ThreeParts(p, LE(words, 4), LE(n, 4), Flatten(rows));
    NumberStands(p, 0, LE(words, 4), words, 4);
    NumberStands(p, 4, LE(n, 4), n, 4);
    forall j | 0 <= j < |catsets| ensures NumberAt(p, 8 + 8 * j, 8) == catsets[j] {
      WordIsLaid(p, catsets, j, 8 * j, rows);
    }
  }

  /** A range: first and last address in `w` bytes each, and its category set in four. */
  ghost predicate RangeLaid(p: Bytes, at: nat, w: nat, r: Range)
    requires at + 2 * w + 4 <= |p|
  {
    NumberAt(p, at, w) == r.lo && NumberAt(p, at + w, w) == r.hi && NumberAt(p, at + 2 * w, 4) == r.catset
  }

  ghost predicate RangesLaid4(p: Bytes, rs: seq<Range>) {
    && |p| == 4 + 12 * |rs| && NumberAt(p, 0, 4) == |rs|
    && forall j :: 0 <= j < |rs| ==> RangeLaid(p, 4 + 12 * j, 4, rs[j])
  }

  ghost predicate RangesLaid6(p: Bytes, rs: seq<Range>) {
    && |p| == 4 + 36 * |rs| && NumberAt(p, 0, 4) == |rs|
    && forall j :: 0 <= j < |rs| ==> RangeLaid(p, 4 + 36 * j, 16, rs[j])
  }

  lemma RangeAtLaid(p: Bytes, at: nat, r: Range, v6: bool, w: nat)
    requires w == Width(v6) && StandsAt(p, at, RangeRow(r, v6))
    requires r.lo < AddressLimit(v6) && r.hi < AddressLimit(v6) && r.catset < U32_LIMIT
    ensures at + 2 * w + 4 <= |p| && RangeLaid(p, at, w, r)
  {
    Widths();
    var row, a, b, c := RangeRow(r, v6), LE(r.lo, w), LE(r.hi, w), LE(r.catset, 4);
    ThreeParts(row, a, b, c);
    FieldIs(p, at, row, 0, a, r.lo, w);
    FieldIs(p, at, row, w, b, r.hi, w);
    FieldIs(p, at, row, w + w, c, r.catset, 4);
  }

  lemma RangesStand(p: Bytes, rs: seq<Range>, v6: bool, rows: seq<Bytes>)
    requires RangeSection(p, rs, v6) && rows == RangeRows(rs, v6)
    ensures |p| == 4 + RangeBytes(|rs|, v6) && NumberAt(p, 0, 4) == |rs| && StandsAt(p, 4, Flatten(rows))
  {
    Widths();
    RangeSlices(rs, v6);
    TwoParts(p, LE(|rs|, 4), Flatten(rows));
    NumberStands(p, 0, LE(|rs|, 4), |rs|, 4);
  }

  lemma RangeIsLaid(p: Bytes, rs: seq<Range>, v6: bool, rows: seq<Bytes>, j: nat, width: nat, x: nat)
    requires TypedRanges(rs, AddressLimit(v6)) && rows == RangeRows(rs, v6) && StandsAt(p, 4, Flatten(rows))
    requires j < |rs| && width == RangeBytes(1, v6) && x == j * width
    ensures 4 + x + 2 * Width(v6) + 4 <= |p| && RangeLaid(p, 4 + x, Width(v6), rs[j])
  {
    assert rs[j] in rs;
    RowAt(p, 4, rows, width, j, x);
    RangeAtLaid(p, 4 + x, rs[j], v6, Width(v6));
  }

  lemma RangesAreLaid4(p: Bytes, rs: seq<Range>)
    requires RangeSection(p, rs, false)
    ensures RangesLaid4(p, rs)
  {
    var rows := RangeRows(rs, false);
    RangesStand(p, rs, false, rows);
    forall j | 0 <= j < |rs| ensures RangeLaid(p, 4 + 12 * j, 4, rs[j]) {
      RangeIsLaid(p, rs, false, rows, j, 12, 12 * j);
    }
  }

  lemma RangesAreLaid6(p: Bytes, rs: seq<Range>)
    requires RangeSection(p, rs, true)
    ensures RangesLaid6(p, rs)
  {
    var rows := RangeRows(rs, true);
    RangesStand(p, rs, true, rows);
    forall j | 0 <= j < |rs| ensures RangeLaid(p, 4 + 36 * j, 16, rs[j]) {
      RangeIsLaid(p, rs, true, rows, j, 36, 36 * j);
    }
  }

  // ----- the container

  /** Row `i` of the section table: kind, offset and length. */
  ghost predicate RowLaid(bytes: Bytes, i: nat, e: TableEntry)
    requires i < 7 && |bytes| >= 160
  {
    && NumberAt(bytes, 20 + 20 * i, 4) == e.kind && NumberAt(bytes, 20 + 20 * i + 4, 8) == e.off
    && NumberAt(bytes, 20 + 20 * i + 12, 8) == e.len
  }

  /** "RAB1", version 1, the epoch, seven sections and their table. */
  ghost predicate FrontLaid(bytes: Bytes, epoch: nat, t: seq<TableEntry>) {
    && |bytes| >= 160 && |t| == 7 && StandsAt(bytes, 0, Ascii("RAB1")) && NumberAt(bytes, 4, 2) == 1
    && NumberAt(bytes, 6, 2) == 0 && NumberAt(bytes, 8, 8) == epoch && NumberAt(bytes, 16, 4) == 7
    && forall i :: 0 <= i < 7 ==> RowLaid(bytes, i, t[i])
  }

  lemma HeaderParts(h: Bytes, a: Bytes, b: Bytes, c: Bytes, d: Bytes, e: Bytes)
    requires h == a + b + c + d + e
    ensures StandsAt(h, 0, a) && StandsAt(h, |a|, b) && StandsAt(h, |a| + |b|, c)
    ensures StandsAt(h, |a| + |b| + |c|, d) && StandsAt(h, |a| + |b| + |c| + |d|, e)
  {
    FourParts(a + b + c + d, a, b, c, d);
    TwoParts(h, a + b + c + d, e);
  }

  lemma HeaderWords(bytes: Bytes, h: Bytes, version: nat, reserved: nat)
    requires version < 0x1_0000 && reserved < 0x1_0000
    requires StandsAt(bytes, 0, h) && StandsAt(h, 4, LE(version, 2)) && StandsAt(h, 6, LE(reserved, 2))
    ensures |bytes| >= 8 && NumberAt(bytes, 4, 2) == version && NumberAt(bytes, 6, 2) == reserved
  {
    Widths();
    FieldIs(bytes, 0, h, 4, LE(version, 2), version, 2);
    FieldIs(bytes, 0, h, 6, LE(reserved, 2), reserved, 2);
  }

  lemma HeaderCounts(bytes: Bytes, h: Bytes, epoch: nat, count: nat)
    requires epoch < WORD_LIMIT && count < 0x1_0000_0000
    requires StandsAt(bytes, 0, h) && StandsAt(h, 8, LE(epoch, 8)) && StandsAt(h, 16, LE(count, 4))
    ensures |bytes| >= 20 && NumberAt(bytes, 8, 8) == epoch && NumberAt(bytes, 16, 4) == count
  {
    Widths();
    FieldIs(bytes, 0, h, 8, LE(epoch, 8), epoch, 8);
    FieldIs(bytes, 0, h, 16, LE(count, 4), count, 4);
  }

  lemma HeaderIsLaid(bytes: Bytes, epoch: nat)
    requires StandsAt(bytes, 0, Header(epoch)) && epoch < WORD_LIMIT
    ensures |bytes| >= 20 && StandsAt(bytes, 0, Ascii("RAB1"))
    ensures NumberAt(bytes, 4, 2) == 1 && NumberAt(bytes, 6, 2) == 0
    ensures NumberAt(bytes, 8, 8) == epoch && NumberAt(bytes, 16, 4) == 7
  {
    var h := Header(epoch);
    HeaderParts(h, MAGIC, LE(1, 2), LE(0, 2), LE(epoch, 8), LE(7, 4));
    HeaderWords(bytes, h, 1, 0);
    HeaderCounts(bytes, h, epoch, 7);
    assert Ascii("RAB1") == MAGIC;
    StandsWithin(bytes, 0, h, 0, MAGIC);
  }

  lemma RowIsLaid(bytes: Bytes, i: nat, at: nat, e: TableEntry)
    requires i < 7 && |bytes| >= 160 && at == 20 + 20 * i && StandsAt(bytes, at, TableRow(e)) && WideEntry(e)
    ensures RowLaid(bytes, i, e)
  {
    Widths();
    var row, a, b, c := TableRow(e), LE(e.kind, 4), LE(e.off, 8), LE(e.len, 8);
    ThreeParts(row, a, b, c);
    FieldIs(bytes, at, row, 0, a, e.kind, 4);
    FieldIs(bytes, at, row, 4, b, e.off, 8);
    FieldIs(bytes, at, row, 12, c, e.len, 8);
  }

  lemma FrontParts(bytes: Bytes, body: Bytes, epoch: nat, t: seq<TableEntry>, table: Bytes)
    requires HeaderOf(body, epoch, t) && body <= bytes && table == Flatten(TableRows(t))
    ensures |bytes| >= 160 && StandsAt(bytes, 0, Header(epoch)) && StandsAt(bytes, 20, table)
  {
    FlattenLength(TableRows(t), 20);
    var front := Header(epoch) + table;
    assert bytes[..160] == front;
    SliceStands(bytes, 0, 160, front);
    TwoParts(front, Header(epoch), table);
    StandsWithin(bytes, 0, front, 0, Header(epoch));
    StandsWithin(bytes, 0, front, 20, table);
  }

  lemma FrontIsLaid(bytes: Bytes, body: Bytes, epoch: nat, t: seq<TableEntry>)
    requires HeaderOf(body, epoch, t) && body <= bytes
    ensures FrontLaid(bytes, epoch, t)
  {
    var rows := TableRows(t);
    FrontParts(bytes, body, epoch, t, Flatten(rows));
    HeaderIsLaid(bytes, epoch);
    forall i | 0 <= i < 7 ensures RowLaid(bytes, i, t[i]) {
      RowAt(bytes, 20, rows, 20, i, 20 * i);
      RowIsLaid(bytes, i, 20 + 20 * i, t[i]);
    }
  }

  /** A category is laid out like an entry, its parent in the set's place. */
  ghost predicate NamesLaid(p: Bytes, cats: seq<Category>) {
    && 8 + 10 * |cats| <= |p| && NumberAt(p, 0, 4) == |cats|
    && NumberAt(p, 4 + 10 * |cats|, 4) == |p| - (8 + 10 * |cats|)
    && forall j :: 0 <= j < |cats| ==> EntryLaid(p, |cats|, j, cats[j].name, cats[j].parent)
  }

  lemma NamesAsEntries(p: Bytes, cats: seq<Category>)
    requires StringsLaid(p, AsEntries(cats))
    ensures NamesLaid(p, cats)
  {
    var es := AsEntries(cats);
    forall j | 0 <= j < |cats| ensures EntryLaid(p, |cats|, j, cats[j].name, cats[j].parent) {
      assert EntryLaid(p, |es|, j, es[j].text, es[j].catset);
    }
  }

  /** What stands in the section of a kind. */
  ghost predicate SectionLaid(p: Bytes, kind: nat, b: RawBook) {
    && (kind == 1 ==> NamesLaid(p, b.categories))
    && (kind == 2 ==> SetsLaid(p, b.words, b.catsets))
    && (kind == 3 ==> RangesLaid4(p, b.ip4)) && (kind == 4 ==> RangesLaid6(p, b.ip6))
    && (kind == 5 ==> StringsLaid(p, b.exact)) && (kind == 6 ==> StringsLaid(p, b.suffix))
    && (kind == 7 ==> StringsLaid(p, b.keywords))
  }

  lemma NamesAreLaid(p: Bytes, b: RawBook, utf8: Utf8)
    requires Encodes(1, PartOf(b, 1), p, utf8)
    ensures SectionLaid(p, 1, b)
  {
    StringsAreLaid(p, AsEntries(b.categories), utf8);
    NamesAsEntries(p, b.categories);
  }

  lemma TextsAreLaid(p: Bytes, kind: nat, b: RawBook, utf8: Utf8)
    requires kind in {5, 6, 7} && Encodes(kind, PartOf(b, kind), p, utf8)
    ensures SectionLaid(p, kind, b)
  {
    StringsAreLaid(p, PartOf(b, kind).entries, utf8);
  }

  lemma SectionIsLaid(p: Bytes, kind: nat, b: RawBook, utf8: Utf8)
    requires kind in ALL_KINDS && Encodes(kind, PartOf(b, kind), p, utf8)
    ensures SectionLaid(p, kind, b)
  {
    match kind
    case 1 => NamesAreLaid(p, b, utf8);
    case 2 => SetsAreLaid(p, b.words, b.catsets);
    case 3 => RangesAreLaid4(p, b.ip4);
    case 4 => RangesAreLaid6(p, b.ip6);
    case _ => TextsAreLaid(p, kind, b, utf8);
  }

  /** Everything in its place: the front, each of the seven kinds once, and its section
      between the offset and the length that its row gives; then the digest of it all. */
  ghost predicate BytesLaid(bytes: Bytes, b: RawBook, sha: Sha, t: seq<TableEntry>) {
    && FrontLaid(bytes, b.epoch, t) && (forall k :: k in {1, 2, 3, 4, 5, 6, 7} ==> HasKind(t, 7, k))
    && (forall i :: 0 <= i < 7 ==> PlacedAt(bytes, t[i], b))
    && bytes[|bytes| - 32..] == sha(bytes[..|bytes| - 32])
  }

  lemma CodedIsLaid(kind: nat, b: RawBook, p: Bytes, utf8: Utf8, coding: Coding, part: Part)
    requires kind in ALL_KINDS && part == PartOf(b, kind) && coding(kind, part, p) && IsEncoding(coding, utf8)
    ensures SectionLaid(p, kind, b)
  {
    assert Encodes(kind, part, p, utf8);
    SectionIsLaid(p, kind, b, utf8);
  }

  lemma PayloadIs(bytes: Bytes, body: Bytes, e: TableEntry)
    requires |bytes| == |body| + 32 && body == bytes[..|body|] && e.off + e.len <= |body|
    ensures Payload(body, e) == bytes[e.off..e.off + e.len]
  {
  }

  ghost predicate PlacedAt(bytes: Bytes, e: TableEntry, b: RawBook) {
    && 160 <= e.off && e.off + e.len <= |bytes| - 32
    && SectionLaid(bytes[e.off..e.off + e.len], e.kind, b)
  }

  lemma CodedIsPlaced(bytes: Bytes, e: TableEntry, b: RawBook, utf8: Utf8, coding: Coding, part: Part, p: Bytes)
    requires 160 <= e.off && e.off + e.len <= |bytes| - 32 && p == bytes[e.off..e.off + e.len]
    requires e.kind in ALL_KINDS && IsEncoding(coding, utf8) && part == PartOf(b, e.kind) && coding(e.kind, part, p)
    ensures PlacedAt(bytes, e, b)
  {
    CodedIsLaid(e.kind, b, p, utf8, coding, part);
  }

  lemma WithinBody(t: seq<TableEntry>, body: Bytes, i: nat)
    requires Tiles(t, PAYLOAD_START, |body|) && i < |t|
    ensures 160 <= t[i].off && t[i].off + t[i].len <= |body|
  {
  }

  lemma CodedIn(b: RawBook, body: Bytes, t: seq<TableEntry>, coding: Coding, i: nat, part: Part)
    requires Fits(b, body, t, coding) && i < |t| && part == PartOf(b, t[i].kind)
    ensures t[i].kind in ALL_KINDS && coding(t[i].kind, part, Payload(body, t[i]))
  {
  }

  lemma PlacedOne(bytes: Bytes, body: Bytes, e: TableEntry, b: RawBook, utf8: Utf8, coding: Coding, part: Part)
    requires 160 <= e.off && e.off + e.len <= |body| && |bytes| == |body| + 32 && body == bytes[..|body|]
    requires e.kind in ALL_KINDS && part == PartOf(b, e.kind) && coding(e.kind, part, Payload(body, e))
    requires IsEncoding(coding, utf8)
    ensures PlacedAt(bytes, e, b)
  {
    PayloadIs(bytes, body, e);
    CodedIsPlaced(bytes, e, b, utf8, coding, part, Payload(body, e));
  }

  lemma Placed(bytes: Bytes, body: Bytes, t: seq<TableEntry>, b: RawBook, utf8: Utf8, coding: Coding, i: nat,
               part: Part)
    requires Tiles(t, PAYLOAD_START, |body|) && Fits(b, body, t, coding) && IsEncoding(coding, utf8) && i < |t|
    requires |bytes| == |body| + 32 && body == bytes[..|body|] && part == PartOf(b, t[i].kind)
    ensures PlacedAt(bytes, t[i], b)
  {
    WithinBody(t, body, i);
    CodedIn(b, body, t, coding, i, part);
    PlacedOne(bytes, body, t[i], b, utf8, coding, part);
  }

  lemma LaidBytes(bytes: Bytes, t: seq<TableEntry>, b: RawBook, sha: Sha, utf8: Utf8, coding: Coding)
    requires Sealed(bytes, sha) && Laid(BodyBytes(bytes), t, b, coding) && IsEncoding(coding, utf8)
    ensures BytesLaid(bytes, b, sha, t)
  {
    var body := BodyBytes(bytes);
    FrontIsLaid(bytes, body, b.epoch, t);
    KindsCover(t);
    forall i | 0 <= i < 7 ensures PlacedAt(bytes, t[i], b) {
      Placed(bytes, body, t, b, utf8, coding, i, PartOf(b, t[i].kind));
    }
  }

  /** In every artifact, whoever wrote it, everything is in its place. */
  lemma ArtifactIsLaid(bytes: Bytes, b: RawBook, sha: Sha, utf8: Utf8) returns (t: seq<TableEntry>)
    requires Artifact(bytes, b, sha, utf8)
    ensures BytesLaid(bytes, b, sha, t)
  {
    ArtifactLaid(bytes, b, sha, utf8);
    t :| Laid(BodyBytes(bytes), t, b, Encoding(utf8));
    LaidBytes(bytes, t, b, sha, utf8, Encoding(utf8));
  }

  // ----- the decoder's limits

  /** The bytes of all texts together. */
  function TextBytes(texts: seq<Bytes>): nat {
    if texts == [] then 0 else TextBytes(texts[..|texts| - 1]) + |texts[|texts| - 1]|
  }

  lemma {:induction false} TextsTogether(texts: seq<Bytes>)
    ensures |Flatten(texts)| == TextBytes(texts)
  {
    if texts != [] {
      TextsTogether(texts[..|texts| - 1]);
      FlattenSnoc(texts[..|texts| - 1], texts[|texts| - 1]);
      assert texts == texts[..|texts| - 1] + [texts[|texts| - 1]];
    }
  }

  /** What strings cost to decode: 82 bytes each, 8 for the section, and the texts. */
  function StringCharge(texts: seq<Bytes>): nat {
    82 * |texts| + 8 + TextBytes(texts)
  }

  lemma StringsCharged(es: seq<StrEntry>)
    ensures StringHeap(es) == StringCharge(Texts(es))
  {
    StringPayloadLength(es);
    TextsTogether(Texts(es));
  }

  lemma CategoriesCharged(cats: seq<Category>)
    ensures StringHeap(AsEntries(cats)) == StringCharge(Names(cats))
  {
    StringsCharged(AsEntries(cats));
    assert Texts(AsEntries(cats)) == Names(cats);
  }

  lemma BookCharged(b: RawBook)
    ensures HeapOf(b, ALL_KINDS) ==
            StringHeap(AsEntries(b.categories)) + 8 * |b.catsets| + 12 * |b.ip4| + 48 * |b.ip6|
            + StringHeap(b.exact) + StringHeap(b.suffix) + StringHeap(b.keywords)
  {
    assert HeapIf(b, 2, ALL_KINDS) == 8 * |b.catsets|;
  }

  predicate FewEntries(b: RawBook) {
    && |b.categories| <= 100_000 && |b.catsets| <= 8_000_000 && |b.ip4| <= 8_000_000 && |b.ip6| <= 8_000_000
    && |b.exact| <= 8_000_000 && |b.suffix| <= 8_000_000 && |b.keywords| <= 8_000_000
  }

  lemma EntriesIff(b: RawBook)
    ensures (forall k :: k in ALL_KINDS ==> PartReadable(k, PartOf(b, k))) <==> FewEntries(b)
  {
    if forall k :: k in ALL_KINDS ==> PartReadable(k, PartOf(b, k)) {
      assert PartReadable(1, PartOf(b, 1)) && PartReadable(2, PartOf(b, 2)) && PartReadable(3, PartOf(b, 3));
      assert PartReadable(4, PartOf(b, 4)) && PartReadable(5, PartOf(b, 5)) && PartReadable(6, PartOf(b, 6));
      assert PartReadable(7, PartOf(b, 7));
    }
  }

  /** A book is small enough to be decoded exactly if none of its tables has too many
      entries and all of them together take at most 256 MiB. */
  lemma ReadableIff(b: RawBook)
    ensures Readable(b) <==>
            && FewEntries(b)
            && StringCharge(Names(b.categories)) + 8 * |b.catsets| + 12 * |b.ip4| + 48 * |b.ip6|
               + StringCharge(Texts(b.exact)) + StringCharge(Texts(b.suffix)) + StringCharge(Texts(b.keywords))
               <= 268_435_456
  {
    CategoriesCharged(b.categories);
    StringsCharged(b.exact);
    StringsCharged(b.suffix);
    StringsCharged(b.keywords);
    EntriesIff(b);
    BookCharged(b);
  }
}
