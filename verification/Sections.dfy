/** The `.rab` v1 wire layout: section payloads, header, section table, and what
    it means for a byte string to be the artifact of a book. */
module Sections {
  import opened Words
  import opened Text
  import opened BookFormat
  import opened Flattening
  import opened LittleEndian

  const MAGIC: Bytes := [82, 65, 66, 49]
  const FORMAT_VERSION: nat := 1
  const CHECKSUM_LEN: nat := 32
  const SECTION_COUNT: nat := 7
  const HEADER_LEN: nat := 20
  const PAYLOAD_START: nat := 160

  const SEC_CATEGORIES: nat := 1
  const SEC_CATSETS: nat := 2
  const SEC_IP4: nat := 3
  const SEC_IP6: nat := 4
  const SEC_DOMAIN_EXACT: nat := 5
  const SEC_DOMAIN_SUFFIX: nat := 6
  const SEC_KEYWORD: nat := 7

  const MAX_ENTRIES: nat := 8_000_000
  const MAX_DECODED_HEAP_BYTES: nat := 268_435_456

  /** `size_of` the header triple, of an entry, and the per-string overhead. */
  const STRING_COST: nat := 24 + 32 + 16

  /** SHA-256 and UTF-8 validation are libraries': parameters. */
  type Digest = d: Bytes | |d| == 32 witness seq(32, _ => 0)

  type Sha = Bytes -> Digest

  type Utf8 = Bytes -> bool

  // ----- string sections

  /** A category is laid out like an entry, its parent in the set's place. */
  function AsEntries(cats: seq<Category>): (r: seq<StrEntry>)
    ensures |r| == |cats| && forall i :: 0 <= i < |cats| ==> r[i] == StrEntry(cats[i].name, cats[i].parent)
  {
    seq(|cats|, i requires 0 <= i < |cats| => StrEntry(cats[i].name, cats[i].parent))
  }

  function AsCategories(es: seq<StrEntry>): (r: seq<Category>)
    ensures |r| == |es| && forall i :: 0 <= i < |es| ==> r[i] == Category(es[i].text, es[i].catset)
  {
    seq(|es|, i requires 0 <= i < |es| => Category(es[i].text, es[i].catset))
  }

  lemma CategoriesAreEntries(cats: seq<Category>, es: seq<StrEntry>)
    ensures AsEntries(cats) == es <==> cats == AsCategories(es)
  {
    if AsEntries(cats) == es {
      assert |cats| == |es|;
      forall i | 0 <= i < |cats| ensures cats[i] == AsCategories(es)[i] { assert AsEntries(cats)[i] == es[i]; }
    }
    if cats == AsCategories(es) {
      forall i | 0 <= i < |es| ensures AsEntries(cats)[i] == es[i] { assert cats[i] == AsCategories(es)[i]; }
    }
  }

  /** All texts end to end. */
  function Pool(es: seq<StrEntry>): Bytes {
    Flatten(Texts(es))
  }

  lemma PoolSnoc(es: seq<StrEntry>, e: StrEntry)
    ensures Pool(es + [e]) == Pool(es) + e.text
  {
    assert Texts(es + [e]) == Texts(es) + [e.text];
    FlattenSnoc(Texts(es), e.text);
  }

  datatype Head = Head(off: nat, len: nat, tag: nat)

  function HeadRow(h: Head): (r: Bytes)
    ensures |r| == 10
  {
    LE(h.off, 4) + LE(h.len, 2) + LE(h.tag, 4)
  }

  function HeadAt(es: seq<StrEntry>, i: nat): Head
    requires i < |es|
  {
    Head(|Pool(es[..i])|, |es[i].text|, es[i].catset)
  }

  function HeadsOf(es: seq<StrEntry>): (r: seq<Head>)
    ensures |r| == |es| && forall i :: 0 <= i < |es| ==> r[i] == HeadAt(es, i)
  {
    seq(|es|, i requires 0 <= i < |es| => HeadAt(es, i))
  }

  function HeadRows(hs: seq<Head>): (r: seq<Bytes>)
    ensures |r| == |hs| && forall i :: 0 <= i < |hs| ==> r[i] == HeadRow(hs[i])
  {
    seq(|hs|, i requires 0 <= i < |hs| => HeadRow(hs[i]))
  }

  function StringPayload(es: seq<StrEntry>): Bytes {
    LE(|es|, 4) + Flatten(HeadRows(HeadsOf(es))) + LE(|Pool(es)|, 4) + Pool(es)
  }

  /** Every field of the section fits its width and every text is UTF-8. */
  ghost predicate StringFits(es: seq<StrEntry>, utf8: Utf8) {
    && |es| < U32_LIMIT && |Pool(es)| < U32_LIMIT
    && forall i :: 0 <= i < |es| ==> |es[i].text| < 0x1_0000 && es[i].catset < U32_LIMIT && utf8(es[i].text)
  }

  /** The payload encodes these entries, and there are at most `max`. */
  ghost predicate StringSection(payload: Bytes, es: seq<StrEntry>, max: nat, utf8: Utf8) {
    payload == StringPayload(es) && StringFits(es, utf8) && |es| <= max
  }

  // ----- category sets and ranges

  function WordRows(ws: seq<nat>): (r: seq<Bytes>)
    ensures |r| == |ws| && forall i :: 0 <= i < |ws| ==> r[i] == LE(ws[i], 8)
  {
    seq(|ws|, i requires 0 <= i < |ws| => LE(ws[i], 8))
  }

  /** Number of words in `n` sets. */
  function TotalWords(words: nat, n: nat): nat {
    words * n
  }

  function CatsetPayload(words: nat, n: nat, catsets: seq<nat>): Bytes {
    LE(words, 4) + LE(n, 4) + Flatten(WordRows(catsets))
  }

  ghost predicate CatsetLayout(payload: Bytes, words: nat, n: nat, catsets: seq<nat>) {
    && words < U32_LIMIT && n < U32_LIMIT && TotalWords(words, n) == |catsets| <= MAX_ENTRIES && ValidMask(catsets)
    && payload == CatsetPayload(words, n, catsets)
  }

  /** The count is free only when there are no words. */
  ghost predicate CatsetSection(payload: Bytes, words: nat, catsets: seq<nat>) {
    exists n: nat :: CatsetLayout(payload, words, n, catsets)
  }

  /** Bytes of an address: 4 for IPv4, 16 for IPv6. */
  function Width(v6: bool): nat {
    if v6 then 16 else 4
  }

  /** Bytes of `n` range records. */
  function RangeBytes(n: nat, v6: bool): nat {
    if v6 then 36 * n else 12 * n
  }

  /** Heap charged for `n` decoded ranges: `size_of` the tuple times `n`. */
  function RangeHeap(n: nat, v6: bool): nat {
    if v6 then 48 * n else 12 * n
  }

  function RangeRow(r: Range, v6: bool): (row: Bytes)
    ensures |row| == RangeBytes(1, v6)
  {
    LE(r.lo, Width(v6)) + LE(r.hi, Width(v6)) + LE(r.catset, 4)
  }

  function RangeRows(rs: seq<Range>, v6: bool): (r: seq<Bytes>)
    ensures |r| == |rs| && forall i :: 0 <= i < |rs| ==> r[i] == RangeRow(rs[i], v6)
  {
    seq(|rs|, i requires 0 <= i < |rs| => RangeRow(rs[i], v6))
  }

  function RangePayload(rs: seq<Range>, v6: bool): Bytes {
    LE(|rs|, 4) + Flatten(RangeRows(rs, v6))
  }

  function AddressLimit(v6: bool): nat {
    if v6 then U128_LIMIT else U32_LIMIT
  }

  ghost predicate RangeSection(payload: Bytes, rs: seq<Range>, v6: bool) {
    |rs| <= MAX_ENTRIES && TypedRanges(rs, AddressLimit(v6)) && payload == RangePayload(rs, v6)
  }

  // ----- the container

  datatype TableEntry = TableEntry(kind: nat, off: nat, len: nat)

  function TableRow(e: TableEntry): (r: Bytes)
    ensures |r| == 20
  {
    LE(e.kind, 4) + LE(e.off, 8) + LE(e.len, 8)
  }

  function TableRows(t: seq<TableEntry>): (r: seq<Bytes>)
    ensures |r| == |t| && forall i :: 0 <= i < |t| ==> r[i] == TableRow(t[i])
  {
    seq(|t|, i requires 0 <= i < |t| => TableRow(t[i]))
  }

  function Header(epoch: nat): (r: Bytes)
    ensures |r| == HEADER_LEN
  {
    MAGIC + LE(FORMAT_VERSION, 2) + LE(0, 2) + LE(epoch, 8) + LE(SECTION_COUNT, 4)
  }

  predicate HasByte(e: TableEntry, p: nat) {
    e.off <= p < e.off + e.len
  }

  ghost predicate InSomeSection(t: seq<TableEntry>, p: nat) {
    exists i :: 0 <= i < |t| && HasByte(t[i], p)
  }

  /** Every byte of `start .. end` lies in exactly one section, and the sections
      contain no other byte. */
  ghost predicate Tiles(t: seq<TableEntry>, start: nat, end: nat) {
    && (forall i :: 0 <= i < |t| ==> start <= t[i].off && t[i].off + t[i].len <= end)
    && (forall p: nat :: start <= p < end ==> InSomeSection(t, p))
    && (forall i, j, p :: 0 <= i < j < |t| ==> !(HasByte(t[i], p) && HasByte(t[j], p)))
  }

  /** What one section holds. */
  datatype Part = Strings(entries: seq<StrEntry>) | Sets(words: nat, catsets: seq<nat>) | Ranges(ranges: seq<Range>)

  function PartOf(b: RawBook, kind: nat): Part {
    match kind
    case 1 => Strings(AsEntries(b.categories))
    case 2 => Sets(b.words, b.catsets)
    case 3 => Ranges(b.ip4)
    case 4 => Ranges(b.ip6)
    case 5 => Strings(b.exact)
    case 6 => Strings(b.suffix)
    case 7 => Strings(b.keywords)
    case _ => Strings([])
  }

  /** The payload is the canonical encoding of the part, within the decoder's
      count limits. */
  ghost predicate Encodes(kind: nat, part: Part, payload: Bytes, utf8: Utf8) {
    match part
    case Strings(es) =>
      kind in {1, 5, 6, 7} && StringSection(payload, es, if kind == 1 then MAX_CATEGORIES else MAX_ENTRIES, utf8)
    case Sets(words, catsets) => kind == 2 && CatsetSection(payload, words, catsets)
    case Ranges(rs) => kind in {3, 4} && RangeSection(payload, rs, kind == 4)
  }

  function StringHeap(es: seq<StrEntry>): nat {
    |es| * STRING_COST + |StringPayload(es)|
  }

  /** What the decoder charges for a section. */
  function PartHeap(kind: nat, part: Part): nat {
    match part
    case Strings(es) => StringHeap(es)
    case Sets(_, catsets) => |catsets| * 8
    case Ranges(rs) => RangeHeap(|rs|, kind == 4)
  }

  function HeapIf(b: RawBook, kind: nat, kinds: set<nat>): nat {
    if kind in kinds then PartHeap(kind, PartOf(b, kind)) else 0
  }

  /** The charge for the sections in `kinds`. */
  function HeapOf(b: RawBook, kinds: set<nat>): nat {
    HeapIf(b, 1, kinds) + HeapIf(b, 2, kinds) + HeapIf(b, 3, kinds) + HeapIf(b, 4, kinds)
    + HeapIf(b, 5, kinds) + HeapIf(b, 6, kinds) + HeapIf(b, 7, kinds)
  }

  const ALL_KINDS: set<nat> := {1, 2, 3, 4, 5, 6, 7}

  ghost predicate KindsOnce(t: seq<TableEntry>) {
    && (forall i :: 0 <= i < |t| ==> t[i].kind in ALL_KINDS)
    && forall i, j :: 0 <= i < j < |t| ==> t[i].kind != t[j].kind
  }

  predicate WideEntry(e: TableEntry) {
    e.kind < U32_LIMIT && e.off < WORD_LIMIT && e.len < WORD_LIMIT
  }

  /** The first bytes are the header and the section table `t`. */
  ghost predicate HeaderOf(body: Bytes, epoch: nat, t: seq<TableEntry>) {
    && PAYLOAD_START <= |body| && |t| == SECTION_COUNT && epoch < WORD_LIMIT
    && (forall i :: 0 <= i < |t| ==> WideEntry(t[i]))
    && body[..PAYLOAD_START] == Header(epoch) + Flatten(TableRows(t))
  }

  function Payload(body: Bytes, e: TableEntry): Bytes {
    if e.off + e.len <= |body| then body[e.off..e.off + e.len] else []
  }

  /** Each of the seven kinds occurs once, the sections tile the bytes after the
      table, and each holds exactly its part of the book. */
  ghost predicate BodyOf(body: Bytes, t: seq<TableEntry>, b: RawBook, utf8: Utf8) {
    && HeaderOf(body, b.epoch, t) && KindsOnce(t) && Tiles(t, PAYLOAD_START, |body|)
    && forall i :: 0 <= i < |t| ==> Encodes(t[i].kind, PartOf(b, t[i].kind), Payload(body, t[i]), utf8)
  }

  /** Everything before the checksum. */
  function BodyBytes(bytes: Bytes): Bytes {
    if |bytes| < CHECKSUM_LEN then [] else bytes[..|bytes| - CHECKSUM_LEN]
  }

  /** The byte string is an artifact of the book: sealed by its checksum, laid out
      canonically, within the heap budget, and the book is valid. */
  ghost predicate Artifact(bytes: Bytes, b: RawBook, sha: Sha, utf8: Utf8) {
    && Valid(b) && HeapOf(b, ALL_KINDS) <= MAX_DECODED_HEAP_BYTES
    && |bytes| >= CHECKSUM_LEN && bytes == BodyBytes(bytes) + sha(BodyBytes(bytes))
    && exists t :: BodyOf(BodyBytes(bytes), t, b, utf8)
  }
}
