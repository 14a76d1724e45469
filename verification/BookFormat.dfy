/** The decoded artifact and the structural invariants that builder, encoder and
    decoder share. */
module BookFormat {
  import opened Wrappers
  import opened Words
  import opened Text

  const NO_PARENT: nat := 0xFFFF_FFFF
  const MAX_CATEGORIES: nat := 100_000
  const U32_LIMIT: nat := 0x1_0000_0000
  const U128_LIMIT: nat := 0x1_0000_0000_0000_0000_0000_0000_0000_0000
  const MAPPED_START: nat := 0xFFFF_0000_0000
  const MAPPED_END: nat := 0xFFFF_FFFF_FFFF

  datatype Category = Category(name: Bytes, parent: nat)

  datatype StrEntry = StrEntry(text: Bytes, catset: nat)

  /** Inclusive address range. */
  datatype Range = Range(lo: nat, hi: nat, catset: nat)

  /** Set `i` occupies words `i * words .. (i + 1) * words` of `catsets`. */
  datatype RawBook = RawBook(
    epoch: nat,
    categories: seq<Category>,
    words: nat,
    catsets: seq<nat>,
    ip4: seq<Range>,
    ip6: seq<Range>,
    exact: seq<StrEntry>,
    suffix: seq<StrEntry>,
    keywords: seq<StrEntry>)

  // ----- the integer widths of the source's field types

  predicate TypedRanges(rs: seq<Range>, limit: nat) {
    forall r :: r in rs ==> r.lo < limit && r.hi < limit && r.catset < U32_LIMIT
  }

  predicate TypedEntries(es: seq<StrEntry>) {
    forall e :: e in es ==> e.catset < U32_LIMIT
  }

  predicate Typed(b: RawBook) {
    && b.epoch < WORD_LIMIT && b.words < U32_LIMIT
    && (forall c :: c in b.categories ==> c.parent < U32_LIMIT)
    && ValidMask(b.catsets)
    && TypedRanges(b.ip4, U32_LIMIT) && TypedRanges(b.ip6, U128_LIMIT)
    && TypedEntries(b.exact) && TypedEntries(b.suffix) && TypedEntries(b.keywords)
  }

  // ----- category sets

  function SetCount(b: RawBook): nat {
    if b.words == 0 then 0 else |b.catsets| / b.words
  }

  lemma RowBounds(b: RawBook, id: nat)
    requires id < SetCount(b)
    ensures 0 <= id * b.words <= id * b.words + b.words <= |b.catsets|
  {
    var n := SetCount(b);
    assert n * b.words <= |b.catsets|;
    assert (id + 1) * b.words <= n * b.words by { MulMonotone(id + 1, n, b.words); }
    assert (id + 1) * b.words == id * b.words + b.words;
  }

  lemma MulMonotone(x: nat, y: nat, k: nat)
    requires x <= y
    ensures x * k <= y * k
  {
  }

  function Row(b: RawBook, id: nat): (m: Mask)
    requires id < SetCount(b)
    ensures |m| == b.words
  {
    RowBounds(b, id);
    b.catsets[id * b.words..id * b.words + b.words]
  }

  lemma RowValid(b: RawBook, id: nat)
    requires id < SetCount(b) && ValidMask(b.catsets)
    ensures ValidMask(Row(b, id))
  {
    RowBounds(b, id);
  }

  // ----- paths and texts

  predicate IsPathByte(c: byte) {
    IsLowerAlnum(c) || c in {45, 95, 46, 64, 33}
  }

  predicate ValidSegment(seg: Bytes) {
    seg != [] && forall i :: 0 <= i < |seg| ==> IsPathByte(seg[i])
  }

  predicate ValidPath(name: Bytes) {
    forall seg :: seg in Split(name, SLASH) ==> ValidSegment(seg)
  }

  /** `rfind(c)` */
  function LastIndexOf(s: Bytes, c: byte): (r: Option<nat>)
    ensures r.None? ==> c !in s
    ensures r.Some? ==> r.value < |s| && s[r.value] == c && c !in s[r.value + 1..]
  {
    if s == [] then None
    else if s[|s| - 1] == c then Some(|s| - 1)
    else
      var r := LastIndexOf(s[..|s| - 1], c);
      assert s == s[..|s| - 1] + [s[|s| - 1]];
      assert r.Some? ==> s[r.value + 1..] == s[..|s| - 1][r.value + 1..] + [s[|s| - 1]];
      r
  }

  predicate ParentOk(cats: seq<Category>, c: Category) {
    match LastIndexOf(c.name, SLASH)
    case Some(k) => c.parent != NO_PARENT && c.parent < |cats| && cats[c.parent].name == c.name[..k]
    case None => c.parent == NO_PARENT
  }

  /** `is_normalized_match_text` */
  predicate IsNormalized(text: Bytes) {
    text == TrimByte(Trim(text), DOT) && !HasUpper(text)
  }

  function Names(cats: seq<Category>): (r: seq<Bytes>)
    ensures |r| == |cats| && forall i :: 0 <= i < |cats| ==> r[i] == cats[i].name
  {
    seq(|cats|, i requires 0 <= i < |cats| => cats[i].name)
  }

  function Texts(es: seq<StrEntry>): (r: seq<Bytes>)
    ensures |r| == |es| && forall i :: 0 <= i < |es| ==> r[i] == es[i].text
  {
    seq(|es|, i requires 0 <= i < |es| => es[i].text)
  }

  // ----- the invariants

  ghost predicate ValidCategories(cats: seq<Category>) {
    && |cats| <= MAX_CATEGORIES
    && Ascending(Names(cats))
    && forall i :: 0 <= i < |cats| ==> cats[i].name != [] && ValidPath(cats[i].name) && ParentOk(cats, cats[i])
  }

  /** Whole rows, one bit per category, no bit outside the category table. */
  ghost predicate ValidSets(b: RawBook) {
    && b.words == (|b.categories| + 63) / 64
    && (b.words == 0 ==> b.catsets == [])
    && (b.words > 0 ==> |b.catsets| % b.words == 0)
    && forall id: nat :: id < SetCount(b) ==> forall c :: c in Bits(Row(b, id)) ==> c < |b.categories|
  }

  ghost predicate ValidRanges(rs: seq<Range>, sets: nat) {
    && (forall i :: 0 <= i < |rs| ==> rs[i].lo <= rs[i].hi && rs[i].catset < sets)
    && (forall i, j :: 0 <= i < j < |rs| ==> rs[i].hi < rs[j].lo)
  }

  predicate AvoidsMapped(r: Range) {
    !(r.lo <= MAPPED_END && r.hi >= MAPPED_START)
  }

  ghost predicate ValidEntries(es: seq<StrEntry>, sets: nat) {
    && Ascending(Texts(es))
    && forall i :: 0 <= i < |es| ==> es[i].text != [] && IsNormalized(es[i].text) && es[i].catset < sets
  }

  ghost predicate Valid(b: RawBook) {
    && ValidCategories(b.categories)
    && ValidSets(b)
    && ValidRanges(b.ip4, SetCount(b))
    && ValidRanges(b.ip6, SetCount(b)) && (forall r :: r in b.ip6 ==> AvoidsMapped(r))
    && ValidEntries(b.exact, SetCount(b))
    && ValidEntries(b.suffix, SetCount(b))
    && ValidEntries(b.keywords, SetCount(b))
  }

  // ----- `validate`

  lemma {:induction false} NeighboursSuffice(xs: seq<Bytes>, i: nat, j: nat)
    requires forall k :: 0 <= k < |xs| - 1 ==> Less(xs[k], xs[k + 1])
    requires i < j < |xs|
    ensures Less(xs[i], xs[j])
    decreases j
  {
    if i < j - 1 {
      NeighboursSuffice(xs, i, j - 1);
      LessTransitive(xs[i], xs[j - 1], xs[j]);
    }
  }

  method CheckAscending(xs: seq<Bytes>) returns (ok: bool)
    ensures ok <==> Ascending(xs)
  {
    var i := 0;
    while i + 1 < |xs|
      invariant 0 <= i && (i == 0 || i < |xs|)
      invariant forall k :: 0 <= k < i ==> Less(xs[k], xs[k + 1])
    {
      if !Less(xs[i], xs[i + 1]) { return false; }
      i := i + 1;
    }
    forall a, b | 0 <= a < b < |xs| ensures Less(xs[a], xs[b]) { NeighboursSuffice(xs, a, b); }
    ok := true;
  }

  method CheckCategories(cats: seq<Category>) returns (ok: bool)
    ensures ok <==> ValidCategories(cats)
  {
    if |cats| > MAX_CATEGORIES { return false; }
    ok := CheckAscending(Names(cats));
    if !ok { return; }
    for i := 0 to |cats|
      invariant forall k :: 0 <= k < i ==> cats[k].name != [] && ValidPath(cats[k].name) && ParentOk(cats, cats[k])
    {
      if cats[i].name == [] || !ValidPath(cats[i].name) || !ParentOk(cats, cats[i]) { return false; }
      ParentPrecedes(cats, i);
      assert cats[i].parent == NO_PARENT || cats[i].parent < i;
    }
  }

  lemma {:induction false} FrontIsLess(p: Bytes, x: Bytes)
    requires p < x
    ensures Less(p, x)
  {
    if p != [] { FrontIsLess(p[1..], x[1..]); }
  }

  /** In a sorted table every parent stands before its children, so the validator's
      debug assertion never fires and following parents ends at a root. */
  lemma ParentPrecedes(cats: seq<Category>, i: nat)
    requires Ascending(Names(cats)) && i < |cats| && ParentOk(cats, cats[i])
    ensures cats[i].parent == NO_PARENT || cats[i].parent < i
  {
    if cats[i].parent != NO_PARENT {
      var names, p := Names(cats), cats[i].parent;
      FrontIsLess(names[p], names[i]);
      LessConnected(names[p], names[i]);
    }
  }

  /** All bits of a row are below `n` exactly when its last word has none from
      the remainder on. */
  lemma LastWordDecides(row: Mask, n: nat)
    requires ValidMask(row) && |row| == (n + 63) / 64 && n % 64 != 0
    ensures row[|row| - 1] < Pow2(n % 64) <==> forall c :: c in Bits(row) ==> c < n
  {
    var last, r := |row| - 1, n % 64;
    assert n == 64 * last + r;
    Pow2Limits();
    BelowPow2(row[last], r, 64);
    if row[last] < Pow2(r) {
      forall c | c in Bits(row) ensures c < n {
        if c / 64 == last && r <= c % 64 { LowWord(row[last], r, c % 64); }
      }
    } else {
      var k: nat :| r <= k < 64 && TestBit(row[last], k);
      var c := 64 * last + k;
      assert c / 64 == last && c % 64 == k;
      assert c in Bits(row);
    }
  }

  method CheckSets(b: RawBook) returns (ok: bool)
    requires ValidMask(b.catsets)
    ensures ok <==> ValidSets(b)
  {
    var n := |b.categories|;
    if b.words != (n + 63) / 64 { return false; }
    if b.words == 0 { return b.catsets == []; }
    if |b.catsets| % b.words != 0 { return false; }
    var remainder := n % 64;
    if remainder != 0 {
      for id := 0 to SetCount(b)
        invariant forall k: nat :: k < id ==> forall c :: c in Bits(Row(b, k)) ==> c < n
      {
        RowValid(b, id);
        LastWordDecides(Row(b, id), n);
        if Row(b, id)[b.words - 1] >= Pow2(remainder) { return false; }
      }
    }
    ok := true;
  }

  method CheckRanges(rs: seq<Range>, sets: nat, v6: bool) returns (ok: bool)
    ensures ok <==> ValidRanges(rs, sets) && (v6 ==> forall r :: r in rs ==> AvoidsMapped(r))
  {
    var prevEnd: Option<nat> := None;
    for i := 0 to |rs|
      invariant prevEnd == if i == 0 then None else Some(rs[i - 1].hi)
      invariant ValidRanges(rs[..i], sets)
      invariant v6 ==> forall k :: 0 <= k < i ==> AvoidsMapped(rs[k])
    {
      var r := rs[i];
      if r.lo > r.hi || (v6 && !AvoidsMapped(r)) { return false; }
      if prevEnd.Some? && r.lo <= prevEnd.value { return false; }
      prevEnd := Some(r.hi);
      if r.catset >= sets { return false; }
      assert i > 0 ==> rs[..i][i - 1] == rs[i - 1];
    }
    assert rs[..|rs|] == rs;
    ok := true;
  }

  method CheckEntries(es: seq<StrEntry>, sets: nat) returns (ok: bool)
    ensures ok <==> ValidEntries(es, sets)
  {
    ok := CheckAscending(Texts(es));
    if !ok { return; }
    for i := 0 to |es|
      invariant forall k :: 0 <= k < i ==> es[k].text != [] && IsNormalized(es[k].text) && es[k].catset < sets
    {
      if es[i].text == [] || !IsNormalized(es[i].text) || es[i].catset >= sets { return false; }
    }
  }

  method Validate(b: RawBook) returns (ok: bool)
    requires ValidMask(b.catsets)
    ensures ok <==> Valid(b)
  {
    ok := CheckCategories(b.categories);
    if !ok { return; }
    ok := CheckSets(b);
    if !ok { return; }
    var sets := SetCount(b);
    ok := CheckRanges(b.ip4, sets, false);
    if !ok { return; }
    ok := CheckRanges(b.ip6, sets, true);
    if !ok { return; }
    ok := CheckEntries(b.exact, sets);
    if !ok { return; }
    ok := CheckEntries(b.suffix, sets);
    if !ok { return; }
    ok := CheckEntries(b.keywords, sets);
  }
}
