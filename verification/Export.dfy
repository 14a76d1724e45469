/** The control-plane sidecar: per category, plain names and CIDR blocks that say
    what the book's own lookup says. */
module Export {
  import opened Wrappers
  import opened Words
  import opened Text
  import opened BookFormat
  import opened Addresses
  import opened Queries
  import opened Lookup
  import opened Cidr

  /** `catset_has` */
  predicate CatsetHas(b: RawBook, catset: nat, id: nat) {
    && b.words != 0 && catset * b.words + id / 64 < |b.catsets|
    && TestBit(b.catsets[catset * b.words + id / 64], id % 64)
  }

  /** On a row of the table it reads the row's bit. */
  lemma HasIsMember(b: RawBook, catset: nat, id: nat)
    requires catset < SetCount(b) && id < 64 * b.words
    ensures CatsetHas(b, catset, id) <==> id in Bits(Row(b, catset))
  {
    RowBounds(b, catset);
    assert Row(b, catset)[id / 64] == b.catsets[catset * b.words + id / 64];
    GetBitIsMembership(Row(b, catset), id);
  }

  // ----- filling the per-category sets

  /** Put `items` in the set of every category that the category set has. */
  method Distribute<T(==)>(b: RawBook, catset: nat, acc: seq<set<T>>, items: set<T>) returns (r: seq<set<T>>)
    requires |acc| == |b.categories|
    ensures |r| == |acc|
    ensures forall i :: 0 <= i < |acc| ==> r[i] == acc[i] + if CatsetHas(b, catset, i) then items else {}
  {
    r := acc;
    for i := 0 to |acc|
      invariant |r| == |acc| && forall k :: i <= k < |acc| ==> r[k] == acc[k]
      invariant forall k :: 0 <= k < i ==> r[k] == acc[k] + if CatsetHas(b, catset, k) then items else {}
    {
      if CatsetHas(b, catset, i) { r := r[i := r[i] + items]; }
    }
  }

  /** A stored text as it is exported. */
  function Wire(e: StrEntry, reversed: bool): Bytes {
    if reversed then ReverseLabels(e.text) else e.text
  }

  ghost function TextsFor(b: RawBook, es: seq<StrEntry>, reversed: bool, id: nat): set<Bytes> {
    set e | e in es && CatsetHas(b, e.catset, id) :: Wire(e, reversed)
  }

  lemma TextsForSnoc(b: RawBook, es: seq<StrEntry>, i: nat, reversed: bool, id: nat)
    requires i < |es|
    ensures TextsFor(b, es[..i + 1], reversed, id) ==
            TextsFor(b, es[..i], reversed, id) + if CatsetHas(b, es[i].catset, id) then {Wire(es[i], reversed)} else {}
  {
    assert es[..i + 1] == es[..i] + [es[i]];
  }

  method ExportTexts(b: RawBook, es: seq<StrEntry>, reversed: bool) returns (r: seq<set<Bytes>>)
    ensures |r| == |b.categories| && forall id :: 0 <= id < |r| ==> r[id] == TextsFor(b, es, reversed, id)
  {
    r := seq(|b.categories|, _ => {});
    for i := 0 to |es|
      invariant |r| == |b.categories| && forall id :: 0 <= id < |r| ==> r[id] == TextsFor(b, es[..i], reversed, id)
    {
      forall id: nat { TextsForSnoc(b, es, i, reversed, id); }
      r := Distribute(b, es[i].catset, r, {Wire(es[i], reversed)});
    }
    assert es[..|es|] == es;
  }

  datatype Net = Net(v4: bool, cidr: Cidr)

  function BitWidth(v4: bool): nat {
    if v4 then 32 else 128
  }

  ghost predicate NetHolds(n: Net, a: IpAddr) {
    n.v4 == a.V4? && InBlock(n.cidr, BitWidth(n.v4), a.n)
  }

  ghost predicate Listed(nets: set<Net>, a: IpAddr) {
    exists n :: n in nets && NetHolds(n, a)
  }

  /** The blocks of a list, tagged with the family. */
  function Nets(out: seq<Cidr>, v4: bool): set<Net> {
    set c | c in out :: Net(v4, c)
  }

  lemma NetsListed(out: seq<Cidr>, v4: bool, lo: nat, hi: nat, a: IpAddr)
    requires Greedy(out, BitWidth(v4), lo, hi) && hi < Pow2(BitWidth(v4))
    ensures Listed(Nets(out, v4), a) <==> a.V4? == v4 && lo <= a.n <= hi
  {
    GreedyTiles(out, BitWidth(v4), lo, hi);
    if Listed(Nets(out, v4), a) {
      var n :| n in Nets(out, v4) && NetHolds(n, a);
      assert n.cidr in Blocks(out) && CoveredBy(Blocks(out), BitWidth(v4), a.n);
    }
    if a.V4? == v4 && lo <= a.n <= hi {
      assert CoveredBy(Blocks(out), BitWidth(v4), a.n);
      var c :| c in Blocks(out) && InBlock(c, BitWidth(v4), a.n);
      assert c in out && Net(v4, c) in Nets(out, v4) && NetHolds(Net(v4, c), a);
    }
  }

  lemma ListedUnion(x: set<Net>, y: set<Net>, a: IpAddr)
    ensures Listed(x + y, a) <==> Listed(x, a) || Listed(y, a)
  {
    if n :| n in x + y && NetHolds(n, a) { assert n in x || n in y; }
    if n :| n in x && NetHolds(n, a) { assert n in x + y; }
    if n :| n in y && NetHolds(n, a) { assert n in x + y; }
  }

  method RangeNets(r: Range, v4: bool) returns (nets: set<Net>)
    requires r.lo < Pow2(BitWidth(v4)) && r.hi < Pow2(BitWidth(v4))
    ensures forall a :: Listed(nets, a) <==> a.V4? == v4 && InRange(r, a.n)
  {
    Pow2Limits();
    var out;
    if v4 { out := Ipv4RangeToCidrs(r.lo, r.hi); } else { out := Ipv6RangeToCidrs(r.lo, r.hi); }
    forall a { NetsListed(out, v4, r.lo, r.hi, a); }
    nets := Nets(out, v4);
  }

  /** Some range of the category contains the address. */
  ghost predicate RangeHas(b: RawBook, rs: seq<Range>, id: nat, n: nat) {
    exists r :: r in rs && CatsetHas(b, r.catset, id) && InRange(r, n)
  }

  lemma RangeHasSnoc(b: RawBook, rs: seq<Range>, i: nat, id: nat, n: nat)
    requires i < |rs|
    ensures RangeHas(b, rs[..i + 1], id, n) <==>
            RangeHas(b, rs[..i], id, n) || (CatsetHas(b, rs[i].catset, id) && InRange(rs[i], n))
  {
    assert rs[..i + 1] == rs[..i] + [rs[i]];
    if r :| r in rs[..i + 1] && CatsetHas(b, r.catset, id) && InRange(r, n) { assert r in rs[..i] || r == rs[i]; }
    if CatsetHas(b, rs[i].catset, id) && InRange(rs[i], n) { assert rs[i] in rs[..i + 1]; }
    if r :| r in rs[..i] && CatsetHas(b, r.catset, id) && InRange(r, n) { assert r in rs[..i + 1]; }
  }

  /** What `nets` lists once the ranges `rs` of one family are added to `before`. */
  ghost predicate Adds(b: RawBook, before: set<Net>, after: set<Net>, rs: seq<Range>, v4: bool, id: nat) {
    forall a :: Listed(after, a) <==> Listed(before, a) || (a.V4? == v4 && RangeHas(b, rs, id, a.n))
  }

  lemma AddsStep(b: RawBook, before: set<Net>, mid: set<Net>, nets: set<Net>, rs: seq<Range>, i: nat, v4: bool, id: nat)
    requires i < |rs| && Adds(b, before, mid, rs[..i], v4, id)
    requires forall a :: Listed(nets, a) <==> a.V4? == v4 && InRange(rs[i], a.n)
    ensures Adds(b, before, mid + if CatsetHas(b, rs[i].catset, id) then nets else {}, rs[..i + 1], v4, id)
  {
    var more := if CatsetHas(b, rs[i].catset, id) then nets else {};
    forall a: IpAddr
      ensures Listed(mid + more, a) <==> Listed(before, a) || (a.V4? == v4 && RangeHas(b, rs[..i + 1], id, a.n))
    {
      RangeHasSnoc(b, rs, i, id, a.n);
      ListedUnion(mid, more, a);
    }
  }

  method ExportRanges(b: RawBook, rs: seq<Range>, v4: bool, before: seq<set<Net>>) returns (after: seq<set<Net>>)
    requires TypedRanges(rs, Pow2(BitWidth(v4))) && |before| == |b.categories|
    ensures |after| == |before| && forall id :: 0 <= id < |after| ==> Adds(b, before[id], after[id], rs, v4, id)
  {
    after := before;
    for i := 0 to |rs|
      invariant |after| == |before|
      invariant forall id :: 0 <= id < |after| ==> Adds(b, before[id], after[id], rs[..i], v4, id)
    {
      var nets := RangeNets(rs[i], v4);
      forall id | 0 <= id < |after| { AddsStep(b, before[id], after[id], nets, rs, i, v4, id); }
      after := Distribute(b, rs[i].catset, after, nets);
    }
    assert rs[..|rs|] == rs;
  }

  // ----- the catalog

  datatype Expansion = Expansion(exact: set<Bytes>, suffix: set<Bytes>, keyword: set<Bytes>, cidrs: set<Net>)

  datatype Catalog = Catalog(epoch: nat, categories: seq<Bytes>, expansions: map<Bytes, Expansion>)

  function RangesOf(b: RawBook, v4: bool): seq<Range> {
    if v4 then b.ip4 else b.ip6
  }

  /** The entries and addresses tagged with category `id` itself. */
  ghost predicate ExpansionOf(b: RawBook, id: nat, x: Expansion) {
    && x.exact == TextsFor(b, b.exact, false, id)
    && x.suffix == TextsFor(b, b.suffix, true, id)
    && x.keyword == TextsFor(b, b.keywords, false, id)
    && forall a :: Listed(x.cidrs, a) <==> RangeHas(b, RangesOf(b, a.V4?), id, a.n)
  }

  ghost predicate Projects(b: RawBook, cat: Catalog) {
    && cat.epoch == b.epoch && cat.categories == Names(b.categories)
    && cat.expansions.Keys == (set c | c in b.categories :: c.name)
    && forall id :: 0 <= id < |b.categories| ==> ExpansionOf(b, id, cat.expansions[b.categories[id].name])
  }

  /** Distinct keys keep their values while the rest are inserted. */
  method Index(b: RawBook, xs: seq<Expansion>) returns (m: map<Bytes, Expansion>)
    requires |xs| == |b.categories| && Ascending(Names(b.categories))
    ensures m.Keys == (set c | c in b.categories :: c.name)
    ensures forall i :: 0 <= i < |xs| ==> b.categories[i].name in m && m[b.categories[i].name] == xs[i]
  {
    m := map[];
    for i := 0 to |xs|
      invariant forall key :: key in m ==> exists k :: 0 <= k < i && b.categories[k].name == key
      invariant forall k :: 0 <= k < i ==> b.categories[k].name in m && m[b.categories[k].name] == xs[k]
    {
      forall k | 0 <= k < i ensures b.categories[k].name != b.categories[i].name {
        LessConnected(Names(b.categories)[k], Names(b.categories)[i]);
      }
      m := m[b.categories[i].name := xs[i]];
    }
    forall key | key in m ensures key in (set c | c in b.categories :: c.name) {
      var k :| 0 <= k < |xs| && b.categories[k].name == key;
      assert b.categories[k] in b.categories;
    }
    forall c | c in b.categories ensures c.name in m {
      var k :| 0 <= k < |xs| && b.categories[k] == c;
    }
  }

  method ExportAddresses(b: RawBook) returns (r: seq<set<Net>>)
    requires Typed(b)
    ensures |r| == |b.categories|
    ensures forall id, a :: 0 <= id < |r| ==> (Listed(r[id], a) <==> RangeHas(b, RangesOf(b, a.V4?), id, a.n))
  {
    Pow2Limits();
    var none: seq<set<Net>> := seq(|b.categories|, _ => {});
    var four := ExportRanges(b, b.ip4, true, none);
    r := ExportRanges(b, b.ip6, false, four);
    forall id, a: IpAddr | 0 <= id < |r| ensures Listed(r[id], a) <==> RangeHas(b, RangesOf(b, a.V4?), id, a.n) {
      assert Adds(b, none[id], four[id], b.ip4, true, id) && Adds(b, four[id], r[id], b.ip6, false, id);
      assert !Listed({}, a);
    }
  }

  method ControlPlaneCatalog(b: RawBook) returns (r: Result<Catalog>)
    requires Valid(b) && Typed(b)
    ensures r.Err? <==> b.categories == []
    ensures r.Ok? ==> Projects(b, r.value)
  {
    if |b.categories| == 0 { return Err; }
    var exact := ExportTexts(b, b.exact, false);
    var suffix := ExportTexts(b, b.suffix, true);
    var keyword := ExportTexts(b, b.keywords, false);
    var cidrs := ExportAddresses(b);
    var xs := seq(|b.categories|, i requires 0 <= i < |b.categories| =>
      Expansion(exact[i], suffix[i], keyword[i], cidrs[i]));
    var m := Index(b, xs);
    r := Ok(Catalog(b.epoch, Names(b.categories), m));
  }

  // ----- agreement with the lookup

  /** The name falls under the exported names. */
  ghost predicate NameListed(x: Expansion, name: Bytes) {
    || name in x.exact
    || (exists d :: d in x.suffix && UnderDomain(name, d))
    || exists k :: k in x.keyword && Contains(name, k)
  }

  /** The host falls under the exported lists. */
  ghost predicate HostListed(x: Expansion, host: Bytes, parse: ParseAddr) {
    var name := NormalizeDomain(host);
    match parse(host)
    case Some(a) => Listed(x.cidrs, Fold(a))
    case None =>
      name != [] && NameListed(x, name)
  }

  lemma FitsTable(b: RawBook, id: nat)
    requires Valid(b) && id < |b.categories|
    ensures id < 64 * b.words
  {
    assert ValidSets(b);
  }

  lemma AddressAgrees(b: RawBook, id: nat, x: Expansion, a: IpAddr)
    requires Valid(b) && id < |b.categories| && ExpansionOf(b, id, x)
    ensures Listed(x.cidrs, a) <==> id in CategoriesOf(b, AddressSets(b, a))
  {
    var rs := RangesOf(b, a.V4?);
    FitsTable(b, id);
    assert ValidRanges(rs, SetCount(b));
    if r :| r in rs && CatsetHas(b, r.catset, id) && InRange(r, a.n) {
      HasIsMember(b, r.catset, id);
      assert r.catset in AddressSets(b, a);
    }
    if id in CategoriesOf(b, AddressSets(b, a)) {
      var set' :| set' in AddressSets(b, a) && set' < SetCount(b) && id in Bits(Row(b, set'));
      HasIsMember(b, set', id);
      var r :| r in rs && InRange(r, a.n) && r.catset == set';
      assert RangeHas(b, rs, id, a.n);
    }
  }

  /** Some entry of the table hits the name and carries the category. */
  ghost predicate EntryHas(b: RawBook, es: seq<StrEntry>, id: nat, hit: StrEntry -> bool) {
    exists e :: e in es && hit(e) && CatsetHas(b, e.catset, id)
  }

  lemma EntriesAgree(b: RawBook, es: seq<StrEntry>, id: nat, hit: StrEntry -> bool)
    requires ValidEntries(es, SetCount(b)) && id < 64 * b.words
    ensures EntryHas(b, es, id, hit) <==> id in CategoriesOf(b, set e | e in es && hit(e) :: e.catset)
  {
    var ids := set e | e in es && hit(e) :: e.catset;
    forall e | e in es ensures e.catset < SetCount(b) {
      var i :| 0 <= i < |es| && es[i] == e;
    }
    if e :| e in es && hit(e) && CatsetHas(b, e.catset, id) {
      HasIsMember(b, e.catset, id);
      assert e.catset in ids;
    }
    if id in CategoriesOf(b, ids) {
      var set' :| set' in ids && set' < SetCount(b) && id in Bits(Row(b, set'));
      HasIsMember(b, set', id);
      var e :| e in es && hit(e) && e.catset == set';
      assert EntryHas(b, es, id, hit);
    }
  }

  lemma CategoriesOfUnion(b: RawBook, x: set<nat>, y: set<nat>, z: set<nat>, id: nat)
    ensures id in CategoriesOf(b, x + y + z) <==>
            id in CategoriesOf(b, x) || id in CategoriesOf(b, y) || id in CategoriesOf(b, z)
  {
  }

  lemma ExactAgrees(b: RawBook, id: nat, name: Bytes)
    requires ValidEntries(b.exact, SetCount(b)) && id < 64 * b.words
    ensures name in TextsFor(b, b.exact, false, id) <==>
            id in CategoriesOf(b, set e | e in b.exact && ExactHit(e, name) :: e.catset)
  {
    var hit := e => ExactHit(e, name);
    EntriesAgree(b, b.exact, id, hit);
    assert (set e | e in b.exact && hit(e) :: e.catset) == set e | e in b.exact && ExactHit(e, name) :: e.catset;
  }

  lemma SuffixAgrees(b: RawBook, id: nat, name: Bytes)
    requires ValidEntries(b.suffix, SetCount(b)) && id < 64 * b.words
    ensures (exists d :: d in TextsFor(b, b.suffix, true, id) && UnderDomain(name, d)) <==>
            id in CategoriesOf(b, set e | e in b.suffix && SuffixHit(e, name) :: e.catset)
  {
    var hit := e => SuffixHit(e, name);
    EntriesAgree(b, b.suffix, id, hit);
    assert (set e | e in b.suffix && hit(e) :: e.catset) == set e | e in b.suffix && SuffixHit(e, name) :: e.catset;
    if e :| e in b.suffix && hit(e) && CatsetHas(b, e.catset, id) {
      assert Wire(e, true) in TextsFor(b, b.suffix, true, id);
    }
  }

  lemma KeywordAgrees(b: RawBook, id: nat, name: Bytes)
    requires ValidEntries(b.keywords, SetCount(b)) && id < 64 * b.words
    ensures (exists k :: k in TextsFor(b, b.keywords, false, id) && Contains(name, k)) <==>
            id in CategoriesOf(b, set e | e in b.keywords && KeywordHit(e, name) :: e.catset)
  {
    var hit := e => KeywordHit(e, name);
    EntriesAgree(b, b.keywords, id, hit);
    assert (set e | e in b.keywords && hit(e) :: e.catset)
        == set e | e in b.keywords && KeywordHit(e, name) :: e.catset;
    if e :| e in b.keywords && hit(e) && CatsetHas(b, e.catset, id) {
      assert Wire(e, false) in TextsFor(b, b.keywords, false, id);
    }
  }

  lemma NameAgrees(b: RawBook, id: nat, x: Expansion, name: Bytes)
    requires Valid(b) && id < |b.categories| && ExpansionOf(b, id, x)
    ensures NameListed(x, name) <==> id in CategoriesOf(b, DomainSets(b, name))
  {
    FitsTable(b, id);
    ExactAgrees(b, id, name);
    SuffixAgrees(b, id, name);
    KeywordAgrees(b, id, name);
    CategoriesOfUnion(b, set e | e in b.exact && ExactHit(e, name) :: e.catset,
      (set e | e in b.suffix && SuffixHit(e, name) :: e.catset),
      (set e | e in b.keywords && KeywordHit(e, name) :: e.catset), id);
  }

  lemma HostAgrees(b: RawBook, id: nat, x: Expansion, host: Bytes, parse: ParseAddr)
    requires Valid(b) && id < |b.categories| && ExpansionOf(b, id, x)
    ensures HostListed(x, host, parse) <==> id in CategoriesOf(b, HostSets(b, host, parse))
  {
    match parse(host)
    case Some(a) => AddressAgrees(b, id, x, Fold(a));
    case None => NameAgrees(b, id, x, NormalizeDomain(host));
  }

  lemma NamesDistinct(cats: seq<Category>, i: nat, j: nat)
    requires Ascending(Names(cats)) && i < |cats| && j < |cats| && cats[i].name == cats[j].name
    ensures i == j
  {
    if i < j { LessConnected(Names(cats)[i], Names(cats)[j]); }
    if j < i { LessConnected(Names(cats)[j], Names(cats)[i]); }
  }

  /** A host falls under a category's exported lists exactly when the lookup of
      that host names the category. */
  lemma ExportAgrees(b: RawBook, cat: Catalog, host: Bytes, parse: ParseAddr, id: nat)
    requires Valid(b) && Projects(b, cat) && id < |b.categories|
    ensures HostListed(cat.expansions[b.categories[id].name], host, parse) <==>
            b.categories[id].name in Pick(b.categories, CategoriesOf(b, HostSets(b, host, parse)), |b.categories|)
  {
    var name, ids := b.categories[id].name, CategoriesOf(b, HostSets(b, host, parse));
    HostAgrees(b, id, cat.expansions[name], host, parse);
    PickElements(b.categories, ids, |b.categories|, name);
    if name in Pick(b.categories, ids, |b.categories|) {
      var i :| 0 <= i < |b.categories| && i in ids && b.categories[i].name == name;
      NamesDistinct(b.categories, i, id);
    }
  }
}
