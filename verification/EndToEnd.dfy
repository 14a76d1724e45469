/** From the calls on the builder to the answers of the built book: a host
    matches exactly when some added rule of a selected category covers it. */
module EndToEnd {
  import opened Wrappers
  import opened Words
  import opened Text
  import opened BookFormat
  import opened Addresses
  import opened Rules
  import opened Sweeping
  import opened BuildSpec
  import opened Queries
  import opened Resolution
  import opened SelectorCache

  /** The rule applies to the host, read directly. */
  ghost predicate RuleCovers(rule: Rule, host: Bytes, parse: ParseAddr) {
    var name := NormalizeDomain(host);
    match parse(host)
    case Some(a) => rule.Ip? && Covers(rule.range, a)
    case None =>
      name != [] &&
      match rule
      case Suffix(d) => UnderDomain(name, d)
      case Exact(d) => name == d
      case Keyword(k) => Contains(name, k)
      case _ => false
  }

  /** Some effect covers the host, and its category is under a pattern. */
  ghost predicate Covered(es: set<Effect>, host: Bytes, parse: ParseAddr, patterns: set<Bytes>) {
    exists e, p :: e in es && e.Registered? && RuleCovers(e.rule, host, parse) && p in patterns && Under(e.cat, p)
  }

  // ----- addresses

  ghost predicate CoversWithId(e: Effect, a: IpAddr, names: seq<Bytes>, c: nat) {
    e.Registered? && e.rule.Ip? && Covers(e.rule.range, a) && e.cat in names && IdOf(names, e.cat) == c
  }

  lemma RangeCategories(b: RawBook, rs: seq<Range>, n: nat)
    requires IdsIn(b, RangeIds(rs))
    ensures CategoriesOf(b, set r | r in rs && InRange(r, n) :: r.catset) == CatsIn(Segs(b, rs), n)
  {
    var ids := set r | r in rs && InRange(r, n) :: r.catset;
    var segs := Segs(b, rs);
    forall c | c in CategoriesOf(b, ids) ensures c in CatsIn(segs, n) {
      var id :| id in ids && id < SetCount(b) && c in Bits(Row(b, id));
      var r :| r in rs && InRange(r, n) && r.catset == id;
      var i :| 0 <= i < |rs| && rs[i] == r;
      assert segs[i].lo <= n <= segs[i].hi && c in Bits(segs[i].mask);
    }
    forall c | c in CatsIn(segs, n) ensures c in CategoriesOf(b, ids) {
      var i :| 0 <= i < |segs| && segs[i].lo <= n <= segs[i].hi && c in Bits(segs[i].mask);
      assert rs[i] in rs && InRange(rs[i], n);
      assert RangeIds(rs)[i] in ids;
    }
  }

  lemma SourceCategories(names: seq<Bytes>, src: seq<CatRange>, n: nat, c: nat)
    requires forall x :: x in src ==> x.cat in names
    ensures c in CatsAt(RawOf(names, src), n) <==> exists x :: x in src && x.lo <= n <= x.hi && IdOf(names, x.cat) == c
  {
    var raw := RawOf(names, src);
    if c in CatsAt(raw, n) {
      var r :| r in raw && r.lo <= n <= r.hi && r.cat == c;
      var i :| 0 <= i < |raw| && raw[i] == r;
      assert src[i] in src;
    }
    if x :| x in src && x.lo <= n <= x.hi && IdOf(names, x.cat) == c {
      RawOfElement(names, src, x);
    }
  }

  lemma EffectRanges(src: seq<CatRange>, es: set<Effect>, names: seq<Bytes>, a: IpAddr, c: nat)
    requires HoldsRanges(src, es, Fold(a).V4?) && ValidAddr(a) && forall x :: x in src ==> x.cat in names
    ensures (exists x :: x in src && x.lo <= Fold(a).n <= x.hi && IdOf(names, x.cat) == c) <==>
            exists e :: e in es && CoversWithId(e, a, names, c)
  {
    var f := Fold(a);
    if x :| x in src && x.lo <= f.n <= x.hi && IdOf(names, x.cat) == c {
      var e :| e in es && YieldsRange(e, x, f.V4?);
      CanonicalizeCovers(e.rule.range, a);
      var p :| p in Canonicalize(e.rule.range) && p.v4 == f.V4? && p.lo == x.lo && p.hi == x.hi;
      assert InPiece(p, f);
      assert CoversWithId(e, a, names, c);
    }
    if e :| e in es && CoversWithId(e, a, names, c) {
      CanonicalizeCovers(e.rule.range, a);
      var p :| p in Canonicalize(e.rule.range) && InPiece(p, f);
      var x := CatRange(p.lo, p.hi, e.cat);
      assert YieldsRange(e, x, f.V4?);
      assert x in src && x.lo <= f.n <= x.hi && IdOf(names, x.cat) == c;
    }
  }

  /** The categories found for an address are those of the rules that cover it. */
  lemma AddressCategories(st: State, es: set<Effect>, b: RawBook, a: IpAddr, c: nat)
    requires Represents(st, es) && IsBookOf(st, b) && ValidAddr(a)
    ensures c in CategoriesOf(b, AddressSets(b, Fold(a))) <==>
            exists e :: e in es && CoversWithId(e, a, SortedTexts(st.categories), c)
  {
    var f := Fold(a);
    var names := SortedTexts(st.categories);
    var rs, src := if f.V4? then b.ip4 else b.ip6, if f.V4? then st.ip4 else st.ip6;
    RangeCategories(b, rs, f.n);
    SourceCategories(names, src, f.n, c);
    EffectRanges(src, es, names, a, c);
  }

  // ----- names

  predicate KeyHits(kind: Kind, key: Bytes, name: Bytes) {
    match kind
    case ExactTable => key == name
    case SuffixTable => UnderDomain(name, ReverseLabels(key))
    case KeywordTable => Contains(name, key)
  }

  function EntriesOf(b: RawBook, kind: Kind): seq<StrEntry> {
    match kind
    case ExactTable => b.exact
    case SuffixTable => b.suffix
    case KeywordTable => b.keywords
  }

  ghost function HitSets(entries: seq<StrEntry>, kind: Kind, name: Bytes): set<nat> {
    set e | e in entries && KeyHits(kind, e.text, name) :: e.catset
  }

  ghost function KindSets(b: RawBook, kind: Kind, name: Bytes): set<nat> {
    HitSets(EntriesOf(b, kind), kind, name)
  }

  lemma DomainSetsByKind(b: RawBook, name: Bytes, id: nat)
    ensures id in DomainSets(b, name) <==> exists kind :: id in KindSets(b, kind, name)
  {
    assert KindSets(b, ExactTable, name) == set e | e in b.exact && ExactHit(e, name) :: e.catset;
    assert KindSets(b, SuffixTable, name) == set e | e in b.suffix && SuffixHit(e, name) :: e.catset;
    assert KindSets(b, KeywordTable, name) == set e | e in b.keywords && KeywordHit(e, name) :: e.catset;
    if kind :| id in KindSets(b, kind, name) {
      assert kind == ExactTable || kind == SuffixTable || kind == KeywordTable;
    }
  }

  ghost predicate NamesWithId(e: Effect, kind: Kind, key: Bytes, name: Bytes, names: seq<Bytes>, c: nat) {
    && e.Registered? && e.rule == RuleFor(kind, key) && KeyHits(kind, key, name)
    && e.cat in names && IdOf(names, e.cat) == c
  }

  lemma FoundHasEffect(b: RawBook, entries: seq<StrEntry>, names: seq<Bytes>, m: Tagged, es: set<Effect>, kind: Kind,
                       name: Bytes, c: nat)
      returns (e: Effect, key: Bytes)
    requires IdsIn(b, EntryIds(entries)) && EntriesFrom(b, entries, names, m) && HoldsTags(m, es, kind)
    requires c in CategoriesOf(b, HitSets(entries, kind, name))
    ensures e in es && NamesWithId(e, kind, key, name, names, c)
  {
    var id :| id in HitSets(entries, kind, name) && id < SetCount(b) && c in Bits(Row(b, id));
    var x :| x in entries && KeyHits(kind, x.text, name) && x.catset == id;
    var i :| 0 <= i < |entries| && entries[i] == x;
    assert Bits(Row(b, EntryIds(entries)[i])) == IdSet(names, m[x.text]);
    var cat :| cat in m[x.text] && cat in names && IdOf(names, cat) == c;
    assert TaggedWith(m, x.text, cat);
    e, key := Registered(cat, RuleFor(kind, x.text)), x.text;
  }

  lemma EffectIsFound(b: RawBook, entries: seq<StrEntry>, names: seq<Bytes>, m: Tagged, es: set<Effect>, kind: Kind,
                      name: Bytes, c: nat, e: Effect, key: Bytes)
    requires IdsIn(b, EntryIds(entries)) && EntriesFrom(b, entries, names, m) && HoldsTags(m, es, kind)
    requires e in es && NamesWithId(e, kind, key, name, names, c)
    ensures c in CategoriesOf(b, HitSets(entries, kind, name))
  {
    assert e == Registered(e.cat, RuleFor(kind, key));
    assert TaggedWith(m, key, e.cat);
    SortedTextsSpec(m.Keys);
    assert key in Texts(entries);
    var i :| 0 <= i < |entries| && Texts(entries)[i] == key;
    var id := EntryIds(entries)[i];
    assert c in IdSet(names, m[key]) && c in Bits(Row(b, id));
    assert entries[i] in entries && id in HitSets(entries, kind, name);
  }

  lemma KindCategories(st: State, es: set<Effect>, b: RawBook, kind: Kind, name: Bytes, c: nat)
    requires Represents(st, es) && IsBookOf(st, b)
    ensures c in CategoriesOf(b, KindSets(b, kind, name)) <==>
            exists e, key :: e in es && NamesWithId(e, kind, key, name, SortedTexts(st.categories), c)
  {
    var names := SortedTexts(st.categories);
    var entries, m := EntriesOf(b, kind), Table(st, kind);
    assert HoldsTags(m, es, kind);
    assert IdsIn(b, EntryIds(entries)) && EntriesFrom(b, entries, names, m);
    if c in CategoriesOf(b, HitSets(entries, kind, name)) {
      var e, key := FoundHasEffect(b, entries, names, m, es, kind, name, c);
    }
    if e, key :| e in es && NamesWithId(e, kind, key, name, names, c) {
      EffectIsFound(b, entries, names, m, es, kind, name, c, e, key);
    }
  }

  /** The categories found for a name are those of the rules that cover it. */
  lemma NameCategories(st: State, es: set<Effect>, b: RawBook, name: Bytes, c: nat)
    requires Represents(st, es) && IsBookOf(st, b)
    ensures c in CategoriesOf(b, DomainSets(b, name)) <==>
            exists e, kind, key :: e in es && NamesWithId(e, kind, key, name, SortedTexts(st.categories), c)
  {
    var names := SortedTexts(st.categories);
    if c in CategoriesOf(b, DomainSets(b, name)) {
      var id :| id in DomainSets(b, name) && id < SetCount(b) && c in Bits(Row(b, id));
      DomainSetsByKind(b, name, id);
      var kind :| id in KindSets(b, kind, name);
      assert c in CategoriesOf(b, KindSets(b, kind, name));
      KindCategories(st, es, b, kind, name, c);
    }
    if e, kind, key :| e in es && NamesWithId(e, kind, key, name, names, c) {
      KindCategories(st, es, b, kind, name, c);
      var id :| id in KindSets(b, kind, name) && id < SetCount(b) && c in Bits(Row(b, id));
      DomainSetsByKind(b, name, id);
    }
  }

  lemma RuleCoversByKind(rule: Rule, host: Bytes, parse: ParseAddr)
    requires parse(host).None? && NormalizeDomain(host) != []
    ensures RuleCovers(rule, host, parse) <==>
            exists kind, key :: rule == RuleFor(kind, key) && KeyHits(kind, key, NormalizeDomain(host))
  {
    var name := NormalizeDomain(host);
    if RuleCovers(rule, host, parse) {
      var kind := match rule case Exact(_) => ExactTable case Suffix(_) => SuffixTable case _ => KeywordTable;
      RuleOfKey(rule, kind, KeyOf(rule));
      if rule.Suffix? { ReverseLabelsInvolution(rule.name); }
      assert rule == RuleFor(kind, KeyOf(rule)) && KeyHits(kind, KeyOf(rule), name);
    }
  }

  // ----- hosts

  ghost predicate HostWithId(e: Effect, host: Bytes, parse: ParseAddr, names: seq<Bytes>, c: nat) {
    e.Registered? && RuleCovers(e.rule, host, parse) && e.cat in names && IdOf(names, e.cat) == c
  }

  ghost predicate GoodParse(parse: ParseAddr) {
    forall s :: parse(s).Some? ==> ValidAddr(parse(s).value)
  }

  lemma HostByName(es: set<Effect>, names: seq<Bytes>, host: Bytes, parse: ParseAddr, c: nat)
    requires parse(host).None? && NormalizeDomain(host) != []
    ensures (exists e :: e in es && HostWithId(e, host, parse, names, c)) <==>
            exists e, kind, key :: e in es && NamesWithId(e, kind, key, NormalizeDomain(host), names, c)
  {
    var name := NormalizeDomain(host);
    if e :| e in es && HostWithId(e, host, parse, names, c) {
      RuleCoversByKind(e.rule, host, parse);
      var kind, key :| e.rule == RuleFor(kind, key) && KeyHits(kind, key, name);
      assert NamesWithId(e, kind, key, name, names, c);
    }
    if e, kind, key :| e in es && NamesWithId(e, kind, key, name, names, c) {
      RuleCoversByKind(e.rule, host, parse);
      assert HostWithId(e, host, parse, names, c);
    }
  }

  /** The categories of a host are exactly those of the rules covering it. */
  lemma HostCategories(st: State, es: set<Effect>, b: RawBook, host: Bytes, parse: ParseAddr, c: nat)
    requires Represents(st, es) && IsBookOf(st, b) && GoodParse(parse)
    ensures c in CategoriesOf(b, HostSets(b, host, parse)) <==>
            exists e :: e in es && HostWithId(e, host, parse, SortedTexts(st.categories), c)
  {
    var names := SortedTexts(st.categories);
    if parse(host).Some? {
      var a := parse(host).value;
      AddressCategories(st, es, b, a, c);
      assert forall e :: HostWithId(e, host, parse, names, c) <==> CoversWithId(e, a, names, c);
    } else if NormalizeDomain(host) != [] {
      NameCategories(st, es, b, NormalizeDomain(host), c);
      HostByName(es, names, host, parse, c);
    }
  }

  lemma RegisteredCategories(st: State, es: set<Effect>, e: Effect)
    requires Represents(st, es) && e in es && e.Registered?
    ensures e.cat in SortedTexts(st.categories)
  {
    SortedTextsSpec(st.categories);
    assert e.cat == e.cat[..|e.cat|];
    assert e.cat in Ancestors(e.cat);
  }

  lemma NamesAreTable(st: State, b: RawBook)
    requires IsBookOf(st, b)
    ensures var names := SortedTexts(st.categories);
            |b.categories| == |names| && forall i :: 0 <= i < |names| ==> names[i] == b.categories[i].name
  {
    assert |Names(b.categories)| == |b.categories|;
  }

  lemma SelectedIsCovered(st: State, es: set<Effect>, b: RawBook, host: Bytes, parse: ParseAddr, patterns: set<Bytes>,
                          sel: Mask, c: nat)
    requires Represents(st, es) && IsBookOf(st, b) && GoodParse(parse) && ResolvesTo(b, patterns, Ok(sel))
    requires c in CategoriesOf(b, HostSets(b, host, parse)) && c in Bits(sel)
    ensures Covered(es, host, parse, patterns)
  {
    var names := SortedTexts(st.categories);
    NamesAreTable(st, b);
    HostCategories(st, es, b, host, parse, c);
    var e :| e in es && HostWithId(e, host, parse, names, c);
    assert c in Selected(b, patterns);
    var p :| p in patterns && Under(b.categories[c].name, p);
    assert RuleCovers(e.rule, host, parse) && Under(e.cat, p);
  }

  lemma CoveredIsSelected(st: State, es: set<Effect>, b: RawBook, host: Bytes, parse: ParseAddr, patterns: set<Bytes>,
                          sel: Mask,
                          e: Effect, p: Bytes)
      returns (c: nat)
    requires Represents(st, es) && IsBookOf(st, b) && GoodParse(parse) && ResolvesTo(b, patterns, Ok(sel))
    requires e in es && e.Registered? && RuleCovers(e.rule, host, parse) && p in patterns && Under(e.cat, p)
    ensures c in CategoriesOf(b, HostSets(b, host, parse)) && c in Bits(sel)
  {
    var names := SortedTexts(st.categories);
    NamesAreTable(st, b);
    RegisteredCategories(st, es, e);
    c := IdOf(names, e.cat);
    HostCategories(st, es, b, host, parse, c);
    assert HostWithId(e, host, parse, names, c);
    assert Under(b.categories[c].name, p);
    assert c in Selected(b, patterns);
  }

  /** A resolved selector picks out a host exactly when an effect covers it under
      one of the patterns. */
  lemma SelectsIffCovered(st: State, es: set<Effect>, b: RawBook, host: Bytes, parse: ParseAddr,
                          patterns: set<Bytes>, sel: Mask)
    requires Represents(st, es) && IsBookOf(st, b) && GoodParse(parse)
    requires ResolvesTo(b, patterns, Ok(sel))
    ensures Selects(b, HostSets(b, host, parse), sel) <==> Covered(es, host, parse, patterns)
  {
    var ids := HostSets(b, host, parse);
    if c :| c in CategoriesOf(b, ids) * Bits(sel) { SelectedIsCovered(st, es, b, host, parse, patterns, sel, c); }
    if e, p :| e in es && e.Registered? && RuleCovers(e.rule, host, parse) && p in patterns && Under(e.cat, p) {
      var c := CoveredIsSelected(st, es, b, host, parse, patterns, sel, e, p);
      assert c in CategoriesOf(b, ids) * Bits(sel);
    }
  }

  /** Over every run of builder calls: if the state builds and the patterns
      resolve, the selector matches a host exactly when some call registered a
      rule that covers it, in a category equal to or below a pattern. */
  lemma BuiltBookAnswers(adds: seq<Add>, epoch: nat, parseIp: ParseIp, b: RawBook, host: Bytes, parse: ParseAddr,
                         patterns: seq<Bytes>, sel: Mask)
    requires IsBookOf(Run(adds, epoch, parseIp), b) && GoodParse(parse)
    requires ResolvesTo(b, Normalized(patterns), Ok(sel))
    ensures Selects(b, HostSets(b, host, parse), sel) <==>
            Covered(Effects(adds, parseIp), host, parse, Normalized(patterns))
  {
    RunRepresents(adds, epoch, parseIp);
    SelectsIffCovered(Run(adds, epoch, parseIp), Effects(adds, parseIp), b, host, parse, Normalized(patterns), sel);
  }

  /** Calls with the same effects, in any order and however often repeated, build
      the identical book. */
  lemma BuildIsDeterministic(xs: seq<Add>, ys: seq<Add>, epoch: nat, parseIp: ParseIp, a: RawBook, b: RawBook)
    requires Effects(xs, parseIp) == Effects(ys, parseIp)
    requires IsBookOf(Run(xs, epoch, parseIp), a) && IsBookOf(Run(ys, epoch, parseIp), b)
    ensures a == b
  {
    RunRepresents(xs, epoch, parseIp);
    RunRepresents(ys, epoch, parseIp);
    EffectsDetermineContents(Run(xs, epoch, parseIp), Run(ys, epoch, parseIp), Effects(xs, parseIp));
    BookUnique(Run(xs, epoch, parseIp), Run(ys, epoch, parseIp), a, b);
  }
}
