/** Selector lists of routes: what a list says of a host, and the compiled rule set
    that answers the same. */
module RuleSets {
  import opened Wrappers
  import opened Words
  import opened Text
  import opened BookFormat
  import opened Addresses
  import opened Rules
  import opened Queries
  import opened Resolution
  import opened SelectorCache
  import opened Trie

  const BOOK_PREFIX: Bytes := [98, 111, 111, 107, 58]
  const FULL: Bytes := [102, 117, 108, 108]
  const KEYWORD: Bytes := [107, 101, 121, 119, 111, 114, 100]

  // ----- reading one selector

  datatype Selector =
    | Blank
    | InBook(pattern: Bytes)
    | Net(range: IpRange)
    | FullName(name: Bytes)
    | KeywordIn(fragment: Bytes)
    | DomainOf(name: Bytes)

  function DomainSelector(pattern: Bytes): Selector {
    var n := NormalizeDomain(pattern);
    var n := if WILDCARD_PREFIX <= n then n[2..] else n;
    if n == [] then Blank else DomainOf(n)
  }

  /** `book:`, then an address or network, then `type:pattern` with a domain as the
      fallback type. */
  function SelectorOf(rule: Bytes, parseIp: ParseIp): Selector {
    TrimmedSelector(Trim(rule), parseIp)
  }

  function TrimmedSelector(t: Bytes, parseIp: ParseIp): Selector {
    if t == [] then Blank
    else if BOOK_PREFIX <= t then InBook(Trim(t[|BOOK_PREFIX|..]))
    else if parseIp(t).Some? then Net(parseIp(t).value)
    else
      var i := IndexOf(t, COLON);
      if i == |t| then DomainSelector(t)
      else if t[..i] == FULL then FullName(NormalizeDomain(t[i + 1..]))
      else if t[..i] == KEYWORD then
        var k := NormalizeDomain(t[i + 1..]);
        if k == [] then Blank else KeywordIn(k)
      else DomainSelector(t[i + 1..])
  }

  function SelectorsOf(rules: seq<Bytes>, parseIp: ParseIp): (r: seq<Selector>)
    ensures |r| == |rules| && forall i :: 0 <= i < |rules| ==> r[i] == SelectorOf(rules[i], parseIp)
  {
    seq(|rules|, i requires 0 <= i < |rules| => SelectorOf(rules[i], parseIp))
  }

  // ----- what a selector says

  predicate NetHas(r: IpRange, a: IpAddr) {
    r.v4 == a.V4? && r.lo <= a.n <= r.hi
  }

  /** The host is in a category equal to or below the pattern. */
  ghost predicate InCategory(b: RawBook, host: Bytes, parse: ParseAddr, name: Bytes) {
    exists c ::
      c in CategoriesOf(b, HostSets(b, host, parse)) && c < |b.categories| && Under(b.categories[c].name, name)
  }

  ghost predicate Hits(s: Selector, book: Option<RawBook>, host: Bytes, parse: ParseAddr) {
    var name := NormalizeDomain(host);
    match s
    case Blank => false
    case InBook(p) => book.Some? && InCategory(book.value, host, parse, NormalizeCategory(p))
    case Net(r) => parse(host).Some? && NetHas(r, parse(host).value)
    case FullName(n) => parse(host).None? && name != [] && name == n
    case KeywordIn(k) => parse(host).None? && name != [] && Contains(name, k)
    case DomainOf(d) => parse(host).None? && name != [] && UnderDomain(name, d)
  }

  ghost predicate AnyHits(sels: seq<Selector>, book: Option<RawBook>, host: Bytes, parse: ParseAddr) {
    exists i :: 0 <= i < |sels| && Hits(sels[i], book, host, parse)
  }

  /** `book:` selectors that resolve. */
  ghost predicate Resolvable(s: Selector, book: Option<RawBook>) {
    s.InBook? ==>
      && s.pattern != [] && book.Some? && NormalizeCategory(s.pattern) != []
      && Known(book.value, NormalizeCategory(s.pattern))
  }

  // ----- the compiled rule set

  datatype RuleSet = RuleSet(
    full: set<Bytes>, suffix: Node, keywords: seq<Bytes>, exact: set<IpAddr>, cidrs: seq<IpRange>,
    book: Option<SharedMask>)

  const NO_RULES: RuleSet := RuleSet({}, EMPTY, [], {}, [], None)

  function AddrOf(r: IpRange): IpAddr {
    if r.v4 then V4(r.lo) else V6(r.lo)
  }

  /** One selector entered where it belongs; categories wait for the book. */
  function Enter(rs: RuleSet, s: Selector): RuleSet {
    match s
    case Blank => rs
    case InBook(_) => rs
    case Net(r) => if r.lo == r.hi then rs.(exact := rs.exact + {AddrOf(r)}) else rs.(cidrs := rs.cidrs + [r])
    case FullName(n) => rs.(full := rs.full + {n})
    case KeywordIn(k) => rs.(keywords := rs.keywords + [k])
    case DomainOf(d) => rs.(suffix := Insert(rs.suffix, Path(d), 0))
  }

  /** A domain filed in the trie. */
  predicate Filed(t: Node, d: Bytes) {
    d != [] && Get(t, Path(d)).Some?
  }

  /** Only domains are filed. */
  ghost predicate OnlyDomains(t: Node) {
    forall p :: Get(t, p).Some? ==> exists d :: d != [] && p == Path(d)
  }

  lemma PathInjective(d: Bytes, e: Bytes)
    requires Path(d) == Path(e)
    ensures d == e
  {
    PathNames(d);
    PathNames(e);
  }

  lemma InsertFiles(t: Node, d: Bytes, i: nat)
    requires OnlyDomains(t) && d != []
    ensures OnlyDomains(Insert(t, Path(d), i))
    ensures forall e :: Filed(Insert(t, Path(d), i), e) <==> e == d || Filed(t, e)
  {
    forall p ensures Get(Insert(t, Path(d), i), p).Some? <==> p == Path(d) || Get(t, p).Some? {
      GetInsert(t, Path(d), i, p);
    }
    forall e ensures Filed(Insert(t, Path(d), i), e) <==> e == d || Filed(t, e) {
      if Path(e) == Path(d) { PathInjective(d, e); }
    }
  }

  ghost predicate NetExact(sels: seq<Selector>, a: IpAddr) {
    exists i :: 0 <= i < |sels| && sels[i].Net? && sels[i].range.lo == sels[i].range.hi && AddrOf(sels[i].range) == a
  }

  /** The tables hold these selectors and no others. */
  ghost predicate Holds(rs: RuleSet, sels: seq<Selector>) {
    && (forall n :: n in rs.full <==> FullName(n) in sels)
    && OnlyDomains(rs.suffix) && (forall d :: Filed(rs.suffix, d) <==> DomainOf(d) in sels)
    && (forall k :: k in rs.keywords <==> KeywordIn(k) in sels)
    && (forall a :: a in rs.exact <==> NetExact(sels, a))
    && (forall r :: r in rs.cidrs <==> Net(r) in sels && r.lo < r.hi)
  }

  predicate Proper(s: Selector) {
    s.DomainOf? ==> s.name != []
  }

  lemma NetExactSnoc(sels: seq<Selector>, s: Selector, a: IpAddr)
    ensures NetExact(sels + [s], a) <==>
            NetExact(sels, a) || (s.Net? && s.range.lo == s.range.hi && AddrOf(s.range) == a)
  {
    var all := sels + [s];
    if NetExact(sels, a) {
      var i :| 0 <= i < |sels| && sels[i].Net? && sels[i].range.lo == sels[i].range.hi && AddrOf(sels[i].range) == a;
      assert all[i] == sels[i];
    }
    if s.Net? && s.range.lo == s.range.hi && AddrOf(s.range) == a { assert all[|sels|] == s; }
  }

  lemma EnterHolds(rs: RuleSet, sels: seq<Selector>, s: Selector)
    requires Holds(rs, sels) && Proper(s)
    ensures Holds(Enter(rs, s), sels + [s])
  {
    if s.DomainOf? { InsertFiles(rs.suffix, s.name, 0); }
    forall a ensures NetExact(sels + [s], a) <==>
                     NetExact(sels, a) || (s.Net? && s.range.lo == s.range.hi && AddrOf(s.range) == a) {
      NetExactSnoc(sels, s, a);
    }
    assert forall x :: x in sels + [s] <==> x in sels || x == s;
  }

  lemma NothingHolds()
    ensures Holds(NO_RULES, [])
  {
    forall p ensures Get(EMPTY, p).None? { EmptyGet(p); }
  }

  // ----- matching

  /** Some filed domain is the name or a parent of it. */
  ghost predicate Reached(t: Node, name: Bytes) {
    exists i :: 0 < i <= |Path(name)| && Get(t, Path(name)[..i]).Some?
  }

  lemma ReachedIsUnder(t: Node, name: Bytes)
    requires OnlyDomains(t)
    ensures Reached(t, name) <==> exists d :: Filed(t, d) && UnderDomain(name, d)
  {
    if i :| 0 < i <= |Path(name)| && Get(t, Path(name)[..i]).Some? {
      var d :| d != [] && Path(name)[..i] == Path(d);
      UnderIsPrefix(name, d);
      assert Filed(t, d);
    }
    if d :| Filed(t, d) && UnderDomain(name, d) {
      UnderIsPrefix(name, d);
      assert Path(name)[..|Path(d)|] == Path(d);
    }
  }

  ghost predicate NameHits(rs: RuleSet, name: Bytes) {
    name != [] && (name in rs.full || Reached(rs.suffix, name) || exists k :: k in rs.keywords && Contains(name, k))
  }

  ghost predicate AddressHits(rs: RuleSet, a: IpAddr) {
    a in rs.exact || exists r :: r in rs.cidrs && NetHas(r, a)
  }

  ghost predicate TableHits(rs: RuleSet, host: Bytes, parse: ParseAddr) {
    match parse(host)
    case Some(a) => AddressHits(rs, a)
    case None => NameHits(rs, NormalizeDomain(host))
  }

  ghost predicate BookHits(rs: RuleSet, book: Option<RawBook>, host: Bytes, parse: ParseAddr) {
    rs.book.Some? && book.Some? && Selects(book.value, HostSets(book.value, host, parse), rs.book.value.mask)
  }

  /** `RuleSet::matches` */
  ghost predicate SetHits(rs: RuleSet, book: Option<RawBook>, host: Bytes, parse: ParseAddr) {
    TableHits(rs, host, parse) || BookHits(rs, book, host, parse)
  }

  ghost predicate ListHits(sels: seq<Selector>, host: Bytes, parse: ParseAddr) {
    exists s :: s in sels && !s.InBook? && Hits(s, None, host, parse)
  }

  lemma AddressListed(rs: RuleSet, sels: seq<Selector>, host: Bytes, parse: ParseAddr)
    requires Holds(rs, sels) && parse(host).Some?
    ensures AddressHits(rs, parse(host).value) <==> ListHits(sels, host, parse)
  {
    var a := parse(host).value;
    if a in rs.exact {
      var i :| 0 <= i < |sels| && sels[i].Net? && sels[i].range.lo == sels[i].range.hi && AddrOf(sels[i].range) == a;
      assert sels[i] in sels && Hits(sels[i], None, host, parse);
    }
    if r :| r in rs.cidrs && NetHas(r, a) {
      assert Net(r) in sels && Hits(Net(r), None, host, parse);
    }
    if s :| s in sels && !s.InBook? && Hits(s, None, host, parse) {
      assert s.Net? && NetHas(s.range, a);
      if s.range.lo == s.range.hi {
        var i :| 0 <= i < |sels| && sels[i] == s;
        assert NetExact(sels, a);
      } else {
        assert s.range in rs.cidrs;
      }
    }
  }

  lemma NameListed(rs: RuleSet, sels: seq<Selector>, host: Bytes, parse: ParseAddr)
    requires Holds(rs, sels) && parse(host).None?
    ensures NameHits(rs, NormalizeDomain(host)) <==> ListHits(sels, host, parse)
  {
    var name := NormalizeDomain(host);
    ReachedIsUnder(rs.suffix, name);
    if NameHits(rs, name) {
      if name in rs.full {
        assert Hits(FullName(name), None, host, parse);
      } else if Reached(rs.suffix, name) {
        var d :| Filed(rs.suffix, d) && UnderDomain(name, d);
        assert Hits(DomainOf(d), None, host, parse);
      } else {
        var k :| k in rs.keywords && Contains(name, k);
        assert Hits(KeywordIn(k), None, host, parse);
      }
    }
    if s :| s in sels && !s.InBook? && Hits(s, None, host, parse) {
      assert s.DomainOf? ==> Filed(rs.suffix, s.name);
    }
  }

  // ----- the book's part

  ghost function BookNames(sels: seq<Selector>): set<Bytes> {
    set s | s in sels && s.InBook? :: NormalizeCategory(s.pattern)
  }

  /** The list of names that is resolved in the book, if there are any. */
  ghost function BookKeys(sels: seq<Selector>): seq<seq<Bytes>> {
    if BookNames(sels) == {} then [] else [SortedTexts(BookNames(sels))]
  }

  ghost predicate BookPart(rs: RuleSet, sels: seq<Selector>, book: Option<RawBook>) {
    && (rs.book.None? ==> forall s :: s in sels ==> !s.InBook?)
    && (rs.book.Some? ==> book.Some? && ResolvesTo(book.value, BookNames(sels), Ok(rs.book.value.mask)))
  }

  /** The compiled set stands for these selectors. */
  ghost predicate Means(rs: RuleSet, sels: seq<Selector>, book: Option<RawBook>) {
    Holds(rs, sels) && BookPart(rs, sels, book)
  }

  lemma BookListed(rs: RuleSet, sels: seq<Selector>, book: Option<RawBook>, host: Bytes, parse: ParseAddr)
    requires BookPart(rs, sels, book)
    ensures BookHits(rs, book, host, parse) <==> exists s :: s in sels && s.InBook? && Hits(s, book, host, parse)
  {
    if rs.book.Some? {
      var b, names, sel := book.value, BookNames(sels), rs.book.value.mask;
      if Selects(b, HostSets(b, host, parse), sel) {
        var c :| c in CategoriesOf(b, HostSets(b, host, parse)) * Bits(sel);
        assert c in Selected(b, names);
        var n :| n in names && Under(b.categories[c].name, n);
        var s :| s in sels && s.InBook? && NormalizeCategory(s.pattern) == n;
        assert InCategory(b, host, parse, n) && Hits(s, book, host, parse);
      }
      if s :| s in sels && s.InBook? && Hits(s, book, host, parse) {
        var n := NormalizeCategory(s.pattern);
        var c :| c in CategoriesOf(b, HostSets(b, host, parse)) && c < |b.categories| && Under(b.categories[c].name, n);
        assert n in names && c in Selected(b, names);
        assert c in CategoriesOf(b, HostSets(b, host, parse)) * Bits(sel);
      }
    }
  }

  lemma AnyHitsSplits(sels: seq<Selector>, book: Option<RawBook>, host: Bytes, parse: ParseAddr)
    ensures AnyHits(sels, book, host, parse) <==>
            ListHits(sels, host, parse) || exists s :: s in sels && s.InBook? && Hits(s, book, host, parse)
  {
    if i :| 0 <= i < |sels| && Hits(sels[i], book, host, parse) {
      assert sels[i] in sels && (!sels[i].InBook? ==> Hits(sels[i], None, host, parse));
    }
    if s :| s in sels && Hits(s, if s.InBook? then book else None, host, parse) {
      var i :| 0 <= i < |sels| && sels[i] == s;
      assert Hits(sels[i], book, host, parse);
    }
  }

  /** A rule set hits exactly what its selector list hits. */
  lemma CompiledHits(rs: RuleSet, sels: seq<Selector>, book: Option<RawBook>, host: Bytes, parse: ParseAddr)
    requires Means(rs, sels, book)
    ensures SetHits(rs, book, host, parse) <==> AnyHits(sels, book, host, parse)
  {
    if parse(host).Some? { AddressListed(rs, sels, host, parse); } else { NameListed(rs, sels, host, parse); }
    BookListed(rs, sels, book, host, parse);
    AnyHitsSplits(sels, book, host, parse);
  }

  // ----- compiling

  ghost predicate AllResolvable(sels: seq<Selector>, book: Option<RawBook>) {
    forall s :: s in sels ==> Resolvable(s, book)
  }

  function BookOf(book: Option<AddrBook>): Option<RawBook> {
    if book.Some? then Some(book.value.raw) else None
  }

  lemma TrimmedProper(t: Bytes, parseIp: ParseIp)
    ensures Proper(TrimmedSelector(t, parseIp))
  {
  }

  /** The categories named by the first rules. */
  ghost predicate Gathered(patterns: seq<Bytes>, sels: seq<Selector>) {
    && (forall p :: p in patterns <==> InBook(p) in sels)
    && [] !in patterns
  }

  /** The selectors of the rules, read by `read`. */
  ghost predicate ReadBy(sels: seq<Selector>, rules: seq<Bytes>, read: Bytes -> Selector) {
    |sels| == |rules| && forall i :: 0 <= i < |rules| ==> sels[i] == read(rules[i])
  }

  /** Enter every selector but the book's, which are gathered. */
  method EnterAll(rules: seq<Bytes>, read: Bytes -> Selector, ghost sels: seq<Selector>)
      returns (r: Option<(RuleSet, seq<Bytes>)>)
    requires ReadBy(sels, rules, read) && forall s :: s in sels ==> Proper(s)
    ensures r.Some? ==> Holds(r.value.0, sels) && r.value.0.book.None? && Gathered(r.value.1, sels)
    ensures r.None? ==> InBook([]) in sels
  {
    var rs, patterns: seq<Bytes> := NO_RULES, [];
    NothingHolds();
    for i := 0 to |rules|
      invariant Holds(rs, sels[..i]) && rs.book.None? && Gathered(patterns, sels[..i])
    {
      var s := read(rules[i]);
      assert s in sels;
      EnterHolds(rs, sels[..i], s);
      assert sels[..i + 1] == sels[..i] + [s];
      if s.InBook? {
        if s.pattern == [] { return None; }
        patterns := patterns + [s.pattern];
      }
      rs := Enter(rs, s);
    }
    assert sels[..|rules|] == sels;
    r := Some((rs, patterns));
  }

  lemma AllProper(rules: seq<Bytes>, parseIp: ParseIp)
    ensures forall s :: s in SelectorsOf(rules, parseIp) ==> Proper(s)
  {
    var sels := SelectorsOf(rules, parseIp);
    forall i | 0 <= i < |sels| ensures Proper(sels[i]) { TrimmedProper(Trim(rules[i]), parseIp); }
  }

  method EnterRules(rules: seq<Bytes>, parseIp: ParseIp) returns (r: Option<(RuleSet, seq<Bytes>)>)
    ensures r.Some? ==>
              && Holds(r.value.0, SelectorsOf(rules, parseIp)) && r.value.0.book.None?
              && Gathered(r.value.1, SelectorsOf(rules, parseIp))
    ensures r.None? ==> InBook([]) in SelectorsOf(rules, parseIp)
  {
    AllProper(rules, parseIp);
    r := EnterAll(rules, rule => SelectorOf(rule, parseIp), SelectorsOf(rules, parseIp));
  }

  lemma GatheredNames(patterns: seq<Bytes>, sels: seq<Selector>, book: Option<RawBook>)
    requires Gathered(patterns, sels)
    ensures Normalized(patterns) == BookNames(sels)
    ensures patterns == [] ==> AllResolvable(sels, book) && forall s :: s in sels ==> !s.InBook?
    ensures patterns != [] && book.None? ==> !AllResolvable(sels, book)
    ensures book.Some? ==>
              (AllResolvable(sels, book) <==> forall n :: n in BookNames(sels) ==> n != [] && Known(book.value, n))
  {
    forall n ensures n in Normalized(patterns) <==> n in BookNames(sels) {
      if n in Normalized(patterns) {
        var p :| p in patterns && NormalizeCategory(p) == n;
        assert InBook(p) in sels;
      }
      if n in BookNames(sels) {
        var s :| s in sels && s.InBook? && NormalizeCategory(s.pattern) == n;
        assert s.pattern in patterns;
      }
    }
    forall s | s in sels && s.InBook? ensures s.pattern in patterns && NormalizeCategory(s.pattern) in BookNames(sels) {
      assert s == InBook(s.pattern);
    }
    if patterns != [] { assert InBook(patterns[0]) in sels; }
  }

  /** The cache after a selector list has been resolved: untouched without `book:`
      selectors, otherwise its one selector looked up or published. */
  ghost predicate CacheStep(c: Cache, c': Cache, sels: seq<Selector>, book: Option<SharedMask>) {
    if BookNames(sels) == {} then c' == c && book.None?
    else book.Some? && (c', book.value) == Publish(c, SortedTexts(BookNames(sels)), book.value.mask)
  }

  function CacheOf(book: Option<AddrBook>): Cache
    reads if book.Some? then {book.value} else {}
  {
    if book.Some? then book.value.cache else EMPTY_CACHE
  }

  /** `RuleSet::from_rules`: fails exactly when a `book:` selector does not resolve. */
  method FromRules(rules: seq<Bytes>, book: Option<AddrBook>, parseIp: ParseIp) returns (r: Result<RuleSet>)
    requires book.Some? ==> book.value.Valid()
    modifies if book.Some? then {book.value} else {}
    ensures book.Some? ==> book.value.Valid()
    ensures r.Ok? <==> AllResolvable(SelectorsOf(rules, parseIp), BookOf(book))
    ensures r.Ok? ==> Means(r.value, SelectorsOf(rules, parseIp), BookOf(book))
    ensures r.Ok? ==> CacheStep(old(CacheOf(book)), CacheOf(book), SelectorsOf(rules, parseIp), r.value.book)
  {
    ghost var sels := SelectorsOf(rules, parseIp);
    var parts := EnterRules(rules, parseIp);
    if parts.None? {
      assert !Resolvable(InBook([]), BookOf(book));
      return Err;
    }
    var (rs, patterns) := parts.value;
    GatheredNames(patterns, sels, BookOf(book));
    if patterns == [] { return Ok(rs); }
    assert NormalizeCategory(patterns[0]) in Normalized(patterns);
    if book.None? { return Err; }
    var sel := book.value.Resolve(patterns);
    if sel.Err? { return Err; }
    r := Ok(rs.(book := Some(sel.value)));
  }

  method NameMatches(rs: RuleSet, name: Bytes) returns (r: bool)
    ensures r <==> NameHits(rs, name)
  {
    if name == [] { return false; }
    if name in rs.full { return true; }
    var best := Best(rs.suffix, name);
    if best.Some? { return true; }
    for i := 0 to |rs.keywords|
      invariant forall j :: 0 <= j < i ==> !Contains(name, rs.keywords[j])
    {
      if Contains(name, rs.keywords[i]) { return true; }
    }
    r := false;
  }

  method AddressMatches(rs: RuleSet, a: IpAddr) returns (r: bool)
    ensures r <==> AddressHits(rs, a)
  {
    if a in rs.exact { return true; }
    for i := 0 to |rs.cidrs|
      invariant forall j :: 0 <= j < i ==> !NetHas(rs.cidrs[j], a)
    {
      if NetHas(rs.cidrs[i], a) { return true; }
    }
    r := false;
  }

  /** A host matches exactly when one of the selectors hits it. */
  method SetMatches(rs: RuleSet, ghost sels: seq<Selector>, book: Option<RawBook>, host: Bytes, parse: ParseAddr)
      returns (r: bool)
    requires Means(rs, sels, book) && (book.Some? ==> Valid(book.value) && ValidMask(book.value.catsets))
    ensures r <==> AnyHits(sels, book, host, parse)
  {
    CompiledHits(rs, sels, book, host, parse);
    var a := parse(host);
    if a.Some? {
      r := AddressMatches(rs, a.value);
    } else {
      r := NameMatches(rs, NormalizeDomain(host));
    }
    if !r && rs.book.Some? { r := Matches(book.value, host, rs.book.value.mask, parse); }
  }
}
