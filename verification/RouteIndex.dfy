/** The first-match index of a routing policy: every selector filed with the smallest
    route that has it, so that one pass finds what trying the routes in order finds. */
module RouteIndex {
  import opened Wrappers
  import opened Words
  import opened Text
  import opened BookFormat
  import opened Addresses
  import opened Queries
  import opened Trie
  import opened SelectorCache
  import opened RuleSets

  datatype RouteIndex = RouteIndex(
    full: map<Bytes, nat>, suffix: Node, keywords: seq<(Bytes, nat)>,
    exact: map<IpAddr, nat>, cidrs: seq<(IpRange, nat)>, books: seq<(nat, SharedMask)>)

  const NO_ROUTES: RouteIndex := RouteIndex(map[], EMPTY, [], map[], [], [])

  /** `u32::MAX` */
  const NONE: nat := 0xFFFF_FFFF

  // ----- least indices

  /** The least index below `n` that hits, if any. */
  ghost predicate LeastAt(r: Option<nat>, n: nat, hit: nat -> bool) {
    && (r.Some? ==> r.value < n && hit(r.value))
    && forall i: nat :: i < n && hit(i) ==> r.Some? && r.value <= i
  }

  /** The same with the sentinel. */
  ghost predicate LeastSoFar(best: nat, n: nat, hit: nat -> bool) {
    && best <= NONE && (best < NONE ==> best < n && hit(best))
    && forall i: nat :: i < n && hit(i) ==> best <= i
  }

  function MinWith(best: nat, r: Option<nat>): nat {
    if r.Some? && r.value < best then r.value else best
  }

  lemma LeastOfBoth(best: nat, r: Option<nat>, n: nat, p: nat -> bool, q: nat -> bool, both: nat -> bool)
    requires LeastSoFar(best, n, p) && LeastAt(r, n, q) && n <= NONE
    requires forall i: nat :: i < n ==> (both(i) <==> p(i) || q(i))
    ensures LeastSoFar(MinWith(best, r), n, both)
  {
  }

  /** Walk a list of tagged items, keeping the least tag that passes. */
  method Scan<T(!new)>(items: seq<(T, nat)>, best: nat, test: T -> bool) returns (r: nat)
    ensures r <= best && (r < best ==> exists j :: 0 <= j < |items| && items[j].1 == r && test(items[j].0))
    ensures forall j :: 0 <= j < |items| && test(items[j].0) ==> r <= items[j].1
  {
    r := best;
    for i := 0 to |items|
      invariant r <= best && (r < best ==> exists j :: 0 <= j < i && items[j].1 == r && test(items[j].0))
      invariant forall j :: 0 <= j < i && test(items[j].0) ==> r <= items[j].1
    {
      if items[i].1 < r && test(items[i].0) {
        r := items[i].1;
        if r == 0 { break; }
      }
    }
  }

  lemma ScanLeast<T(!new)>(items: seq<(T, nat)>, best: nat, test: T -> bool, r: nat, n: nat,
                           p: nat -> bool, both: nat -> bool)
    requires LeastSoFar(best, n, p) && n <= NONE
    requires r <= best && (r < best ==> exists j :: 0 <= j < |items| && items[j].1 == r && test(items[j].0))
    requires forall j :: 0 <= j < |items| && test(items[j].0) ==> r <= items[j].1
    requires forall i: nat :: i < n ==> (both(i) <==> p(i) || Tagged(items, i, test))
    requires forall j :: 0 <= j < |items| ==> items[j].1 < n
    ensures LeastSoFar(r, n, both)
  {
    if r < best {
      var j :| 0 <= j < |items| && items[j].1 == r && test(items[j].0);
      assert Tagged(items, r, test);
    }
    forall i: nat | i < n && both(i) ensures r <= i {
      if !p(i) {
        var j :| 0 <= j < |items| && items[j].1 == i && test(items[j].0);
      }
    }
  }

  ghost predicate Tagged<T(!new)>(items: seq<(T, nat)>, i: nat, test: T -> bool) {
    exists j :: 0 <= j < |items| && items[j].1 == i && test(items[j].0)
  }

  // ----- what the index holds

  ghost function InFull(routes: seq<RuleSet>, x: Bytes): nat -> bool {
    (i: nat) => i < |routes| && x in routes[i].full
  }

  ghost function InExact(routes: seq<RuleSet>, x: IpAddr): nat -> bool {
    (i: nat) => i < |routes| && x in routes[i].exact
  }

  ghost function InSuffix(routes: seq<RuleSet>, d: Bytes): nat -> bool {
    (i: nat) => i < |routes| && Filed(routes[i].suffix, d)
  }

  function Find<K>(m: map<K, nat>, x: K): Option<nat> {
    if x in m then Some(m[x]) else None
  }

  ghost predicate HoldsFull(m: map<Bytes, nat>, routes: seq<RuleSet>) {
    forall x :: LeastAt(Find(m, x), |routes|, InFull(routes, x))
  }

  ghost predicate HoldsExact(m: map<IpAddr, nat>, routes: seq<RuleSet>) {
    forall x :: LeastAt(Find(m, x), |routes|, InExact(routes, x))
  }

  ghost predicate HoldsSuffix(t: Node, routes: seq<RuleSet>) {
    OnlyDomains(t) && forall d :: d != [] ==> LeastAt(Get(t, Path(d)), |routes|, InSuffix(routes, d))
  }

  ghost predicate HoldsKeywords(ks: seq<(Bytes, nat)>, routes: seq<RuleSet>) {
    forall k, i: nat :: (k, i) in ks <==> i < |routes| && k in routes[i].keywords
  }

  ghost predicate HoldsCidrs(cs: seq<(IpRange, nat)>, routes: seq<RuleSet>) {
    forall c, i: nat :: (c, i) in cs <==> i < |routes| && c in routes[i].cidrs
  }

  ghost predicate HoldsBooks(bs: seq<(nat, SharedMask)>, routes: seq<RuleSet>) {
    forall i: nat, m :: (i, m) in bs <==> i < |routes| && routes[i].book == Some(m)
  }

  ghost predicate Represents(ix: RouteIndex, routes: seq<RuleSet>) {
    && HoldsFull(ix.full, routes) && HoldsSuffix(ix.suffix, routes) && HoldsKeywords(ix.keywords, routes)
    && HoldsExact(ix.exact, routes) && HoldsCidrs(ix.cidrs, routes) && HoldsBooks(ix.books, routes)
    && forall i :: 0 <= i < |routes| ==> OnlyDomains(routes[i].suffix)
  }

  // ----- indexing one more route

  /** The smallest index is unchanged if there was one, else it is the new route's. */
  lemma LeastOfMore(r: Option<nat>, n: nat, p: nat -> bool, q: nat -> bool)
    requires LeastAt(r, n, p) && forall i: nat :: i < n ==> (q(i) <==> p(i))
    ensures LeastAt(if r.Some? then r else if q(n) then Some(n) else None, n + 1, q)
  {
  }

  /** `note_min` for every key. */
  method NoteAll<K(!new)>(m: map<K, nat>, keys: set<K>, idx: nat) returns (r: map<K, nat>)
    ensures forall x :: Find(r, x) == if x in keys then Some(Lesser(Find(m, x), idx)) else Find(m, x)
  {
    r := m;
    var todo := keys;
    while todo != {}
      invariant todo <= keys
      invariant forall x :: Find(r, x) == if x in keys - todo then Some(Lesser(Find(m, x), idx)) else Find(m, x)
      decreases |todo|
    {
      var x :| x in todo;
      r := r[x := Lesser(Find(r, x), idx)];
      todo := todo - {x};
    }
  }

  /** `IndexedSuffix::add` */
  function Add(t: Node, domain: Bytes, idx: nat): Node {
    if domain == [] then t else Insert(t, Path(domain), idx)
  }

  lemma AddFiles(t: Node, d: Bytes, idx: nat)
    requires OnlyDomains(t) && d != []
    ensures OnlyDomains(Add(t, d, idx))
    ensures forall e :: e != [] ==>
              Get(Add(t, d, idx), Path(e)) == if e == d then Some(Lesser(Get(t, Path(d)), idx)) else Get(t, Path(e))
  {
    InsertFiles(t, d, idx);
    forall e | e != []
      ensures Get(Add(t, d, idx), Path(e)) == if e == d then Some(Lesser(Get(t, Path(d)), idx)) else Get(t, Path(e))
    {
      GetInsert(t, Path(d), idx, Path(e));
      if Path(e) == Path(d) { PathInjective(d, e); }
    }
  }

  /** The domain of a filed path. */
  lemma FiledPath(t: Node, p: seq<Bytes>)
    requires OnlyDomains(t) && p in Paths(t)
    ensures var d := Join(Reverse(p), DOT); d != [] && p == Path(d) && Filed(t, d)
  {
    PathsAreFiled(t, p);
    var d :| d != [] && p == Path(d);
    PathNames(d);
  }

  /** `contribute_suffixes` into the index. */
  method AddSuffixes(t: Node, from: Node, idx: nat) returns (r: Node)
    requires OnlyDomains(t) && OnlyDomains(from)
    ensures OnlyDomains(r)
    ensures forall d :: d != [] ==>
              Get(r, Path(d)) == if Filed(from, d) then Some(Lesser(Get(t, Path(d)), idx)) else Get(t, Path(d))
  {
    r := t;
    var todo := Paths(from);
    forall d | Filed(from, d) ensures Path(d) in Paths(from) { PathsAreFiled(from, Path(d)); }
    while todo != {}
      invariant OnlyDomains(r) && todo <= Paths(from)
      invariant forall d :: d != [] ==>
                  Get(r, Path(d)) ==
                  if Filed(from, d) && Path(d) !in todo then Some(Lesser(Get(t, Path(d)), idx)) else Get(t, Path(d))
      decreases |todo|
    {
      var p :| p in todo;
      var domain := Join(Reverse(p), DOT);
      FiledPath(from, p);
      AddFiles(r, domain, idx);
      forall d | d != [] && Path(d) == p ensures d == domain { PathInjective(d, domain); }
      r := Add(r, domain, idx);
      todo := todo - {p};
    }
  }

  /** Items tagged with one index. */
  function TagAll<T>(xs: seq<T>, idx: nat): (r: seq<(T, nat)>)
    ensures |r| == |xs| && forall i :: 0 <= i < |xs| ==> r[i] == (xs[i], idx)
  {
    seq(|xs|, i requires 0 <= i < |xs| => (xs[i], idx))
  }

  lemma TagAllHolds<T>(xs: seq<T>, idx: nat, x: T, i: nat)
    ensures (x, i) in TagAll(xs, idx) <==> x in xs && i == idx
  {
    if x in xs {
      var j :| 0 <= j < |xs| && xs[j] == x;
      assert TagAll(xs, idx)[j] == (x, idx);
    }
  }

  lemma FullSnoc(m: map<Bytes, nat>, r: map<Bytes, nat>, routes: seq<RuleSet>, rs: RuleSet)
    requires HoldsFull(m, routes)
    requires forall x :: Find(r, x) == if x in rs.full then Some(Lesser(Find(m, x), |routes|)) else Find(m, x)
    ensures HoldsFull(r, routes + [rs])
  {
    forall x ensures LeastAt(Find(r, x), |routes| + 1, InFull(routes + [rs], x)) {
      LeastOfMore(Find(m, x), |routes|, InFull(routes, x), InFull(routes + [rs], x));
    }
  }

  lemma ExactSnoc(m: map<IpAddr, nat>, r: map<IpAddr, nat>, routes: seq<RuleSet>, rs: RuleSet)
    requires HoldsExact(m, routes)
    requires forall x :: Find(r, x) == if x in rs.exact then Some(Lesser(Find(m, x), |routes|)) else Find(m, x)
    ensures HoldsExact(r, routes + [rs])
  {
    forall x ensures LeastAt(Find(r, x), |routes| + 1, InExact(routes + [rs], x)) {
      LeastOfMore(Find(m, x), |routes|, InExact(routes, x), InExact(routes + [rs], x));
    }
  }

  lemma SuffixSnoc(t: Node, r: Node, routes: seq<RuleSet>, rs: RuleSet)
    requires HoldsSuffix(t, routes) && OnlyDomains(r)
    requires forall d :: d != [] ==>
               Get(r, Path(d)) ==
                 if Filed(rs.suffix, d) then Some(Lesser(Get(t, Path(d)), |routes|)) else Get(t, Path(d))
    ensures HoldsSuffix(r, routes + [rs])
  {
    forall d | d != [] ensures LeastAt(Get(r, Path(d)), |routes| + 1, InSuffix(routes + [rs], d)) {
      LeastOfMore(Get(t, Path(d)), |routes|, InSuffix(routes, d), InSuffix(routes + [rs], d));
    }
  }

  lemma ListsSnoc(ix: RouteIndex, routes: seq<RuleSet>, rs: RuleSet)
    requires Represents(ix, routes)
    ensures HoldsKeywords(ix.keywords + TagAll(rs.keywords, |routes|), routes + [rs])
    ensures HoldsCidrs(ix.cidrs + TagAll(rs.cidrs, |routes|), routes + [rs])
  {
    forall k, i: nat
      ensures (k, i) in ix.keywords + TagAll(rs.keywords, |routes|) <==>
              i < |routes| + 1 && k in (routes + [rs])[i].keywords
    {
      TagAllHolds(rs.keywords, |routes|, k, i);
    }
    forall c, i: nat
      ensures (c, i) in ix.cidrs + TagAll(rs.cidrs, |routes|) <==> i < |routes| + 1 && c in (routes + [rs])[i].cidrs
    {
      TagAllHolds(rs.cidrs, |routes|, c, i);
    }
  }

  /** `index_into` */
  method IndexInto(ix: RouteIndex, rs: RuleSet, ghost routes: seq<RuleSet>, idx: nat) returns (r: RouteIndex)
    requires Represents(ix, routes) && OnlyDomains(rs.suffix) && idx == |routes|
    ensures Represents(r, routes + [rs])
  {
    var full := NoteAll(ix.full, rs.full, idx);
    var suffix := AddSuffixes(ix.suffix, rs.suffix, idx);
    var exact := NoteAll(ix.exact, rs.exact, idx);
    FullSnoc(ix.full, full, routes, rs);
    SuffixSnoc(ix.suffix, suffix, routes, rs);
    ExactSnoc(ix.exact, exact, routes, rs);
    ListsSnoc(ix, routes, rs);
    var books := ix.books + if rs.book.Some? then [(idx, rs.book.value)] else [];
    r := RouteIndex(full, suffix, ix.keywords + TagAll(rs.keywords, idx), exact, ix.cidrs + TagAll(rs.cidrs, idx),
                    books);
  }

  /** `RoutingPolicy::from_routes`: the index of all routes. */
  method IndexRoutes(routes: seq<RuleSet>) returns (ix: RouteIndex)
    requires forall i :: 0 <= i < |routes| ==> OnlyDomains(routes[i].suffix)
    ensures Represents(ix, routes)
  {
    ix := NO_ROUTES;
    forall p ensures Get(EMPTY, p).None? { EmptyGet(p); }
    for i := 0 to |routes|
      invariant Represents(ix, routes[..i])
    {
      assert routes[..i + 1] == routes[..i] + [routes[i]];
      ix := IndexInto(ix, routes[i], routes[..i], i);
    }
    assert routes[..|routes|] == routes;
  }

  // ----- finding the first match

  ghost function AddressHit(routes: seq<RuleSet>, a: IpAddr): nat -> bool {
    (i: nat) => i < |routes| && AddressHits(routes[i], a)
  }

  ghost function NameHit(routes: seq<RuleSet>, name: Bytes): nat -> bool {
    (i: nat) => i < |routes| && NameHits(routes[i], name)
  }

  ghost function TableHit(routes: seq<RuleSet>, host: Bytes, parse: ParseAddr): nat -> bool {
    (i: nat) => i < |routes| && TableHits(routes[i], host, parse)
  }

  ghost function RouteHit(routes: seq<RuleSet>, book: Option<RawBook>, host: Bytes, parse: ParseAddr): nat -> bool {
    (i: nat) => i < |routes| && SetHits(routes[i], book, host, parse)
  }

  ghost function ReachedIn(routes: seq<RuleSet>, name: Bytes): nat -> bool {
    (i: nat) => i < |routes| && Reached(routes[i].suffix, name)
  }

  /** The walk down the shared trie finds the least route whose own trie is reached. */
  lemma SuffixLeast(ix: RouteIndex, routes: seq<RuleSet>, name: Bytes, r: Option<nat>)
    requires Represents(ix, routes) && LeastTo(ix.suffix, Path(name), |Path(name)|, r)
    ensures LeastAt(r, |routes|, ReachedIn(routes, name))
  {
    var path := Path(name);
    if r.Some? {
      var j :| 0 < j <= |path| && Get(ix.suffix, path[..j]) == r;
      var d :| d != [] && path[..j] == Path(d);
      assert LeastAt(Get(ix.suffix, Path(d)), |routes|, InSuffix(routes, d));
      assert Get(routes[r.value].suffix, path[..j]).Some?;
    }
    forall i: nat | i < |routes| && Reached(routes[i].suffix, name) ensures r.Some? && r.value <= i {
      var j :| 0 < j <= |path| && Get(routes[i].suffix, path[..j]).Some?;
      assert OnlyDomains(routes[i].suffix);
      var d :| d != [] && path[..j] == Path(d);
      assert LeastAt(Get(ix.suffix, Path(d)), |routes|, InSuffix(routes, d));
      assert InSuffix(routes, d)(i);
    }
  }

  lemma CidrsTagged(ix: RouteIndex, routes: seq<RuleSet>, a: IpAddr)
    requires Represents(ix, routes)
    ensures forall j :: 0 <= j < |ix.cidrs| ==> ix.cidrs[j].1 < |routes|
    ensures forall i: nat :: i < |routes| ==>
              (AddressHit(routes, a)(i) <==> InExact(routes, a)(i) || Tagged(ix.cidrs, i, r => NetHas(r, a)))
  {
    forall j | 0 <= j < |ix.cidrs| ensures ix.cidrs[j].1 < |routes| && ix.cidrs[j].0 in routes[ix.cidrs[j].1].cidrs {
      assert (ix.cidrs[j].0, ix.cidrs[j].1) in ix.cidrs;
    }
    forall i: nat | i < |routes|
      ensures (exists r :: r in routes[i].cidrs && NetHas(r, a)) <==> Tagged(ix.cidrs, i, r => NetHas(r, a))
    {
      if r :| r in routes[i].cidrs && NetHas(r, a) {
        assert (r, i) in ix.cidrs;
        var j :| 0 <= j < |ix.cidrs| && ix.cidrs[j] == (r, i);
      }
    }
  }

  lemma KeywordsTagged(ix: RouteIndex, routes: seq<RuleSet>, name: Bytes, p: nat -> bool)
    requires Represents(ix, routes) && name != []
    requires forall i: nat :: i < |routes| ==> (p(i) <==> InFull(routes, name)(i) || ReachedIn(routes, name)(i))
    ensures forall j :: 0 <= j < |ix.keywords| ==> ix.keywords[j].1 < |routes|
    ensures forall i: nat :: i < |routes| ==>
              (NameHit(routes, name)(i) <==> p(i) || Tagged(ix.keywords, i, k => Contains(name, k)))
  {
    forall j | 0 <= j < |ix.keywords|
      ensures ix.keywords[j].1 < |routes| && ix.keywords[j].0 in routes[ix.keywords[j].1].keywords
    {
      assert (ix.keywords[j].0, ix.keywords[j].1) in ix.keywords;
    }
    forall i: nat | i < |routes|
      ensures (exists k :: k in routes[i].keywords && Contains(name, k)) <==>
              Tagged(ix.keywords, i, k => Contains(name, k))
    {
      if k :| k in routes[i].keywords && Contains(name, k) {
        assert (k, i) in ix.keywords;
        var j :| 0 <= j < |ix.keywords| && ix.keywords[j] == (k, i);
      }
    }
  }

  method FirstByAddress(ix: RouteIndex, ghost routes: seq<RuleSet>, a: IpAddr) returns (best: nat)
    requires Represents(ix, routes) && |routes| <= NONE
    ensures LeastSoFar(best, |routes|, AddressHit(routes, a))
  {
    best := MinWith(NONE, Find(ix.exact, a));
    LeastOfBoth(NONE, Find(ix.exact, a), |routes|, i => false, InExact(routes, a), InExact(routes, a));
    CidrsTagged(ix, routes, a);
    var r := Scan(ix.cidrs, best, r => NetHas(r, a));
    ScanLeast(ix.cidrs, best, r => NetHas(r, a), r, |routes|, InExact(routes, a), AddressHit(routes, a));
    best := r;
  }

  method FirstByName(ix: RouteIndex, ghost routes: seq<RuleSet>, name: Bytes) returns (best: nat)
    requires Represents(ix, routes) && |routes| <= NONE
    ensures LeastSoFar(best, |routes|, NameHit(routes, name))
  {
    best := NONE;
    if name == [] { return; }
    ghost var full := InFull(routes, name);
    ghost var either := (i: nat) => full(i) || ReachedIn(routes, name)(i);
    LeastOfBoth(NONE, Find(ix.full, name), |routes|, i => false, full, full);
    best := MinWith(best, Find(ix.full, name));
    var suffix := Best(ix.suffix, name);
    SuffixLeast(ix, routes, name, suffix);
    LeastOfBoth(best, suffix, |routes|, full, ReachedIn(routes, name), either);
    best := MinWith(best, suffix);
    KeywordsTagged(ix, routes, name, either);
    var r := Scan(ix.keywords, best, k => Contains(name, k));
    ScanLeast(ix.keywords, best, k => Contains(name, k), r, |routes|, either, NameHit(routes, name));
    best := r;
  }

  /** Entry `j` of the book list selects the host. */
  ghost predicate BookEntryHits(ix: RouteIndex, j: nat, book: RawBook, host: Bytes, parse: ParseAddr)
    requires j < |ix.books|
  {
    Selects(book, HostSets(book, host, parse), ix.books[j].1.mask)
  }

  /** `best` is least among the tables' hits and those of the first `n` book entries. */
  ghost predicate LeastWithBooks(ix: RouteIndex, routes: seq<RuleSet>, book: RawBook, host: Bytes, parse: ParseAddr,
                                 best: nat, n: nat)
    requires n <= |ix.books|
  {
    && best <= NONE
    && (best < NONE ==>
          && best < |routes|
          && (|| TableHit(routes, host, parse)(best)
              || exists j :: 0 <= j < n && ix.books[j].0 == best && BookEntryHits(ix, j, book, host, parse)))
    && (forall i: nat :: i < |routes| && TableHit(routes, host, parse)(i) ==> best <= i)
    && forall j :: 0 <= j < n && BookEntryHits(ix, j, book, host, parse) ==> best <= ix.books[j].0
  }

  lemma BooksLeast(ix: RouteIndex, routes: seq<RuleSet>, book: RawBook, host: Bytes, parse: ParseAddr, best: nat)
    requires Represents(ix, routes) && LeastWithBooks(ix, routes, book, host, parse, best, |ix.books|)
    ensures LeastSoFar(best, |routes|, RouteHit(routes, Some(book), host, parse))
  {
    var hit := RouteHit(routes, Some(book), host, parse);
    if best < NONE && !TableHit(routes, host, parse)(best) {
      var j :| 0 <= j < |ix.books| && ix.books[j].0 == best && BookEntryHits(ix, j, book, host, parse);
      assert (ix.books[j].0, ix.books[j].1) in ix.books;
      assert hit(best);
    }
    forall i: nat | i < |routes| && hit(i) ensures best <= i {
      if TableHits(routes[i], host, parse) {
        assert TableHit(routes, host, parse)(i);
      } else {
        assert (i, routes[i].book.value) in ix.books;
        var j :| 0 <= j < |ix.books| && ix.books[j] == (i, routes[i].book.value);
        assert BookEntryHits(ix, j, book, host, parse);
      }
    }
  }

  lemma BooksStep(ix: RouteIndex, routes: seq<RuleSet>, book: RawBook, host: Bytes, parse: ParseAddr, best: nat, n: nat)
    requires Represents(ix, routes) && |routes| <= NONE && n < |ix.books|
    requires LeastWithBooks(ix, routes, book, host, parse, best, n)
    ensures var i := ix.books[n].0;
            var best' := if i < best && BookEntryHits(ix, n, book, host, parse) then i else best;
            LeastWithBooks(ix, routes, book, host, parse, best', n + 1)
  {
    assert (ix.books[n].0, ix.books[n].1) in ix.books;
    assert HoldsBooks(ix.books, routes);
  }

  lemma ZeroIsLeast(ix: RouteIndex, routes: seq<RuleSet>, book: RawBook, host: Bytes, parse: ParseAddr, n: nat)
    requires n <= |ix.books| && LeastWithBooks(ix, routes, book, host, parse, 0, n)
    ensures LeastWithBooks(ix, routes, book, host, parse, 0, |ix.books|)
  {
  }

  /** The book entries, only those that could improve on `best`. */
  method ScanBooks(ix: RouteIndex, ghost routes: seq<RuleSet>, book: RawBook, host: Bytes, parse: ParseAddr, first: nat)
      returns (best: nat)
    requires Represents(ix, routes) && |routes| <= NONE && Valid(book) && ValidMask(book.catsets)
    requires LeastSoFar(first, |routes|, TableHit(routes, host, parse))
    ensures LeastSoFar(best, |routes|, RouteHit(routes, Some(book), host, parse))
  {
    best := first;
    for n := 0 to |ix.books|
      invariant LeastWithBooks(ix, routes, book, host, parse, best, n)
    {
      if ix.books[n].0 < best {
        var found := Matches(book, host, ix.books[n].1.mask, parse);
        BooksStep(ix, routes, book, host, parse, best, n);
        if found {
          best := ix.books[n].0;
          if best == 0 {
            ZeroIsLeast(ix, routes, book, host, parse, n + 1);
            break;
          }
        }
      } else {
        BooksStep(ix, routes, book, host, parse, best, n);
      }
    }
    BooksLeast(ix, routes, book, host, parse, best);
  }

  /** `first_match`: the least route that matches, as trying them in order would
      find it. */
  method FirstMatch(ix: RouteIndex, ghost routes: seq<RuleSet>, book: Option<RawBook>, host: Bytes, parse: ParseAddr)
      returns (r: Option<nat>)
    requires Represents(ix, routes) && |routes| <= NONE
    requires book.Some? ==> Valid(book.value) && ValidMask(book.value.catsets)
    ensures LeastAt(r, |routes|, RouteHit(routes, book, host, parse))
  {
    var a, best := parse(host), NONE;
    ghost var n, table := |routes|, TableHit(routes, host, parse);
    if a.Some? {
      best := FirstByAddress(ix, routes, a.value);
      SameHits(best, n, AddressHit(routes, a.value), table);
    } else {
      best := FirstByName(ix, routes, NormalizeDomain(host));
      SameHits(best, n, NameHit(routes, NormalizeDomain(host)), table);
    }
    if book.Some? {
      best := ScanBooks(ix, routes, book.value, host, parse, best);
    } else {
      SameHits(best, n, table, RouteHit(routes, book, host, parse));
    }
    r := if best != NONE then Some(best) else None;
    SoFarIsLeast(best, n, RouteHit(routes, book, host, parse));
  }

  lemma SameHits(best: nat, n: nat, p: nat -> bool, q: nat -> bool)
    requires LeastSoFar(best, n, p) && forall i: nat :: i < n ==> (p(i) <==> q(i))
    ensures LeastSoFar(best, n, q)
  {
  }

  lemma SoFarIsLeast(best: nat, n: nat, p: nat -> bool)
    requires LeastSoFar(best, n, p) && n <= NONE
    ensures LeastAt(if best != NONE then Some(best) else None, n, p)
  {
  }
}
