/** When a snapshot compiles, said of its names, lines and numbers. */
module DocumentLaws {
  import opened Wrappers
  import opened Text
  import opened BookFormat
  import opened Resolution
  import opened Rules
  import opened RuleSets
  import opened Spelling
  import opened Egresses
  import opened Snapshot
  import SnapshotCompiler
  import SelectorLaws
  import opened ReadingLaws

  /** Trimming leaves nothing of white space, and of nothing else. */
  lemma BlankIff(s: Bytes)
    ensures Trim(s) == [] <==> AllSpace(s)
  {
    if AllSpace(s) {
      assert s + [] + [] == s;
      TrimIs(s, [], []);
    }
    if Trim(s) == [] {
      var a := TrimStartParts(s);
      var b := TrimEndParts(TrimStart(s));
      assert TrimStart(s) == b;
      assert b == [] && s == a;
    }
  }

  // ----- lines

  /** The lines of a list that say something. */
  ghost function Lines(selectors: seq<Bytes>): set<nat> {
    set i: nat | i < |selectors| && !AllSpace(selectors[i])
  }

  lemma {:induction false} LinesCounted(selectors: seq<Bytes>)
    ensures CountSelectors(selectors) == |Lines(selectors)|
  {
    if selectors == [] {
      assert Lines(selectors) == {};
    } else {
      var n := |selectors| - 1;
      LinesCounted(selectors[..n]);
      BlankIff(selectors[n]);
      assert Lines(selectors) == Lines(selectors[..n]) + if AllSpace(selectors[n]) then {} else {n};
    }
  }

  /** A path that a "book:" line can name: there is a book, and a category at or below it. */
  ghost predicate PathOk(path: Bytes, book: Option<RawBook>) {
    && !AllSpace(path) && NormalizeCategory(path) != [] && book.Some?
    && exists i :: 0 <= i < |book.value.categories| && Under(book.value.categories[i].name, NormalizeCategory(path))
  }

  ghost predicate LineOk(line: Bytes, book: Option<RawBook>) {
    forall path :: Trim(line) == Ascii("book:") + path ==> PathOk(path, book)
  }

  lemma PathIs(t: Bytes, path: Bytes)
    requires t == Ascii("book:") + path
    ensures BOOK_PREFIX <= t && path == t[|BOOK_PREFIX|..]
  {
    assert Ascii("book:") == BOOK_PREFIX;
  }

  lemma PathOkIff(path: Bytes, book: Option<RawBook>)
    ensures Resolvable(InBook(Trim(path)), book) <==> PathOk(path, book)
  {
    BlankIff(path);
    SelectorLaws.TrimTwice(path);
  }

  lemma LineOkIff(line: Bytes, book: Option<RawBook>, ip: ParseIp)
    ensures Resolvable(SelectorOf(line, ip), book) <==> LineOk(line, book)
  {
    var t := Trim(line);
    forall path | t == Ascii("book:") + path ensures BOOK_PREFIX <= t && path == t[|BOOK_PREFIX|..] {
      PathIs(t, path);
    }
    if BOOK_PREFIX <= t {
      var path := t[|BOOK_PREFIX|..];
      PathOkIff(path, book);
      assert t == Ascii("book:") + path;
    }
  }

  // ----- routes and policies

  /** The action names an egress of this node, if it names one. */
  ghost predicate Reaches(a: RawAction, raw: RawSnapshot, node: Bytes) {
    a.ToEgress? ==> !AllSpace(a.id) && exists e :: NodeEgress(raw, node, Trim(a.id), e)
  }

  lemma ReachesIff(a: RawAction, raw: RawSnapshot, node: Bytes)
    ensures ActionOk(a, EgressesOf(raw, node)) <==> Reaches(a, raw, node)
  {
    if a.ToEgress? {
      var id := Trim(a.id);
      BlankIff(a.id);
      if id in EgressesOf(raw, node) { EgressHere(raw, node, id, EgressesOf(raw, node)[id]); }
      if e :| NodeEgress(raw, node, id, e) { EgressHere(raw, node, id, e); }
    }
  }

  ghost predicate RouteMeans(r: RawRoute, raw: RawSnapshot, node: Bytes, book: Option<RawBook>) {
    && (exists i :: 0 <= i < |r.selectors| && !AllSpace(r.selectors[i]))
    && (forall i :: 0 <= i < |r.selectors| ==> LineOk(r.selectors[i], book))
    && Reaches(r.action, raw, node)
  }

  lemma LinesKnown(selectors: seq<Bytes>, book: Option<RawBook>, ip: ParseIp)
    ensures AllResolvable(SelectorsOf(selectors, ip), book) <==>
            forall i :: 0 <= i < |selectors| ==> LineOk(selectors[i], book)
  {
    var sels := SelectorsOf(selectors, ip);
    forall i | 0 <= i < |selectors|
      ensures Resolvable(sels[i], book) <==> LineOk(selectors[i], book)
    {
      LineOkIff(selectors[i], book, ip);
    }
    if AllResolvable(sels, book) {
      forall i | 0 <= i < |selectors| ensures LineOk(selectors[i], book) { assert sels[i] in sels; }
    }
  }

  lemma RouteOkIff(r: RawRoute, raw: RawSnapshot, node: Bytes, book: Option<RawBook>, ip: ParseIp)
    ensures RouteOk(r, EgressesOf(raw, node), book, ip) <==> RouteMeans(r, raw, node, book)
  {
    LinesKnown(r.selectors, book, ip);
    LinesCounted(r.selectors);
    ReachesIff(r.action, raw, node);
    if i :| 0 <= i < |r.selectors| && !AllSpace(r.selectors[i]) { assert i in Lines(r.selectors); }
    if Lines(r.selectors) != {} { var i :| i in Lines(r.selectors); }
  }

  /** A policy without a default action goes direct. */
  ghost predicate PolicyMeans(p: RawPolicy, raw: RawSnapshot, node: Bytes, book: Option<RawBook>) {
    && (p.defaultAction.Some? ==> Reaches(p.defaultAction.value, raw, node))
    && forall i :: 0 <= i < |p.routes| ==> RouteMeans(p.routes[i], raw, node, book)
  }

  lemma PolicyOkIff(p: RawPolicy, raw: RawSnapshot, node: Bytes, book: Option<RawBook>, ip: ParseIp)
    ensures PolicyOk(p, EgressesOf(raw, node), book, ip) <==> PolicyMeans(p, raw, node, book)
  {
    ReachesIff(DefaultOf(p), raw, node);
    forall i | 0 <= i < |p.routes| { RouteOkIff(p.routes[i], raw, node, book, ip); }
  }

  // ----- the number of rules

  ghost function Tag<K, T>(k: K, s: set<T>): set<(K, T)> {
    set x | x in s :: (k, x)
  }

  lemma {:induction false} TagCounts<K, T>(k: K, s: set<T>)
    ensures |Tag(k, s)| == |s|
  {
    if s == {} {
      assert Tag(k, s) == {};
    } else {
      var x :| x in s;
      TagCounts(k, s - {x});
      assert Tag(k, s) == Tag(k, s - {x}) + {(k, x)};
    }
  }

  /** `all` is `rest` and, under a label of its own, `own`. */
  lemma OneMore<K(!new), T(!new)>(all: set<(K, T)>, rest: set<(K, T)>, k: K, own: set<T>)
    requires all == rest + Tag(k, own) && forall p :: p in rest ==> p.0 != k
    ensures |all| == |rest| + |own|
  {
    TagCounts(k, own);
    assert rest !! Tag(k, own);
  }

  /** The rules of these routes: route and line. */
  ghost function RulesIn(routes: seq<RawRoute>): set<(nat, nat)> {
    set i: nat, j: nat | i < |routes| && j in Lines(routes[i].selectors) :: (i, j)
  }

  lemma LastRoute(routes: seq<RawRoute>, n: nat)
    requires |routes| == n + 1
    ensures RulesIn(routes) == RulesIn(routes[..n]) + Tag(n, Lines(routes[n].selectors))
  {
    var lines := Lines(routes[n].selectors);
    forall p | p in Tag(n, lines) ensures p in RulesIn(routes) {
      assert p == (n, p.1) && p.1 in Lines(routes[p.0].selectors);
    }
  }

  lemma {:induction false} RulesInCounted(routes: seq<RawRoute>)
    ensures CountRules(routes) == |RulesIn(routes)|
  {
    if routes == [] {
      assert RulesIn(routes) == {};
    } else {
      var n := |routes| - 1;
      RulesInCounted(routes[..n]);
      LinesCounted(routes[n].selectors);
      LastRoute(routes, n);
      OneMore(RulesIn(routes), RulesIn(routes[..n]), n, Lines(routes[n].selectors));
    }
  }

  /** The rules of all policies: policy, route and line. */
  ghost function AllRules(policies: map<Bytes, RawPolicy>): set<(Bytes, (nat, nat))> {
    set id, at | id in policies && at in RulesIn(policies[id].routes) :: (id, at)
  }

  lemma OnePolicy(policies: map<Bytes, RawPolicy>, id: Bytes)
    requires id in policies
    ensures AllRules(policies) == AllRules(policies - {id}) + Tag(id, RulesIn(policies[id].routes))
  {
  }

  lemma {:induction false} AllRulesCounted(policies: map<Bytes, RawPolicy>)
    ensures TotalRules(policies) == |AllRules(policies)|
    decreases |policies|
  {
    if policies == map[] {
      assert AllRules(policies) == {};
    } else {
      var id :| id in policies;
      var own := RulesIn(policies[id].routes);
      SnapshotCompiler.TotalAdds(policies, id);
      AllRulesCounted(policies - {id});
      RulesInCounted(policies[id].routes);
      OnePolicy(policies, id);
      OneMore(AllRules(policies), AllRules(policies - {id}), id, own);
    }
  }

  // ----- users

  /** Two credentials are one: the same text but for case and the space around it, and
      there is a text. */
  ghost predicate SameUuid(a: Option<Bytes>, b: Option<Bytes>) {
    a.Some? && b.Some? && !AllSpace(a.value) && SameSpelling(Trim(a.value), Trim(b.value))
  }

  ghost predicate Separate(users: map<Bytes, RawUser>) {
    forall a, b, proto ::
      a in users && b in users && a != b && proto in users[a].frontends && proto in users[b].frontends ==>
        !SameUuid(users[a].frontends[proto], users[b].frontends[proto])
  }

  lemma SameUuidIff(a: Option<Bytes>, b: Option<Bytes>)
    ensures SameUuid(a, b) <==> UuidKey(a) == UuidKey(b) != []
  {
    if a.Some? { BlankIff(a.value); }
    if b.Some? { BlankIff(b.value); }
    if a.Some? && b.Some? { LowerIff(Trim(a.value), Trim(b.value)); }
  }

  lemma SeparateIff(users: map<Bytes, RawUser>)
    ensures NoSharedUuid(users) <==> Separate(users)
  {
    forall a, b, proto | a in users && b in users && proto in users[a].frontends && proto in users[b].frontends
      ensures SameUuid(users[a].frontends[proto], users[b].frontends[proto]) <==>
              exists key :: Claims(users[a], proto, key) && Claims(users[b], proto, key)
    {
      SameUuidIff(users[a].frontends[proto], users[b].frontends[proto]);
      if UuidKey(users[a].frontends[proto]) != [] {
        assert Claims(users[a], proto, UuidKey(users[a].frontends[proto]));
      }
    }
  }

  ghost predicate UserMeans(u: RawUser, policies: map<Bytes, RawPolicy>, date: Bytes -> bool) {
    && !AllSpace(u.policy) && u.policy in policies
    && (u.expire.Some? ==> AllSpace(u.expire.value) || date(Trim(u.expire.value)))
  }

  lemma UserOkIff(u: RawUser, policies: map<Bytes, RawPolicy>, date: Bytes -> bool)
    ensures UserOk(u, policies, date) <==> UserMeans(u, policies, date)
  {
    BlankIff(u.policy);
    if u.expire.Some? { BlankIff(u.expire.value); }
  }

  // ----- the document

  /** Overrides replace egresses. */
  ghost predicate OverridesMean(raw: RawSnapshot, node: Bytes) {
    node in raw.overrides ==> forall id :: id in raw.overrides[node] ==> !AllSpace(id) && id in raw.egresses
  }

  lemma OverridesIff(raw: RawSnapshot, node: Bytes)
    ensures Replaces(OverridesOf(raw, node), raw.egresses) <==> OverridesMean(raw, node)
  {
    forall id | id in OverridesOf(raw, node) { BlankIff(id); }
  }

  /** What the node has an egress for is one. */
  ghost predicate EgressesMean(raw: RawSnapshot, node: Bytes) {
    forall id, e :: NodeEgress(raw, node, id, e) ==> !AllSpace(id) && EgressOk(id, e)
  }

  lemma EgressesIff(raw: RawSnapshot, node: Bytes)
    ensures AllEgresses(EgressesOf(raw, node)) <==> EgressesMean(raw, node)
  {
    var all := EgressesOf(raw, node);
    if EgressesMean(raw, node) {
      forall id | id in all ensures Trim(id) != [] && EgressOk(id, all[id]) {
        EgressHere(raw, node, id, all[id]);
        BlankIff(id);
      }
    }
    if AllEgresses(all) {
      forall id, e | NodeEgress(raw, node, id, e) ensures !AllSpace(id) && EgressOk(id, e) {
        EgressHere(raw, node, id, e);
        BlankIff(id);
      }
    }
  }

  ghost predicate PoliciesMean(raw: RawSnapshot, node: Bytes, book: Option<RawBook>) {
    forall id :: id in raw.policies ==> !AllSpace(id) && PolicyMeans(raw.policies[id], raw, node, book)
  }

  lemma PoliciesIff(raw: RawSnapshot, node: Bytes, book: Option<RawBook>, ip: ParseIp)
    ensures PoliciesOk(raw, node, book, ip) <==> |AllRules(raw.policies)| <= 200_000 && PoliciesMean(raw, node, book)
  {
    AllRulesCounted(raw.policies);
    var all := EgressesOf(raw, node);
    forall id | id in raw.policies
      ensures Trim(id) != [] && PolicyOk(raw.policies[id], all, book, ip) <==>
              !AllSpace(id) && PolicyMeans(raw.policies[id], raw, node, book)
    {
      BlankIff(id);
      PolicyOkIff(raw.policies[id], raw, node, book, ip);
    }
  }

  ghost predicate UsersMean(raw: RawSnapshot, date: Bytes -> bool) {
    Separate(raw.users) && forall name :: name in raw.users ==> UserMeans(raw.users[name], raw.policies, date)
  }

  lemma UsersIff(raw: RawSnapshot, date: Bytes -> bool)
    ensures UsersOk(raw, date) <==> UsersMean(raw, date)
  {
    SeparateIff(raw.users);
    forall name | name in raw.users { UserOkIff(raw.users[name], raw.policies, date); }
  }

  /** A document compiles for a node exactly if it is of the one schema and within the
      limits; its overrides replace egresses, and every egress of this node is one; every
      policy's routes say something, name categories that are there and actions that
      reach an egress; and every user has a policy, a readable date and its own uuids. */
  lemma CompilableIff(raw: RawSnapshot, node: Bytes, book: Option<RawBook>, parsers: Parsers)
    ensures Compilable(raw, node, book, parsers) <==>
            && raw.schema == 1 && |raw.users| <= 100_000 && |raw.policies| <= 10_000
            && |raw.egresses| <= 10_000 && |raw.overrides| <= 10_000 && |AllRules(raw.policies)| <= 200_000
            && OverridesMean(raw, node) && EgressesMean(raw, node)
            && PoliciesMean(raw, node, book) && UsersMean(raw, parsers.date)
  {
    OverridesIff(raw, node);
    EgressesIff(raw, node);
    PoliciesIff(raw, node, book, parsers.ip);
    UsersIff(raw, parsers.date);
  }
}
