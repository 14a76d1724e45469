/** Compiling a raw snapshot for one node: succeeds exactly on compilable documents,
    and the result stands for the document. */
module SnapshotCompiler {
  import opened Wrappers
  import opened Words
  import opened Text
  import opened BookFormat
  import opened Queries
  import opened Resolution
  import opened SelectorCache
  import opened SelectorBudget
  import opened RuleSets
  import opened RouteIndex
  import opened Egresses
  import opened Snapshot
  import Rules

  // ----- egresses

  /** All overrides but those to do have replaced their egress. */
  ghost predicate Overridden(m: map<Bytes, RawEgress>, egresses: map<Bytes, RawEgress>,
                             overrides: map<Bytes, RawEgress>, todo: set<Bytes>) {
    && m.Keys == egresses.Keys
    && (forall id :: id in overrides && id !in todo ==> Trim(id) != [] && id in m && m[id] == overrides[id])
    && forall id :: id in egresses && (id in todo || id !in overrides) ==> m[id] == egresses[id]
  }

  lemma OverriddenStep(m: map<Bytes, RawEgress>, egresses: map<Bytes, RawEgress>, overrides: map<Bytes, RawEgress>,
                       todo: set<Bytes>, id: Bytes)
    requires Overridden(m, egresses, overrides, todo) && id in todo && id in overrides && id in m && Trim(id) != []
    ensures Overridden(m[id := overrides[id]], egresses, overrides, todo - {id})
  {
  }

  lemma OverriddenAll(m: map<Bytes, RawEgress>, egresses: map<Bytes, RawEgress>, overrides: map<Bytes, RawEgress>)
    requires Overridden(m, egresses, overrides, {})
    ensures m == egresses + overrides && Replaces(overrides, egresses)
  {
  }

  /** The node's overrides replace base egresses and add none. */
  method ApplyOverrides(egresses: map<Bytes, RawEgress>,
                        overrides: map<Bytes, RawEgress>) returns (r: Option<map<Bytes, RawEgress>>)
    ensures r.Some? <==> Replaces(overrides, egresses)
    ensures r.Some? ==> r.value == egresses + overrides && r.value.Keys == egresses.Keys
  {
    var m, todo := egresses, overrides.Keys;
    while todo != {}
      invariant todo <= overrides.Keys && Overridden(m, egresses, overrides, todo)
      decreases |todo|
    {
      var id :| id in todo;
      if Trim(id) == [] || id !in m { return None; }
      OverriddenStep(m, egresses, overrides, todo, id);
      m := m[id := overrides[id]];
      todo := todo - {id};
    }
    OverriddenAll(m, egresses, overrides);
    r := Some(m);
  }

  /** The table holds each raw egress compiled. */
  ghost predicate Realizes(table: map<Bytes, Egress>, raw: map<Bytes, RawEgress>) {
    table.Keys == raw.Keys && forall id :: id in raw ==> EgressOk(id, raw[id]) && table[id] == EgressOf(id, raw[id])
  }

  method CompileEgresses(raw: map<Bytes, RawEgress>) returns (r: Option<map<Bytes, Egress>>)
    ensures r.Some? <==> AllEgresses(raw)
    ensures r.Some? ==> Realizes(r.value, raw)
  {
    var table, todo := map[], raw.Keys;
    while todo != {}
      invariant todo <= raw.Keys && table.Keys == raw.Keys - todo
      invariant forall id :: id in table ==>
                  Trim(id) != [] && EgressOk(id, raw[id]) && table[id] == EgressOf(id, raw[id])
      decreases |todo|
    {
      var id :| id in todo;
      if Trim(id) == [] { return None; }
      var egress := CompileEgress(id, raw[id]);
      if egress.None? { return None; }
      table := table[id := egress.value];
      todo := todo - {id};
    }
    r := Some(table);
  }

  /** `compile_action` */
  function ActionIn(a: RawAction, table: map<Bytes, Egress>): Option<Action> {
    match a
    case GoDirect => Some(Pass)
    case Refuse => Some(Deny)
    case ToEgress(name) =>
      var id := Trim(name);
      if id == [] || id !in table then None else Some(Use(table[id]))
  }

  /** Against the compiled table an action resolves exactly when it should, and to
      what the raw document means. */
  lemma ActionResolves(a: RawAction, table: map<Bytes, Egress>, raw: map<Bytes, RawEgress>)
    requires Realizes(table, raw)
    ensures ActionIn(a, table).Some? <==> ActionOk(a, raw)
    ensures ActionIn(a, table).Some? ==> ActionMeans(ActionIn(a, table).value, a, raw)
  {
  }

  // ----- policies

  method CountSelected(selectors: seq<Bytes>) returns (n: nat)
    ensures n == CountSelectors(selectors)
  {
    n := 0;
    for i := 0 to |selectors|
      invariant n == CountSelectors(selectors[..i])
    {
      assert selectors[..i + 1][..i] == selectors[..i];
      if Trim(selectors[i]) != [] { n := n + 1; }
    }
    assert selectors[..|selectors|] == selectors;
  }

  ghost predicate RouteCompiles(raw: RawRoute, table: map<Bytes, Egress>, book: Option<RawBook>, ip: Rules.ParseIp) {
    && CountSelectors(raw.selectors) > 0 && AllResolvable(SelectorsOf(raw.selectors, ip), book)
    && ActionIn(raw.action, table).Some?
  }

  ghost predicate RouteBecomes(r: CompiledRoute, raw: RawRoute, table: map<Bytes, Egress>, book: Option<RawBook>,
                               ip: Rules.ParseIp) {
    Means(r.rules, SelectorsOf(raw.selectors, ip), book) && ActionIn(raw.action, table) == Some(r.action)
  }

  lemma KeyOfStep(c: Cache, c': Cache, sels: seq<Selector>, rs: RuleSet, book: Option<RawBook>)
    requires CacheStep(c, c', sels, rs.book) && BookPart(rs, sels, book)
    ensures rs.book.None? ==> BookKeys(sels) == [] && c' == c
    ensures rs.book.Some? ==>
              var key := SortedTexts(BookNames(sels));
              && BookKeys(sels) == [key] && (c', rs.book.value) == Publish(c, key, rs.book.value.mask)
              && |rs.book.value.mask| == WordsOf(book)
  {
  }

  /** Charge the selector of a rule set, if it has one. */
  method ChargeRules(rs: RuleSet, ch: Charges, ghost sels: seq<Selector>, ghost book: Option<RawBook>,
                     ghost budget: Budget, ghost keys: seq<Key>, ghost c: Cache, ghost c': Cache)
      returns (r: Option<Charges>)
    requires Spent(budget, keys, c, ch) && budget.words == WordsOf(book)
    requires CacheStep(c, c', sels, rs.book) && BookPart(rs, sels, book)
    ensures r.Some? <==> Affords(budget, keys + BookKeys(sels))
    ensures r.Some? ==> Spent(budget, keys + BookKeys(sels), c', r.value)
  {
    KeyOfStep(c, c', sels, rs, book);
    if rs.book.None? {
      assert keys + [] == keys;
      return Some(ch);
    }
    r := ChargeSelector(rs.book.value, ch, budget, keys, c, c', SortedTexts(BookNames(sels)));
  }

  /** The rule set of a selector list, its selector charged. */
  method CompileRules(selectors: seq<Bytes>, book: Option<AddrBook>, ip: Rules.ParseIp, ch: Charges,
                      ghost budget: Budget, ghost keys: seq<Key>, ghost next: seq<Key>)
      returns (r: Option<RuleSet>, ch': Charges)
    requires (book.Some? ==> book.value.Valid()) && budget.words == WordsOf(BookOf(book))
    requires Spent(budget, keys, CacheOf(book), ch) && next == keys + BookKeys(SelectorsOf(selectors, ip))
    modifies if book.Some? then {book.value} else {}
    ensures book.Some? ==> book.value.Valid()
    ensures r.Some? <==> AllResolvable(SelectorsOf(selectors, ip), BookOf(book)) && Affords(budget, next)
    ensures r.Some? ==>
              Means(r.value, SelectorsOf(selectors, ip), BookOf(book)) && Spent(budget, next, CacheOf(book), ch')
  {
    ghost var c, sels := CacheOf(book), SelectorsOf(selectors, ip);
    ch' := ch;
    var rules := FromRules(selectors, book, ip);
    if rules.Err? { return None, ch'; }
    var charged := ChargeRules(rules.value, ch, sels, BookOf(book), budget, keys, c, CacheOf(book));
    if charged.None? { return None, ch'; }
    r, ch' := Some(rules.value), charged.value;
  }

  /** How far a compile has come: the rules counted and the lists resolved. */
  datatype Position = Position(rules: nat, keys: seq<Key>)

  const START: Position := Position(0, [])

  ghost predicate Fits(p: Position, budget: Budget) {
    p.rules <= MAX_RULES && Affords(budget, p.keys)
  }

  ghost function Past(p: Position, raw: RawRoute, keysOf: RawRoute -> seq<Key>): Position {
    Position(p.rules + CountSelectors(raw.selectors), p.keys + keysOf(raw))
  }

  ghost function PastAll(p: Position, routes: seq<RawRoute>, keysOf: RawRoute -> seq<Key>): Position {
    if routes == [] then p else Past(PastAll(p, routes[..|routes| - 1], keysOf), routes[|routes| - 1], keysOf)
  }

  lemma PastNext(p: Position, routes: seq<RawRoute>, keysOf: RawRoute -> seq<Key>, i: nat)
    requires i < |routes|
    ensures PastAll(p, routes[..i + 1], keysOf) == Past(PastAll(p, routes[..i], keysOf), routes[i], keysOf)
  {
    assert routes[..i + 1][..i] == routes[..i];
  }

  lemma FitsBefore(p: Position, raw: RawRoute, keysOf: RawRoute -> seq<Key>, budget: Budget)
    requires Fits(Past(p, raw, keysOf), budget)
    ensures Fits(p, budget)
  {
    AffordsLess(budget, p.keys, p.keys + keysOf(raw));
  }

  /** What fits at the end fits on the way. */
  lemma {:induction false} FitsAt(p: Position, routes: seq<RawRoute>, keysOf: RawRoute -> seq<Key>, budget: Budget,
                                  i: nat)
    requires i <= |routes| && Fits(PastAll(p, routes, keysOf), budget)
    ensures Fits(PastAll(p, routes[..i], keysOf), budget)
    decreases |routes|
  {
    if i == |routes| {
      assert routes[..i] == routes;
    } else {
      var prior := routes[..|routes| - 1];
      FitsBefore(PastAll(p, prior, keysOf), routes[|routes| - 1], keysOf, budget);
      FitsAt(p, prior, keysOf, budget, i);
      assert prior[..i] == routes[..i];
    }
  }

  lemma {:induction false} PastAppend(p: Position, a: seq<RawRoute>, b: seq<RawRoute>, keysOf: RawRoute -> seq<Key>)
    ensures PastAll(p, a + b, keysOf) == PastAll(PastAll(p, a, keysOf), b, keysOf)
  {
    if b == [] {
      assert a + b == a;
    } else {
      PastAppend(p, a, b[..|b| - 1], keysOf);
      assert (a + b)[..|a + b| - 1] == a + b[..|b| - 1];
    }
  }

  /** A route compiles exactly when it is valid and fits. */
  method CompileRoute(raw: RawRoute, table: map<Bytes, Egress>, book: Option<AddrBook>, ip: Rules.ParseIp, total: nat,
                      ch: Charges, ghost budget: Budget, ghost at: Position, ghost next: Position)
      returns (r: Option<CompiledRoute>, total': nat, ch': Charges)
    requires (book.Some? ==> book.value.Valid()) && budget.words == WordsOf(BookOf(book))
    requires total == at.rules && Spent(budget, at.keys, CacheOf(book), ch) && next == Past(at, raw, KeysIn(ip))
    modifies if book.Some? then {book.value} else {}
    ensures book.Some? ==> book.value.Valid()
    ensures r.Some? <==> RouteCompiles(raw, table, BookOf(book), ip) && Fits(next, budget)
    ensures r.Some? ==>
              && RouteBecomes(r.value, raw, table, BookOf(book), ip) && total' == next.rules
              && Spent(budget, next.keys, CacheOf(book), ch')
  {
    r, total', ch' := None, total, ch;
    var n := CountSelected(raw.selectors);
    if n == 0 { return; }
    total' := total + n;
    if total' > MAX_RULES { return; }
    var rules;
    rules, ch' := CompileRules(raw.selectors, book, ip, ch, budget, at.keys, next.keys);
    if rules.None? { return; }
    var action := ActionIn(raw.action, table);
    if action.None? { return; }
    r := Some(CompiledRoute(rules.value, action.value));
  }

  /** What the routes of a policy must be, what they become, which lists they resolve
      and the budget for these; the tests kept abstract in the loop. */
  datatype RoutePlan = RoutePlan(
    good: RawRoute -> bool,
    rel: (CompiledRoute, RawRoute) -> bool,
    keysOf: RawRoute -> seq<Key>,
    budget: Budget)

  ghost function RoutePlanOf(table: map<Bytes, Egress>, book: Option<RawBook>, ip: Rules.ParseIp, budget: Budget):
      RoutePlan
  {
    RoutePlan((raw: RawRoute) => RouteCompiles(raw, table, book, ip),
              (r: CompiledRoute, raw: RawRoute) => RouteBecomes(r, raw, table, book, ip), KeysIn(ip), budget)
  }

  ghost predicate AllRoutes(raw: seq<RawRoute>, plan: RoutePlan) {
    forall k :: 0 <= k < |raw| ==> plan.good(raw[k])
  }

  ghost predicate RoutesTo(routes: seq<CompiledRoute>, raw: seq<RawRoute>, i: nat, plan: RoutePlan)
    requires i <= |raw|
  {
    |routes| == i && forall k :: 0 <= k < i ==> plan.good(raw[k]) && plan.rel(routes[k], raw[k])
  }

  lemma RoutesStep(routes: seq<CompiledRoute>, raw: seq<RawRoute>, i: nat, route: CompiledRoute, plan: RoutePlan)
    requires i < |raw| && RoutesTo(routes, raw, i, plan) && plan.good(raw[i]) && plan.rel(route, raw[i])
    ensures RoutesTo(routes + [route], raw, i + 1, plan)
  {
  }

  method CompileOne(raw: RawRoute, table: map<Bytes, Egress>, book: Option<AddrBook>, ip: Rules.ParseIp, total: nat,
                    ch: Charges, ghost plan: RoutePlan, ghost at: Position, ghost next: Position)
      returns (r: Option<CompiledRoute>, total': nat, ch': Charges)
    requires (book.Some? ==> book.value.Valid()) && plan.budget.words == WordsOf(BookOf(book))
    requires plan == RoutePlanOf(table, BookOf(book), ip, plan.budget)
    requires total == at.rules && Spent(plan.budget, at.keys, CacheOf(book), ch) && next == Past(at, raw, plan.keysOf)
    modifies if book.Some? then {book.value} else {}
    ensures book.Some? ==> book.value.Valid()
    ensures r.Some? <==> plan.good(raw) && Fits(next, plan.budget)
    ensures r.Some? ==>
              plan.rel(r.value, raw) && total' == next.rules && Spent(plan.budget, next.keys, CacheOf(book), ch')
  {
    r, total', ch' := CompileRoute(raw, table, book, ip, total, ch, plan.budget, at, next);
  }

  /** All routes of a policy, in order. */
  method CompileRoutes(raw: seq<RawRoute>, table: map<Bytes, Egress>, book: Option<AddrBook>, ip: Rules.ParseIp,
                       total: nat, ch: Charges, ghost plan: RoutePlan, ghost at: Position, ghost end: Position)
      returns (r: Option<seq<CompiledRoute>>, total': nat, ch': Charges)
    requires (book.Some? ==> book.value.Valid()) && plan.budget.words == WordsOf(BookOf(book))
    requires plan == RoutePlanOf(table, BookOf(book), ip, plan.budget) && end == PastAll(at, raw, plan.keysOf)
    requires total == at.rules <= MAX_RULES && Spent(plan.budget, at.keys, CacheOf(book), ch)
    modifies if book.Some? then {book.value} else {}
    ensures book.Some? ==> book.value.Valid()
    ensures r.Some? <==> AllRoutes(raw, plan) && Fits(end, plan.budget)
    ensures r.Some? ==>
              && RoutesTo(r.value, raw, |raw|, plan) && total' == end.rules
              && Spent(plan.budget, end.keys, CacheOf(book), ch')
  {
    var routes: seq<CompiledRoute> := [];
    ghost var now := at;
    total', ch' := total, ch;
    for i := 0 to |raw|
      invariant book.Some? ==> book.value.Valid()
      invariant now == PastAll(at, raw[..i], plan.keysOf) && total' == now.rules <= MAX_RULES
      invariant RoutesTo(routes, raw, i, plan) && Spent(plan.budget, now.keys, CacheOf(book), ch')
    {
      ghost var next := Past(now, raw[i], plan.keysOf);
      PastNext(at, raw, plan.keysOf, i);
      var route, total'', ch'' := CompileOne(raw[i], table, book, ip, total', ch', plan, now, next);
      if route.None? {
        if Fits(end, plan.budget) { FitsAt(at, raw, plan.keysOf, plan.budget, i + 1); }
        return None, total', ch';
      }
      RoutesStep(routes, raw, i, route.value, plan);
      routes, total', ch', now := routes + [route.value], total'', ch'', next;
    }
    assert raw[..|raw|] == raw;
    r := Some(routes);
  }

  lemma {:induction false} RoutesBounded(raw: seq<RawRoute>)
    requires forall i :: 0 <= i < |raw| ==> CountSelectors(raw[i].selectors) > 0
    ensures |raw| <= CountRules(raw)
  {
    if raw != [] { RoutesBounded(raw[..|raw| - 1]); }
  }

  lemma {:induction false} PastCounts(p: Position, routes: seq<RawRoute>, keysOf: RawRoute -> seq<Key>)
    ensures PastAll(p, routes, keysOf) == Position(p.rules + CountRules(routes), p.keys + RouteKeys(routes, keysOf))
  {
    if routes == [] {
      assert p.keys + [] == p.keys;
    } else {
      var prior, last := routes[..|routes| - 1], keysOf(routes[|routes| - 1]);
      PastCounts(p, prior, keysOf);
      assert p.keys + RouteKeys(prior, keysOf) + last == p.keys + (RouteKeys(prior, keysOf) + last);
    }
  }

  ghost predicate PolicyCompiles(raw: RawPolicy, table: map<Bytes, Egress>, book: Option<RawBook>, ip: Rules.ParseIp) {
    && ActionIn(DefaultOf(raw), table).Some?
    && forall i :: 0 <= i < |raw.routes| ==> RouteCompiles(raw.routes[i], table, book, ip)
  }

  ghost predicate PolicyBecomes(p: Policy, raw: RawPolicy, table: map<Bytes, Egress>, book: Option<RawBook>,
                                ip: Rules.ParseIp) {
    && |p.routes| == |raw.routes| <= MAX_RULES
    && (forall i :: 0 <= i < |p.routes| ==> RouteBecomes(p.routes[i], raw.routes[i], table, book, ip))
    && ActionIn(DefaultOf(raw), table) == Some(p.defaultAction) && Represents(p.index, RulesOf(p.routes))
  }

  /** A policy compiles exactly when it is valid and its routes fit. */
  method CompilePolicy(raw: RawPolicy, table: map<Bytes, Egress>, book: Option<AddrBook>, ip: Rules.ParseIp, total: nat,
                       ch: Charges, ghost budget: Budget, ghost at: Position, ghost end: Position)
      returns (r: Option<Policy>, total': nat, ch': Charges)
    requires (book.Some? ==> book.value.Valid()) && budget.words == WordsOf(BookOf(book))
    requires total == at.rules <= MAX_RULES && Spent(budget, at.keys, CacheOf(book), ch)
    requires end == PastAll(at, raw.routes, KeysIn(ip))
    modifies if book.Some? then {book.value} else {}
    ensures book.Some? ==> book.value.Valid()
    ensures r.Some? <==> PolicyCompiles(raw, table, BookOf(book), ip) && Fits(end, budget)
    ensures r.Some? ==>
              && PolicyBecomes(r.value, raw, table, BookOf(book), ip) && total' == end.rules
              && Spent(budget, end.keys, CacheOf(book), ch')
  {
    r, total', ch' := None, total, ch;
    var default := ActionIn(DefaultOf(raw), table);
    if default.None? { return; }
    ghost var plan := RoutePlanOf(table, BookOf(book), ip, budget);
    var routes;
    routes, total', ch' := CompileRoutes(raw.routes, table, book, ip, total, ch, plan, at, end);
    RoutesPlanned(raw.routes, table, BookOf(book), ip, plan);
    if routes.None? { return; }
    PastCounts(at, raw.routes, KeysIn(ip));
    var policy := IndexPolicy(routes.value, default.value, raw, table, BookOf(book), ip, plan);
    r := Some(policy);
  }

  lemma RoutesPlanned(raw: seq<RawRoute>, table: map<Bytes, Egress>, book: Option<RawBook>, ip: Rules.ParseIp,
                      plan: RoutePlan)
    requires plan == RoutePlanOf(table, book, ip, plan.budget)
    ensures AllRoutes(raw, plan) <==> forall i :: 0 <= i < |raw| ==> RouteCompiles(raw[i], table, book, ip)
  {
  }

  /** `RoutingPolicy::from_routes` of compiled routes. */
  method IndexPolicy(routes: seq<CompiledRoute>, default: Action, ghost raw: RawPolicy, ghost table: map<Bytes, Egress>,
                     ghost book: Option<RawBook>, ghost ip: Rules.ParseIp, ghost plan: RoutePlan)
      returns (p: Policy)
    requires plan == RoutePlanOf(table, book, ip, plan.budget)
    requires RoutesTo(routes, raw.routes, |raw.routes|, plan) && CountRules(raw.routes) <= MAX_RULES
    requires ActionIn(DefaultOf(raw), table) == Some(default)
    ensures PolicyBecomes(p, raw, table, book, ip)
  {
    RoutesBounded(raw.routes);
    var index := IndexRoutes(RulesOf(routes));
    p := Policy(routes, default, index);
  }

  // ----- all policies

  /** The choice of where to start does not change the sum. */
  lemma {:induction false} TotalAdds(m: map<Bytes, RawPolicy>, id: Bytes)
    requires id in m
    ensures TotalRules(m) == CountRules(m[id].routes) + TotalRules(m - {id})
    decreases |m|
  {
    var first :| first in m && TotalRules(m) == CountRules(m[first].routes) + TotalRules(m - {first});
    if first != id {
      TotalAdds(m - {first}, id);
      TotalAdds(m - {id}, first);
      assert m - {first} - {id} == m - {id} - {first};
    }
  }

  lemma {:induction false} SameRoutes(order: seq<Bytes>, m: map<Bytes, RawPolicy>, n: map<Bytes, RawPolicy>)
    requires forall id :: id in order ==> id in m && id in n && m[id] == n[id]
    ensures RoutesInOrder(order, m) == RoutesInOrder(order, n)
  {
    if order != [] { SameRoutes(order[..|order| - 1], m, n); }
  }

  lemma {:induction false} CountAppend(a: seq<RawRoute>, b: seq<RawRoute>)
    ensures CountRules(a + b) == CountRules(a) + CountRules(b)
  {
    if b == [] {
      assert a + b == a;
    } else {
      CountAppend(a, b[..|b| - 1]);
      assert (a + b)[..|a + b| - 1] == a + b[..|b| - 1];
    }
  }

  /** In whatever order, these are all the rules. */
  lemma {:induction false} OrderTotal(order: seq<Bytes>, m: map<Bytes, RawPolicy>)
    requires IsOrder(order, m.Keys)
    ensures CountRules(RoutesInOrder(order, m)) == TotalRules(m)
    decreases |order|
  {
    if order == [] {
      assert m == map[];
    } else {
      var prior, id := order[..|order| - 1], order[|order| - 1];
      OrderWithout(order, m.Keys);
      assert (m - {id}).Keys == m.Keys - {id};
      OrderTotal(prior, m - {id});
      SameRoutes(prior, m, m - {id});
      CountAppend(RoutesInOrder(prior, m), m[id].routes);
      TotalAdds(m, id);
    }
  }

  lemma OrderWithout(order: seq<Bytes>, ids: set<Bytes>)
    requires IsOrder(order, ids) && order != []
    ensures order[|order| - 1] in ids && IsOrder(order[..|order| - 1], ids - {order[|order| - 1]})
  {
    var prior, last := order[..|order| - 1], order[|order| - 1];
    assert order == prior + [last];
  }

  lemma RoutesNext(order: seq<Bytes>, m: map<Bytes, RawPolicy>, i: nat)
    requires i < |order| && forall id :: id in order ==> id in m
    ensures RoutesInOrder(order[..i + 1], m) == RoutesInOrder(order[..i], m) + m[order[i]].routes
  {
    assert order[..i + 1][..i] == order[..i];
  }

  lemma {:induction false} RoutesPrefix(order: seq<Bytes>, m: map<Bytes, RawPolicy>, i: nat)
    requires i <= |order| && forall id :: id in order ==> id in m
    ensures RoutesInOrder(order[..i], m) <= RoutesInOrder(order, m)
    decreases |order| - i
  {
    if i == |order| {
      assert order[..i] == order;
    } else {
      RoutesNext(order, m, i);
      RoutesPrefix(order, m, i + 1);
    }
  }

  ghost predicate NamedCompiles(id: Bytes, raw: RawPolicy, table: map<Bytes, Egress>, book: Option<RawBook>,
                                ip: Rules.ParseIp) {
    Trim(id) != [] && PolicyCompiles(raw, table, book, ip)
  }

  /** The same for the policies of a snapshot. */
  datatype PolicyPlan = PolicyPlan(
    good: (Bytes, RawPolicy) -> bool,
    rel: (Policy, RawPolicy) -> bool,
    keysOf: RawRoute -> seq<Key>,
    budget: Budget)

  ghost function PolicyPlanOf(table: map<Bytes, Egress>, book: Option<RawBook>, ip: Rules.ParseIp, budget: Budget):
      PolicyPlan
  {
    PolicyPlan((id: Bytes, raw: RawPolicy) => NamedCompiles(id, raw, table, book, ip),
               (p: Policy, raw: RawPolicy) => PolicyBecomes(p, raw, table, book, ip), KeysIn(ip), budget)
  }

  /** The plan has these tests, unfolded only where a policy is compiled. */
  ghost predicate Plans(plan: PolicyPlan, table: map<Bytes, Egress>, book: Option<RawBook>, ip: Rules.ParseIp) {
    && plan.keysOf == KeysIn(ip) && plan.budget.words == WordsOf(book)
    && (forall id, raw {:trigger NamedCompiles(id, raw, table, book, ip)} ::
          plan.good(id, raw) <==> NamedCompiles(id, raw, table, book, ip))
    && forall p, raw {:trigger PolicyBecomes(p, raw, table, book, ip)} ::
         plan.rel(p, raw) <==> PolicyBecomes(p, raw, table, book, ip)
  }

  lemma PlanOfPlans(table: map<Bytes, Egress>, book: Option<RawBook>, ip: Rules.ParseIp, cached: set<Key>)
    ensures Plans(PolicyPlanOf(table, book, ip, Budget(cached, WordsOf(book))), table, book, ip)
  {
  }

  ghost predicate PoliciesTo(table: map<Bytes, Policy>, raw: map<Bytes, RawPolicy>, done: set<Bytes>,
                             plan: PolicyPlan) {
    && done <= raw.Keys && table.Keys == done
    && forall id :: id in done ==> plan.good(id, raw[id]) && plan.rel(table[id], raw[id])
  }

  lemma PoliciesStep(table: map<Bytes, Policy>, raw: map<Bytes, RawPolicy>, done: set<Bytes>, id: Bytes, p: Policy,
                     plan: PolicyPlan)
    requires PoliciesTo(table, raw, done, plan) && id in raw && plan.good(id, raw[id]) && plan.rel(p, raw[id])
    ensures PoliciesTo(table[id := p], raw, done + {id}, plan)
  {
  }

  /** All policies are good. */
  ghost predicate AllPolicies(raw: map<Bytes, RawPolicy>, plan: PolicyPlan) {
    forall id :: id in raw ==> plan.good(id, raw[id])
  }

  lemma Judged(plan: PolicyPlan, id: Bytes, raw: RawPolicy, table: map<Bytes, Egress>, book: Option<RawBook>,
               ip: Rules.ParseIp)
    requires Plans(plan, table, book, ip)
    ensures plan.good(id, raw) <==> Trim(id) != [] && PolicyCompiles(raw, table, book, ip)
  {
    assert plan.good(id, raw) <==> NamedCompiles(id, raw, table, book, ip);
  }

  /** A policy under its id. */
  method CompileNamed(id: Bytes, raw: RawPolicy, egresses: map<Bytes, Egress>, book: Option<AddrBook>,
                      ip: Rules.ParseIp, total: nat, ch: Charges, ghost plan: PolicyPlan, ghost at: Position,
                      ghost end: Position)
      returns (r: Option<Policy>, total': nat, ch': Charges)
    requires (book.Some? ==> book.value.Valid()) && Plans(plan, egresses, BookOf(book), ip)
    requires total == at.rules <= MAX_RULES && Spent(plan.budget, at.keys, CacheOf(book), ch)
    requires end == PastAll(at, raw.routes, plan.keysOf)
    modifies if book.Some? then {book.value} else {}
    ensures book.Some? ==> book.value.Valid()
    ensures r.Some? <==> plan.good(id, raw) && Fits(end, plan.budget)
    ensures r.Some? ==>
              plan.rel(r.value, raw) && total' == end.rules && Spent(plan.budget, end.keys, CacheOf(book), ch')
  {
    Judged(plan, id, raw, egresses, BookOf(book), ip);
    if Trim(id) == [] { return None, total, ch; }
    r, total', ch' := CompilePolicy(raw, egresses, book, ip, total, ch, plan.budget, at, end);
  }

  /** The position after the first `i` policies. */
  ghost function Reached(order: seq<Bytes>, raw: map<Bytes, RawPolicy>, i: nat, plan: PolicyPlan): Position
    requires i <= |order| && forall id :: id in order ==> id in raw
  {
    PastAll(START, RoutesInOrder(order[..i], raw), plan.keysOf)
  }

  lemma ReachedNext(order: seq<Bytes>, raw: map<Bytes, RawPolicy>, i: nat, plan: PolicyPlan)
    requires i < |order| && forall id :: id in order ==> id in raw
    ensures Reached(order, raw, i + 1, plan) == PastAll(Reached(order, raw, i, plan), raw[order[i]].routes, plan.keysOf)
  {
    RoutesNext(order, raw, i);
    PastAppend(START, RoutesInOrder(order[..i], raw), raw[order[i]].routes, plan.keysOf);
  }

  lemma ReachedFits(order: seq<Bytes>, raw: map<Bytes, RawPolicy>, i: nat, plan: PolicyPlan)
    requires i <= |order| && forall id :: id in order ==> id in raw
    requires Fits(Reached(order, raw, |order|, plan), plan.budget)
    ensures Fits(Reached(order, raw, i, plan), plan.budget)
  {
    assert order[..|order|] == order;
    RoutesPrefix(order, raw, i);
    var all, some := RoutesInOrder(order, raw), RoutesInOrder(order[..i], raw);
    assert all[..|some|] == some;
    FitsAt(START, all, plan.keysOf, plan.budget, |some|);
  }

  /** The first `i` policies are compiled. */
  ghost predicate CompiledTo(table: map<Bytes, Policy>, raw: map<Bytes, RawPolicy>, order: seq<Bytes>, i: nat,
                             plan: PolicyPlan)
    requires i <= |order|
  {
    PoliciesTo(table, raw, Elements(order[..i]), plan)
  }

  lemma CompiledNext(table: map<Bytes, Policy>, raw: map<Bytes, RawPolicy>, order: seq<Bytes>, i: nat, p: Policy,
                     plan: PolicyPlan)
    requires i < |order| && order[i] in raw && CompiledTo(table, raw, order, i, plan)
    requires plan.good(order[i], raw[order[i]]) && plan.rel(p, raw[order[i]])
    ensures CompiledTo(table[order[i] := p], raw, order, i + 1, plan)
  {
    assert order[..i + 1] == order[..i] + [order[i]];
    assert Elements(order[..i + 1]) == Elements(order[..i]) + {order[i]};
    PoliciesStep(table, raw, Elements(order[..i]), order[i], p, plan);
  }

  lemma CompiledAll(table: map<Bytes, Policy>, raw: map<Bytes, RawPolicy>, order: seq<Bytes>, plan: PolicyPlan)
    requires CompiledTo(table, raw, order, |order|, plan) && IsOrder(order, raw.Keys)
    ensures PoliciesTo(table, raw, raw.Keys, plan) && AllPolicies(raw, plan)
  {
    assert order[..|order|] == order;
    assert Elements(order) == raw.Keys;
  }

  /** Every policy in turn, in the order of the map. */
  method CompileEach(raw: map<Bytes, RawPolicy>, order: seq<Bytes>, egresses: map<Bytes, Egress>,
                     book: Option<AddrBook>, ip: Rules.ParseIp, ghost plan: PolicyPlan, ghost end: Position)
      returns (r: Option<map<Bytes, Policy>>)
    requires (book.Some? ==> book.value.Valid()) && Plans(plan, egresses, BookOf(book), ip)
    requires IsOrder(order, raw.Keys) && end == Reached(order, raw, |order|, plan)
    requires Spent(plan.budget, [], CacheOf(book), Charges({}, 0))
    modifies if book.Some? then {book.value} else {}
    ensures book.Some? ==> book.value.Valid()
    ensures r.Some? <==> AllPolicies(raw, plan) && Fits(end, plan.budget)
    ensures r.Some? ==> PoliciesTo(r.value, raw, raw.Keys, plan)
  {
    var table: map<Bytes, Policy>, total, ch := map[], 0, Charges({}, 0);
    ghost var now := START;
    for i := 0 to |order|
      invariant book.Some? ==> book.value.Valid()
      invariant now == Reached(order, raw, i, plan) && total == now.rules && Fits(now, plan.budget)
      invariant Spent(plan.budget, now.keys, CacheOf(book), ch) && CompiledTo(table, raw, order, i, plan)
    {
      var id := order[i];
      ghost var next := PastAll(now, raw[id].routes, plan.keysOf);
      ReachedNext(order, raw, i, plan);
      var policy, total', ch' := CompileNamed(id, raw[id], egresses, book, ip, total, ch, plan, now, next);
      if policy.None? {
        if Fits(end, plan.budget) { ReachedFits(order, raw, i + 1, plan); }
        return None;
      }
      CompiledNext(table, raw, order, i, policy.value, plan);
      table, total, ch, now := table[id := policy.value], total', ch', next;
    }
    CompiledAll(table, raw, order, plan);
    r := Some(table);
  }

  /** All policies compile exactly when each is valid, there are not too many rules, and
      the selectors, resolved in this order, fit the memory budget. */
  method CompilePolicies(raw: map<Bytes, RawPolicy>, order: seq<Bytes>, egresses: map<Bytes, Egress>,
                         book: Option<AddrBook>, ip: Rules.ParseIp, ghost plan: PolicyPlan)
      returns (r: Option<map<Bytes, Policy>>)
    requires (book.Some? ==> book.value.Valid()) && Numbered(CacheOf(book)) && AllLive(CacheOf(book))
    requires IsOrder(order, raw.Keys) && Plans(plan, egresses, BookOf(book), ip)
    requires plan.budget.cached == CacheOf(book).entries.Keys
    modifies if book.Some? then {book.value} else {}
    ensures book.Some? ==> book.value.Valid()
    ensures r.Some? <==>
            && AllPolicies(raw, plan) && TotalRules(raw) <= MAX_RULES
            && Affords(plan.budget, RouteKeys(RoutesInOrder(order, raw), plan.keysOf))
    ensures r.Some? ==> PoliciesTo(r.value, raw, raw.Keys, plan)
  {
    SpentNothing(CacheOf(book), plan.budget.words);
    assert plan.budget == Budget(CacheOf(book).entries.Keys, plan.budget.words);
    r := CompileEach(raw, order, egresses, book, ip, plan, Reached(order, raw, |order|, plan));
    assert order[..|order|] == order;
    OrderTotal(order, raw);
    PastCounts(START, RoutesInOrder(order, raw), plan.keysOf);
    assert [] + RouteKeys(RoutesInOrder(order, raw), plan.keysOf) == RouteKeys(RoutesInOrder(order, raw), plan.keysOf);
  }

  // ----- users

  type Frontends = map<(Bytes, Bytes), Bytes>

  /** The index holds the claims of these users, each claim its one claimant. */
  ghost predicate Indexes(index: Frontends, users: map<Bytes, RawUser>, done: set<Bytes>) {
    && (forall proto, key :: (proto, key) in index ==>
          index[(proto, key)] in done && index[(proto, key)] in users && Claims(users[index[(proto, key)]], proto, key))
    && forall a, proto, key :: a in done && a in users && Claims(users[a], proto, key) ==>
         (proto, key) in index && index[(proto, key)] == a
  }

  /** Add one user's claims; `None` if one of them is taken. */
  method AddClaims(index: Frontends, name: Bytes, u: RawUser) returns (r: Option<Frontends>)
    ensures r.None? ==> exists proto, key :: Claims(u, proto, key) && (proto, key) in index
    ensures r.Some? ==>
              && (forall proto, key :: Claims(u, proto, key) ==>
                    (proto, key) !in index && (proto, key) in r.value && r.value[(proto, key)] == name)
              && (forall proto, key :: (proto, key) in index ==>
                    (proto, key) in r.value && r.value[(proto, key)] == index[(proto, key)])
              && (forall proto, key :: (proto, key) in r.value ==> (proto, key) in index || Claims(u, proto, key))
  {
    var m, todo := index, u.frontends.Keys;
    while todo != {}
      invariant todo <= u.frontends.Keys
      invariant forall proto, key :: Claims(u, proto, key) && proto !in todo ==>
                  (proto, key) !in index && (proto, key) in m && m[(proto, key)] == name
      invariant forall proto, key :: (proto, key) in index ==>
                  (proto, key) in m && m[(proto, key)] == index[(proto, key)]
      invariant forall proto, key :: (proto, key) in m ==>
                  (proto, key) in index || (Claims(u, proto, key) && proto !in todo)
      decreases |todo|
    {
      var proto :| proto in todo;
      var key := UuidKey(u.frontends[proto]);
      if key != [] {
        if (proto, key) in m {
          assert Claims(u, proto, key);
          return None;
        }
        m := m[(proto, key) := name];
      }
      todo := todo - {proto};
    }
    r := Some(m);
  }

  lemma IndexesStep(index: Frontends, index': Frontends, users: map<Bytes, RawUser>, done: set<Bytes>, name: Bytes)
    requires Indexes(index, users, done) && name in users && name !in done
    requires forall proto, key :: Claims(users[name], proto, key) ==>
               (proto, key) !in index && (proto, key) in index' && index'[(proto, key)] == name
    requires forall proto, key :: (proto, key) in index ==>
               (proto, key) in index' && index'[(proto, key)] == index[(proto, key)]
    requires forall proto, key :: (proto, key) in index' ==> (proto, key) in index || Claims(users[name], proto, key)
    ensures Indexes(index', users, done + {name})
  {
  }

  lemma IndexesAreUnique(index: Frontends, users: map<Bytes, RawUser>)
    requires Indexes(index, users, users.Keys)
    ensures NoSharedUuid(users)
  {
    forall a, b, proto, key | a in users && b in users && Claims(users[a], proto, key) && Claims(users[b], proto, key)
      ensures a == b
    {
      assert a in users.Keys && b in users.Keys;
      assert index[(proto, key)] == a;
    }
  }

  method CheckUser(u: RawUser, policies: set<Bytes>, date: Bytes -> bool,
                   ghost raw: map<Bytes, RawPolicy>) returns (ok: bool)
    requires policies == raw.Keys
    ensures ok <==> UserOk(u, raw, date)
  {
    if Trim(u.policy) == [] || u.policy !in policies { return false; }
    ok := u.expire.None? || Trim(u.expire.value) == [] || date(Trim(u.expire.value));
  }

  ghost predicate UsersTo(table: map<Bytes, Bytes>, users: map<Bytes, RawUser>, done: set<Bytes>,
                          policies: map<Bytes, RawPolicy>,
                          date: Bytes -> bool) {
    && done <= users.Keys && table.Keys == done
    && forall name :: name in done ==> UserOk(users[name], policies, date) && table[name] == users[name].policy
  }

  method CompileUsers(users: map<Bytes, RawUser>, policies: set<Bytes>, date: Bytes -> bool,
                      ghost raw: map<Bytes, RawPolicy>)
      returns (r: Option<(map<Bytes, Bytes>, Frontends)>)
    requires policies == raw.Keys
    ensures r.Some? <==> NoSharedUuid(users) && forall name :: name in users ==> UserOk(users[name], raw, date)
    ensures r.Some? ==> UsersTo(r.value.0, users, users.Keys, raw, date) && Indexes(r.value.1, users, users.Keys)
  {
    var table: map<Bytes, Bytes>, index: Frontends, todo := map[], map[], users.Keys;
    while todo != {}
      invariant todo <= users.Keys && UsersTo(table, users, users.Keys - todo, raw, date)
      invariant Indexes(index, users, users.Keys - todo)
      decreases |todo|
    {
      var name :| name in todo;
      var ok := CheckUser(users[name], policies, date, raw);
      if !ok { return None; }
      var next := AddClaims(index, name, users[name]);
      if next.None? {
        ghost var proto, key :| Claims(users[name], proto, key) && (proto, key) in index;
        assert Claims(users[index[(proto, key)]], proto, key) && index[(proto, key)] != name;
        return None;
      }
      IndexesStep(index, next.value, users, users.Keys - todo, name);
      assert users.Keys - (todo - {name}) == (users.Keys - todo) + {name};
      table, index, todo := table[name := users[name].policy], next.value, todo - {name};
    }
    assert users.Keys - todo == users.Keys;
    IndexesAreUnique(index, users);
    r := Some((table, index));
  }

  // ----- the whole snapshot

  lemma RouteAgrees(raw: RawRoute, table: map<Bytes, Egress>, egresses: map<Bytes, RawEgress>, book: Option<RawBook>,
                    ip: Rules.ParseIp)
    requires Realizes(table, egresses)
    ensures RouteCompiles(raw, table, book, ip) <==> RouteOk(raw, egresses, book, ip)
    ensures forall r :: RouteBecomes(r, raw, table, book, ip) ==> RouteMeans(r, raw, egresses, book, ip)
  {
    ActionResolves(raw.action, table, egresses);
  }

  /** Compiling against the table is compiling against the raw egresses. */
  lemma PolicyAgrees(raw: RawPolicy, table: map<Bytes, Egress>, egresses: map<Bytes, RawEgress>, book: Option<RawBook>,
                     ip: Rules.ParseIp)
    requires Realizes(table, egresses)
    ensures PolicyCompiles(raw, table, book, ip) <==> PolicyOk(raw, egresses, book, ip)
    ensures forall p :: PolicyBecomes(p, raw, table, book, ip) ==> PolicyMeans(p, raw, egresses, book, ip)
  {
    ActionResolves(DefaultOf(raw), table, egresses);
    forall i | 0 <= i < |raw.routes| { RouteAgrees(raw.routes[i], table, egresses, book, ip); }
  }

  lemma PoliciesAgree(raw: RawSnapshot, node: Bytes, table: map<Bytes, Egress>, book: Option<RawBook>,
                      ip: Rules.ParseIp, budget: Budget)
    requires Realizes(table, EgressesOf(raw, node))
    ensures AllPolicies(raw.policies, PolicyPlanOf(table, book, ip, budget)) && TotalRules(raw.policies) <= MAX_RULES
            <==> PoliciesOk(raw, node, book, ip)
  {
    forall id | id in raw.policies { PolicyAgrees(raw.policies[id], table, EgressesOf(raw, node), book, ip); }
  }

  lemma PoliciesStand(compiled: map<Bytes, Policy>, raw: RawSnapshot, node: Bytes, table: map<Bytes, Egress>,
                      book: Option<RawBook>, ip: Rules.ParseIp, budget: Budget)
    requires Realizes(table, EgressesOf(raw, node))
    requires PoliciesTo(compiled, raw.policies, raw.policies.Keys, PolicyPlanOf(table, book, ip, budget))
    ensures PoliciesMean(compiled, raw, node, book, ip)
  {
    forall id | id in compiled ensures PolicyMeans(compiled[id], raw.policies[id], EgressesOf(raw, node), book, ip) {
      PolicyAgrees(raw.policies[id], table, EgressesOf(raw, node), book, ip);
    }
  }

  lemma SameSize(m: map<Bytes, RawEgress>, n: map<Bytes, RawEgress>)
    requires m.Keys == n.Keys
    ensures |m| == |n|
  {
    assert |m| == |m.Keys| && |n| == |n.Keys|;
  }

  /** The egress table of this node. */
  method CompileTable(raw: RawSnapshot, node: Bytes) returns (r: Option<map<Bytes, Egress>>)
    ensures r.Some? <==> EgressesOk(raw, node)
    ensures r.Some? ==> Realizes(r.value, EgressesOf(raw, node))
  {
    var egresses := ApplyOverrides(raw.egresses, OverridesOf(raw, node));
    if egresses.None? { return None; }
    SameSize(egresses.value, raw.egresses);
    if |egresses.value| > MAX_EGRESSES { return None; }
    r := CompileEgresses(egresses.value);
  }

  /** The selectors of the document fit the memory budget: those allocated when its
      policies come in this order and these lists are cached already. */
  ghost predicate SelectorsFit(raw: RawSnapshot, order: seq<Bytes>, book: Option<RawBook>, ip: Rules.ParseIp,
                               cached: set<Key>)
    requires IsOrder(order, raw.policies.Keys)
  {
    Affords(Budget(cached, WordsOf(book)), RouteKeys(RoutesInOrder(order, raw.policies), KeysIn(ip)))
  }

  /** The policies of the snapshot against that table. */
  method CompileRouting(raw: RawSnapshot, order: seq<Bytes>, node: Bytes, table: map<Bytes, Egress>,
                        book: Option<AddrBook>, ip: Rules.ParseIp)
      returns (r: Option<map<Bytes, Policy>>)
    requires Realizes(table, EgressesOf(raw, node)) && (book.Some? ==> book.value.Valid())
    requires Numbered(CacheOf(book)) && AllLive(CacheOf(book)) && IsOrder(order, raw.policies.Keys)
    modifies if book.Some? then {book.value} else {}
    ensures book.Some? ==> book.value.Valid()
    ensures r.Some? <==>
            && PoliciesOk(raw, node, BookOf(book), ip)
            && SelectorsFit(raw, order, BookOf(book), ip, old(CacheOf(book)).entries.Keys)
    ensures r.Some? ==> PoliciesMean(r.value, raw, node, BookOf(book), ip)
  {
    ghost var b, cached := BookOf(book), CacheOf(book).entries.Keys;
    ghost var budget := Budget(cached, WordsOf(b));
    PlanOfPlans(table, b, ip, cached);
    PoliciesAgree(raw, node, table, b, ip, budget);
    r := CompilePolicies(raw.policies, order, table, book, ip, PolicyPlanOf(table, b, ip, budget));
    if r.Some? { PoliciesStand(r.value, raw, node, table, b, ip, budget); }
  }

  /** The lists whose selector is still held. */
  ghost function HeldLists(c: Cache): set<Key> {
    Prune(c).entries.Keys
  }

  /** `prune_selector_cache`, if there is a book. */
  method PruneBook(book: Option<AddrBook>)
    requires book.Some? ==> book.value.Valid()
    modifies if book.Some? then {book.value} else {}
    ensures book.Some? ==> book.value.Valid()
    ensures Numbered(CacheOf(book)) && AllLive(CacheOf(book)) && CacheOf(book) == Prune(old(CacheOf(book)))
  {
    if book.Some? {
      ghost var c := book.value.cache;
      book.value.PruneSelectorCache();
      PrunedIs(c, book.value.cache);
    } else {
      assert Prune(EMPTY_CACHE) == EMPTY_CACHE;
    }
  }

  lemma PrunedIs(c: Cache, c': Cache)
    requires forall names :: names in c'.entries <==> Upgrade(c, names).Some?
    requires forall names :: Upgrade(c', names) == Upgrade(c, names)
    requires c'.live == c.live && c'.next == c.next
    ensures c' == Prune(c) && AllLive(c')
  {
    forall names | names in c'.entries ensures names in c.entries && c'.entries[names] == c.entries[names] {
      assert Upgrade(c, names).Some? && Upgrade(c', names) == Upgrade(c, names);
    }
  }

  /** Prune the selector cache, then compile the policies. */
  method CompilePruned(raw: RawSnapshot, order: seq<Bytes>, node: Bytes, table: map<Bytes, Egress>,
                       book: Option<AddrBook>, ip: Rules.ParseIp)
      returns (r: Option<map<Bytes, Policy>>)
    requires Realizes(table, EgressesOf(raw, node)) && (book.Some? ==> book.value.Valid())
    requires IsOrder(order, raw.policies.Keys)
    modifies if book.Some? then {book.value} else {}
    ensures book.Some? ==> book.value.Valid()
    ensures r.Some? <==>
            && PoliciesOk(raw, node, BookOf(book), ip)
            && SelectorsFit(raw, order, BookOf(book), ip, HeldLists(old(CacheOf(book))))
    ensures r.Some? ==> PoliciesMean(r.value, raw, node, BookOf(book), ip)
  {
    PruneBook(book);
    r := CompileRouting(raw, order, node, table, book, ip);
  }

  /** `compile_checked`, with the order in which the map of policies is iterated:
      succeeds exactly on compilable documents whose selectors fit the memory budget,
      and the result stands for the document on this node. */
  method Compile(raw: RawSnapshot, order: seq<Bytes>, node: Bytes, book: Option<AddrBook>, parsers: Parsers)
      returns (r: Result<Compiled>)
    requires (book.Some? ==> book.value.Valid()) && IsOrder(order, raw.policies.Keys)
    modifies if book.Some? then {book.value} else {}
    ensures book.Some? ==> book.value.Valid()
    ensures r.Ok? <==>
            && Compilable(raw, node, BookOf(book), parsers)
            && SelectorsFit(raw, order, BookOf(book), parsers.ip, HeldLists(old(CacheOf(book))))
    ensures r.Ok? ==> Stands(r.value, raw, node, BookOf(book), parsers.ip)
    ensures r.Ok? ==> Indexes(r.value.frontends, raw.users, raw.users.Keys)
  {
    if !SizesOk(raw) { return Err; }
    var table := CompileTable(raw, node);
    if table.None? { return Err; }
    var policies := CompilePruned(raw, order, node, table.value, book, parsers.ip);
    if policies.None? { return Err; }
    var users := CompileUsers(raw.users, policies.value.Keys, parsers.date, raw.policies);
    if users.None? { return Err; }
    r := Ok(Compiled(raw.version, users.value.0, policies.value, users.value.1));
  }

  /** Compile, then decide: there is a decision exactly on compilable documents whose
      selectors fit the memory budget, and it is what the raw document reads. */
  method CompileAndDecide(raw: RawSnapshot, order: seq<Bytes>, node: Bytes, book: Option<AddrBook>, parsers: Parsers,
                          user: Bytes, requested: Bytes, sniffed: Option<Bytes>, parse: ParseAddr)
      returns (r: Option<Resolved>)
    requires book.Some? ==> book.value.Valid() && ValidMask(book.value.raw.catsets)
    requires IsOrder(order, raw.policies.Keys)
    modifies if book.Some? then {book.value} else {}
    ensures r.Some? <==>
            && Compilable(raw, node, BookOf(book), parsers)
            && SelectorsFit(raw, order, BookOf(book), parsers.ip, HeldLists(old(CacheOf(book))))
    ensures r.Some? ==> r.value == Reading(raw, node, BookOf(book), user, requested, sniffed, parse, parsers.ip)
  {
    var c := Compile(raw, order, node, book, parsers);
    if c.Err? { return None; }
    var d := DecideWithSniff(c.value, raw, node, BookOf(book), user, requested, sniffed, parse, parsers.ip);
    r := Some(d);
  }

  // ----- when the order of the policies does not matter

  lemma {:induction false} KeysOfRoutes(routes: seq<RawRoute>, keysOf: RawRoute -> seq<Key>, key: Key)
    ensures key in RouteKeys(routes, keysOf) <==> exists r :: r in routes && key in keysOf(r)
  {
    if routes != [] {
      var prior, last := routes[..|routes| - 1], routes[|routes| - 1];
      assert routes == prior + [last];
      KeysOfRoutes(prior, keysOf, key);
    }
  }

  lemma {:induction false} RoutesOfOrder(order: seq<Bytes>, m: map<Bytes, RawPolicy>, r: RawRoute)
    requires forall id :: id in order ==> id in m
    ensures r in RoutesInOrder(order, m) <==> exists id :: id in order && r in m[id].routes
  {
    if order != [] {
      var prior, last := order[..|order| - 1], order[|order| - 1];
      assert order == prior + [last];
      RoutesOfOrder(prior, m, r);
    }
  }

  lemma DistinctKeys(order: seq<Bytes>, m: map<Bytes, RawPolicy>, keysOf: RawRoute -> seq<Key>)
    requires IsOrder(order, m.Keys)
    ensures Elements(RouteKeys(RoutesInOrder(order, m), keysOf)) == PoliciesKeys(m, keysOf)
  {
    var routes := RoutesInOrder(order, m);
    forall key ensures key in Elements(RouteKeys(routes, keysOf)) <==> key in PoliciesKeys(m, keysOf) {
      KeysOfRoutes(routes, keysOf, key);
      forall r { RoutesOfOrder(order, m, r); }
    }
  }

  /** One list at most per route, and every route of a valid document has a rule. */
  lemma {:induction false} KeysBounded(routes: seq<RawRoute>, ip: Rules.ParseIp)
    requires forall r :: r in routes ==> CountSelectors(r.selectors) > 0
    ensures |RouteKeys(routes, KeysIn(ip))| <= CountRules(routes)
  {
    if routes != [] {
      var prior, last := routes[..|routes| - 1], routes[|routes| - 1];
      assert routes == prior + [last];
      KeysBounded(prior, ip);
    }
  }

  /** Whatever the order, the distinct lists are to fit; and all rules fitting is
      enough. If the cache has room for all lists, their number decides. */
  lemma FitBounds(raw: RawSnapshot, order: seq<Bytes>, node: Bytes, book: Option<RawBook>, parsers: Parsers,
                  cached: set<Key>)
    requires IsOrder(order, raw.policies.Keys) && Compilable(raw, node, book, parsers)
    ensures var lists := PoliciesKeys(raw.policies, KeysIn(parsers.ip));
            var fit := SelectorsFit(raw, order, book, parsers.ip, cached);
            && (fit ==> Within(WordsOf(book), |lists|))
            && (Within(WordsOf(book), TotalRules(raw.policies)) ==> fit)
            && (Roomy(cached, lists) ==> (fit <==> Within(WordsOf(book), |lists|)))
  {
    var keysOf, words := KeysIn(parsers.ip), WordsOf(book);
    var routes := RoutesInOrder(order, raw.policies);
    var keys := RouteKeys(routes, keysOf);
    DistinctKeys(order, raw.policies, keysOf);
    AllocationBounds(cached, keys);
    CostGrows(words, |Elements(keys)|, Allocations(cached, keys));
    RulesInOrder(raw, order, node, book, parsers, routes);
    CostGrows(words, Allocations(cached, keys), TotalRules(raw.policies));
  }

  lemma RulesInOrder(raw: RawSnapshot, order: seq<Bytes>, node: Bytes, book: Option<RawBook>, parsers: Parsers,
                     routes: seq<RawRoute>)
    requires IsOrder(order, raw.policies.Keys) && Compilable(raw, node, book, parsers)
    requires routes == RoutesInOrder(order, raw.policies)
    ensures |RouteKeys(routes, KeysIn(parsers.ip))| <= TotalRules(raw.policies)
  {
    forall r | r in routes ensures CountSelectors(r.selectors) > 0 {
      RoutesOfOrder(order, raw.policies, r);
      var id :| id in order && r in raw.policies[id].routes;
      assert PolicyOk(raw.policies[id], EgressesOf(raw, node), book, parsers.ip);
    }
    OrderTotal(order, raw.policies);
    KeysBounded(routes, parsers.ip);
  }
}
