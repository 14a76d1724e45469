/** Snapshots: the raw document of users, routing policies and egresses, what it says
    of a connection, and its compilation for one node. */
module Snapshot {
  import opened Wrappers
  import opened Words
  import opened Text
  import opened BookFormat
  import Rules
  import opened Queries
  import opened RuleSets
  import opened RouteIndex
  import opened Egresses

  const SCHEMA_VERSION: nat := 1
  const MAX_USERS: nat := 100_000
  const MAX_POLICIES: nat := 10_000
  const MAX_EGRESSES: nat := 10_000
  const MAX_RULES: nat := 200_000
  const MAX_NODE_OVERRIDES: nat := 10_000

  // ----- the raw document

  datatype RawAction = ToEgress(id: Bytes) | GoDirect | Refuse

  datatype RawRoute = RawRoute(selectors: seq<Bytes>, action: RawAction)

  datatype RawPolicy = RawPolicy(routes: seq<RawRoute>, defaultAction: Option<RawAction>)

  /** Front-end credentials by protocol: the uuid, if there is one. */
  datatype RawUser = RawUser(policy: Bytes, expire: Option<Bytes>, frontends: map<Bytes, Option<Bytes>>)

  datatype RawSnapshot = RawSnapshot(
    schema: nat, version: nat, users: map<Bytes, RawUser>, policies: map<Bytes, RawPolicy>,
    egresses: map<Bytes, RawEgress>, overrides: map<Bytes, map<Bytes, RawEgress>>)

  /** What parsing is left to libraries: addresses and networks, dates. */
  datatype Parsers = Parsers(ip: Rules.ParseIp, date: Bytes -> bool)

  // ----- what it says

  /** This node's overrides. */
  function OverridesOf(raw: RawSnapshot, node: Bytes): map<Bytes, RawEgress> {
    if node in raw.overrides then raw.overrides[node] else map[]
  }

  /** The egresses of this node. */
  function EgressesOf(raw: RawSnapshot, node: Bytes): map<Bytes, RawEgress> {
    raw.egresses + OverridesOf(raw, node)
  }

  datatype Decision = Direct | Via(upstream: Upstream) | ViaChain(chain: Chain) | Block

  /** A decision, the host that decided it, and the policy and route that did. */
  datatype Resolved = Resolved(decision: Decision, host: Bytes, version: nat, policy: Option<Bytes>, route: Option<nat>)

  function DecisionVia(route: Egresses.Route): Decision {
    match route
    case ToUpstream(u) => Via(u)
    case ToChain(c) => ViaChain(c)
  }

  /** An action read against this node's egresses. An egress that is not there, or is
      no egress, blocks. */
  function Meaning(a: RawAction, egresses: map<Bytes, RawEgress>): Decision {
    match a
    case GoDirect => Direct
    case Refuse => Block
    case ToEgress(name) =>
      var id := Trim(name);
      if id in egresses && EgressOk(id, egresses[id]) then DecisionVia(EgressOf(id, egresses[id]).route) else Block
  }

  function DefaultOf(p: RawPolicy): RawAction {
    if p.defaultAction.Some? then p.defaultAction.value else GoDirect
  }

  ghost predicate RouteHits(r: RawRoute, book: Option<RawBook>, host: Bytes, parse: ParseAddr, ip: Rules.ParseIp) {
    AnyHits(SelectorsOf(r.selectors, ip), book, host, parse)
  }

  /** The first route, from the `i`th on, with a selector that hits the host. */
  ghost function FirstFrom(routes: seq<RawRoute>, i: nat, book: Option<RawBook>, host: Bytes, parse: ParseAddr,
                           ip: Rules.ParseIp): Option<nat>
    decreases |routes| - i
  {
    if i >= |routes| then None
    else if RouteHits(routes[i], book, host, parse, ip) then Some(i)
    else FirstFrom(routes, i + 1, book, host, parse, ip)
  }

  /** The same for the sniffed host, if there is one. */
  ghost function SniffedFirst(routes: seq<RawRoute>, book: Option<RawBook>, sniffed: Option<Bytes>, parse: ParseAddr,
                              ip: Rules.ParseIp): Option<(Bytes, Option<nat>)> {
    if sniffed.None? then None else Some((sniffed.value, FirstFrom(routes, 0, book, sniffed.value, parse, ip)))
  }

  predicate Blocks(p: RawPolicy, route: Option<nat>) {
    route.Some? && route.value < |p.routes| && p.routes[route.value].action == Refuse
  }

  /** Which host and route of the policy decide: a block of either host first, then
      the sniffed host for a requested address, then the requested host. */
  function Deciding(p: RawPolicy, host: Bytes, isIp: bool, first: Option<nat>,
                    sniffed: Option<(Bytes, Option<nat>)>): (Bytes, Option<nat>) {
    if Blocks(p, first) then (host, first)
    else if sniffed.Some? && Blocks(p, sniffed.value.1) then sniffed.value
    else if isIp && sniffed.Some? && sniffed.value.1.Some? then sniffed.value
    else (host, first)
  }

  function ActionAt(p: RawPolicy, route: Option<nat>): RawAction {
    if route.Some? && route.value < |p.routes| then p.routes[route.value].action else DefaultOf(p)
  }

  /** The raw document read directly. */
  ghost function Reading(raw: RawSnapshot, node: Bytes, book: Option<RawBook>, user: Bytes, host: Bytes,
                         sniffed: Option<Bytes>, parse: ParseAddr, ip: Rules.ParseIp): Resolved {
    if user !in raw.users || raw.users[user].policy !in raw.policies then Resolved(Block, host, raw.version, None, None)
    else
      var id := raw.users[user].policy;
      var p := raw.policies[id];
      var first := FirstFrom(p.routes, 0, book, host, parse, ip);
      var second := SniffedFirst(p.routes, book, sniffed, parse, ip);
      var (who, route) := Deciding(p, host, parse(host).Some?, first, second);
      Resolved(Meaning(ActionAt(p, route), EgressesOf(raw, node)), who, raw.version, Some(id), route)
  }

  // ----- when it compiles

  function CountSelectors(selectors: seq<Bytes>): nat {
    if selectors == [] then 0
    else CountSelectors(selectors[..|selectors| - 1]) + if Trim(selectors[|selectors| - 1]) != [] then 1 else 0
  }

  function CountRules(routes: seq<RawRoute>): nat {
    if routes == [] then 0 else CountRules(routes[..|routes| - 1]) + CountSelectors(routes[|routes| - 1].selectors)
  }

  /** The rules of all policies. */
  ghost function TotalRules(policies: map<Bytes, RawPolicy>): nat
    decreases |policies|
  {
    if policies == map[] then 0
    else
      var id :| id in policies;
      CountRules(policies[id].routes) + TotalRules(policies - {id})
  }

  predicate ActionOk(a: RawAction, egresses: map<Bytes, RawEgress>) {
    a.ToEgress? ==> Trim(a.id) != [] && Trim(a.id) in egresses
  }

  ghost predicate RouteOk(r: RawRoute, egresses: map<Bytes, RawEgress>, book: Option<RawBook>, ip: Rules.ParseIp) {
    CountSelectors(r.selectors) > 0 && AllResolvable(SelectorsOf(r.selectors, ip), book) && ActionOk(r.action, egresses)
  }

  ghost predicate PolicyOk(p: RawPolicy, egresses: map<Bytes, RawEgress>, book: Option<RawBook>, ip: Rules.ParseIp) {
    ActionOk(DefaultOf(p), egresses) && forall i :: 0 <= i < |p.routes| ==> RouteOk(p.routes[i], egresses, book, ip)
  }

  function UuidKey(uuid: Option<Bytes>): Bytes {
    if uuid.Some? then Lower(Trim(uuid.value)) else []
  }

  /** The user claims a uuid on a protocol. */
  predicate Claims(u: RawUser, proto: Bytes, key: Bytes) {
    key != [] && proto in u.frontends && UuidKey(u.frontends[proto]) == key
  }

  predicate UserOk(u: RawUser, policies: map<Bytes, RawPolicy>, date: Bytes -> bool) {
    && Trim(u.policy) != [] && u.policy in policies
    && (u.expire.Some? && Trim(u.expire.value) != [] ==> date(Trim(u.expire.value)))
  }

  /** No uuid is claimed twice on one protocol. */
  ghost predicate NoSharedUuid(users: map<Bytes, RawUser>) {
    forall a, b, proto, key ::
      a in users && b in users && Claims(users[a], proto, key) && Claims(users[b], proto, key) ==> a == b
  }

  predicate SizesOk(raw: RawSnapshot) {
    && raw.schema == SCHEMA_VERSION && |raw.users| <= MAX_USERS && |raw.policies| <= MAX_POLICIES
    && |raw.overrides| <= MAX_NODE_OVERRIDES
  }

  ghost predicate Replaces(overrides: map<Bytes, RawEgress>, egresses: map<Bytes, RawEgress>) {
    forall id :: id in overrides ==> Trim(id) != [] && id in egresses
  }

  ghost predicate AllEgresses(egresses: map<Bytes, RawEgress>) {
    forall id :: id in egresses ==> Trim(id) != [] && EgressOk(id, egresses[id])
  }

  /** Overrides replace base egresses only, and every egress of this node is one. */
  ghost predicate EgressesOk(raw: RawSnapshot, node: Bytes) {
    && |raw.egresses| <= MAX_EGRESSES && Replaces(OverridesOf(raw, node), raw.egresses)
    && AllEgresses(EgressesOf(raw, node))
  }

  ghost predicate PoliciesOk(raw: RawSnapshot, node: Bytes, book: Option<RawBook>, ip: Rules.ParseIp) {
    && TotalRules(raw.policies) <= MAX_RULES
    && forall id :: id in raw.policies ==> Trim(id) != [] && PolicyOk(raw.policies[id], EgressesOf(raw, node), book, ip)
  }

  ghost predicate UsersOk(raw: RawSnapshot, date: Bytes -> bool) {
    NoSharedUuid(raw.users) && forall name :: name in raw.users ==> UserOk(raw.users[name], raw.policies, date)
  }

  ghost predicate Compilable(raw: RawSnapshot, node: Bytes, book: Option<RawBook>, parsers: Parsers) {
    SizesOk(raw) && EgressesOk(raw, node) && PoliciesOk(raw, node, book, parsers.ip) && UsersOk(raw, parsers.date)
  }

  // ----- what it takes of the address book

  /** The lists of category names that a route resolves: one at most. */
  ghost function KeysIn(ip: Rules.ParseIp): RawRoute -> seq<seq<Bytes>> {
    (r: RawRoute) => BookKeys(SelectorsOf(r.selectors, ip))
  }

  /** The lists that routes resolve, one after the other. */
  ghost function RouteKeys(routes: seq<RawRoute>, keysOf: RawRoute -> seq<seq<Bytes>>): seq<seq<Bytes>> {
    if routes == [] then [] else RouteKeys(routes[..|routes| - 1], keysOf) + keysOf(routes[|routes| - 1])
  }

  /** The distinct lists of all policies. */
  ghost function PoliciesKeys(policies: map<Bytes, RawPolicy>, keysOf: RawRoute -> seq<seq<Bytes>>): set<seq<Bytes>> {
    set id, r, key | id in policies && r in policies[id].routes && key in keysOf(r) :: key
  }

  /** An order in which a hash map may be iterated. */
  ghost predicate IsOrder(order: seq<Bytes>, ids: set<Bytes>) {
    && (forall id :: id in order <==> id in ids)
    && forall i, j :: 0 <= i < j < |order| ==> order[i] != order[j]
  }

  /** The routes of these policies, one policy after the other. */
  function RoutesInOrder(order: seq<Bytes>, policies: map<Bytes, RawPolicy>): seq<RawRoute>
    requires forall id :: id in order ==> id in policies
  {
    if order == [] then []
    else RoutesInOrder(order[..|order| - 1], policies) + policies[order[|order| - 1]].routes
  }

  function WordsOf(book: Option<RawBook>): nat {
    if book.Some? then book.value.words else 0
  }

  // ----- laws of the reading

  /** Nothing that was sent to an egress goes direct: on a compilable document the
      decision is direct, a block, or this node's egress of that name, exactly as the
      deciding action says; only an unknown user is blocked without one. */
  lemma NeverDirectByAccident(raw: RawSnapshot, node: Bytes, book: Option<RawBook>, parsers: Parsers, user: Bytes,
                              host: Bytes,
                              sniffed: Option<Bytes>, parse: ParseAddr)
    requires Compilable(raw, node, book, parsers)
    ensures var r := Reading(raw, node, book, user, host, sniffed, parse, parsers.ip);
            if user !in raw.users then r.decision == Block && r.policy == None
            else
              && r.policy == Some(raw.users[user].policy) && raw.users[user].policy in raw.policies
              && Obeys(r.decision, ActionAt(raw.policies[raw.users[user].policy], r.route), EgressesOf(raw, node))
  {
    if user in raw.users {
      var id := raw.users[user].policy;
      assert UserOk(raw.users[user], raw.policies, parsers.date);
      var r := Reading(raw, node, book, user, host, sniffed, parse, parsers.ip);
      ActionIsOk(raw.policies[id], r.route, EgressesOf(raw, node), book, parsers.ip);
      ObeysMeaning(ActionAt(raw.policies[id], r.route), EgressesOf(raw, node));
    }
  }

  lemma ActionIsOk(p: RawPolicy, route: Option<nat>, egresses: map<Bytes, RawEgress>, book: Option<RawBook>,
                   ip: Rules.ParseIp)
    requires PolicyOk(p, egresses, book, ip)
    ensures ActionOk(ActionAt(p, route), egresses)
  {
    if route.Some? && route.value < |p.routes| { assert RouteOk(p.routes[route.value], egresses, book, ip); }
  }

  lemma ObeysMeaning(a: RawAction, egresses: map<Bytes, RawEgress>)
    requires AllEgresses(egresses) && ActionOk(a, egresses)
    ensures Obeys(Meaning(a, egresses), a, egresses)
  {
    if a.ToEgress? {
      var id := Trim(a.id);
      assert ReachedAs(EgressOf(id, egresses[id]), id, egresses);
    }
  }

  ghost predicate Obeys(d: Decision, a: RawAction, egresses: map<Bytes, RawEgress>) {
    && (d == Direct <==> a == GoDirect) && (d == Block <==> a == Refuse)
    && (a.ToEgress? ==> exists e :: ReachedAs(e, Trim(a.id), egresses) && d == DecisionVia(e.route))
  }

  predicate ReachedAs(e: Egress, id: Bytes, egresses: map<Bytes, RawEgress>) {
    id in egresses && EgressOk(id, egresses[id]) && e == EgressOf(id, egresses[id])
  }

  /** A block of either host vetoes; and for a requested name the sniffed host can
      do nothing else. */
  lemma SniffLaws(raw: RawSnapshot, node: Bytes, book: Option<RawBook>, user: Bytes, host: Bytes, sniffed: Bytes,
                  parse: ParseAddr,
                  ip: Rules.ParseIp)
    requires user in raw.users && raw.users[user].policy in raw.policies
    ensures var p := raw.policies[raw.users[user].policy];
            var with := Reading(raw, node, book, user, host, Some(sniffed), parse, ip);
            var without := Reading(raw, node, book, user, host, None, parse, ip);
            var vetoed := Blocks(p, FirstFrom(p.routes, 0, book, sniffed, parse, ip));
            && (Blocks(p, FirstFrom(p.routes, 0, book, host, parse, ip)) || vetoed ==> with.decision == Block)
            && (parse(host).None? && !vetoed ==> with == without)
            && (without.decision == Block ==> with.decision == Block || parse(host).Some?)
  {
  }

  lemma {:induction false} FirstFromHits(routes: seq<RawRoute>, i: nat, book: Option<RawBook>, host: Bytes,
                                         parse: ParseAddr, ip: Rules.ParseIp)
    ensures var r := FirstFrom(routes, i, book, host, parse, ip);
            r.Some? ==> i <= r.value < |routes| && RouteHits(routes[r.value], book, host, parse, ip)
    decreases |routes| - i
  {
    if i < |routes| && !RouteHits(routes[i], book, host, parse, ip) {
      FirstFromHits(routes, i + 1, book, host, parse, ip);
    }
  }

  lemma {:induction false} FirstFromMisses(routes: seq<RawRoute>, i: nat, k: nat, book: Option<RawBook>, host: Bytes,
                                           parse: ParseAddr, ip: Rules.ParseIp)
    requires i <= k < |routes|
    requires var r := FirstFrom(routes, i, book, host, parse, ip); r.None? || k < r.value
    ensures !RouteHits(routes[k], book, host, parse, ip)
    decreases k - i
  {
    if i < k { FirstFromMisses(routes, i + 1, k, book, host, parse, ip); }
  }

  /** Trying the routes in order finds the first that hits. */
  lemma FirstFromIsLeast(routes: seq<RawRoute>, i: nat, book: Option<RawBook>, host: Bytes, parse: ParseAddr,
                         ip: Rules.ParseIp)
    ensures var r := FirstFrom(routes, i, book, host, parse, ip);
            && (r.Some? ==> i <= r.value < |routes| && RouteHits(routes[r.value], book, host, parse, ip))
            && forall k :: i <= k < |routes| && (r.None? || k < r.value) ==>
                 !RouteHits(routes[k], book, host, parse, ip)
  {
    FirstFromHits(routes, i, book, host, parse, ip);
    var r := FirstFrom(routes, i, book, host, parse, ip);
    forall k | i <= k < |routes| && (r.None? || k < r.value) ensures !RouteHits(routes[k], book, host, parse, ip) {
      FirstFromMisses(routes, i, k, book, host, parse, ip);
    }
  }

  // ----- the compiled form

  datatype Action = Use(egress: Egress) | Pass | Deny

  datatype CompiledRoute = CompiledRoute(rules: RuleSet, action: Action)

  datatype Policy = Policy(routes: seq<CompiledRoute>, defaultAction: Action, index: RouteIndex)

  /** Users by policy, policies, and the front-end index from protocol and uuid to
      user. */
  datatype Compiled = Compiled(
    version: nat, users: map<Bytes, Bytes>, policies: map<Bytes, Policy>, frontends: map<(Bytes, Bytes), Bytes>)

  /** `route_action_decision` */
  function DecisionOf(a: Action): Decision {
    match a
    case Use(e) => DecisionVia(e.route)
    case Pass => Direct
    case Deny => Block
  }

  function RulesOf(routes: seq<CompiledRoute>): (r: seq<RuleSet>)
    ensures |r| == |routes| && forall i :: 0 <= i < |routes| ==> r[i] == routes[i].rules
  {
    seq(|routes|, i requires 0 <= i < |routes| => routes[i].rules)
  }

  ghost predicate ActionMeans(a: Action, raw: RawAction, egresses: map<Bytes, RawEgress>) {
    DecisionOf(a) == Meaning(raw, egresses) && (a.Deny? <==> raw.Refuse?)
  }

  ghost predicate RouteMeans(r: CompiledRoute, raw: RawRoute, egresses: map<Bytes, RawEgress>, book: Option<RawBook>,
                             ip: Rules.ParseIp) {
    Means(r.rules, SelectorsOf(raw.selectors, ip), book) && ActionMeans(r.action, raw.action, egresses)
  }

  ghost predicate PolicyMeans(p: Policy, raw: RawPolicy, egresses: map<Bytes, RawEgress>, book: Option<RawBook>,
                              ip: Rules.ParseIp) {
    && |p.routes| == |raw.routes| <= NONE
    && (forall i :: 0 <= i < |p.routes| ==> RouteMeans(p.routes[i], raw.routes[i], egresses, book, ip))
    && ActionMeans(p.defaultAction, DefaultOf(raw), egresses)
    && Represents(p.index, RulesOf(p.routes))
  }

  ghost predicate PoliciesMean(policies: map<Bytes, Policy>, raw: RawSnapshot, node: Bytes, book: Option<RawBook>,
                               ip: Rules.ParseIp) {
    && policies.Keys == raw.policies.Keys
    && forall id :: id in policies ==> PolicyMeans(policies[id], raw.policies[id], EgressesOf(raw, node), book, ip)
  }

  /** The compiled snapshot stands for the raw one on this node. */
  ghost predicate Stands(c: Compiled, raw: RawSnapshot, node: Bytes, book: Option<RawBook>, ip: Rules.ParseIp) {
    && c.version == raw.version && PoliciesMean(c.policies, raw, node, book, ip)
    && c.users.Keys == raw.users.Keys
    && forall name :: name in c.users ==> c.users[name] == raw.users[name].policy && c.users[name] in c.policies
  }

  // ----- deciding

  /** The least index that hits is the first route, from the `i`th on, that hits. */
  lemma {:induction false} LeastIsFirst(routes: seq<RawRoute>, i: nat, book: Option<RawBook>, host: Bytes,
                                        parse: ParseAddr, ip: Rules.ParseIp, r: Option<nat>, hit: nat -> bool)
    requires LeastAt(r, |routes|, hit) && i <= |routes| && (r.Some? ==> i <= r.value)
    requires forall k :: 0 <= k < |routes| ==> (hit(k) <==> RouteHits(routes[k], book, host, parse, ip))
    ensures FirstFrom(routes, i, book, host, parse, ip) == r
    decreases |routes| - i
  {
    if i < |routes| {
      assert hit(i) <==> RouteHits(routes[i], book, host, parse, ip);
      if r != Some(i) { LeastIsFirst(routes, i + 1, book, host, parse, ip, r, hit); }
    }
  }

  lemma RuleSetHits(routes: seq<RawRoute>, rules: seq<RuleSet>, k: nat, book: Option<RawBook>, host: Bytes,
                    parse: ParseAddr, ip: Rules.ParseIp)
    requires k < |rules| == |routes| && Means(rules[k], SelectorsOf(routes[k].selectors, ip), book)
    ensures RouteHit(rules, book, host, parse)(k) <==> RouteHits(routes[k], book, host, parse, ip)
  {
    CompiledHits(rules[k], SelectorsOf(routes[k].selectors, ip), book, host, parse);
  }

  lemma AllHit(p: Policy, raw: RawPolicy, egresses: map<Bytes, RawEgress>, book: Option<RawBook>, host: Bytes,
               parse: ParseAddr,
               ip: Rules.ParseIp)
    requires PolicyMeans(p, raw, egresses, book, ip)
    ensures forall k :: 0 <= k < |raw.routes| ==>
              (RouteHit(RulesOf(p.routes), book, host, parse)(k) <==> RouteHits(raw.routes[k], book, host, parse, ip))
  {
    forall k | 0 <= k < |raw.routes|
      ensures RouteHit(RulesOf(p.routes), book, host, parse)(k) <==> RouteHits(raw.routes[k], book, host, parse, ip)
    {
      assert RouteMeans(p.routes[k], raw.routes[k], egresses, book, ip);
      RuleSetHits(raw.routes, RulesOf(p.routes), k, book, host, parse, ip);
    }
  }

  /** `first_match` of a policy: the first route of the raw policy that hits. */
  method FirstRoute(p: Policy, ghost raw: RawPolicy, ghost egresses: map<Bytes, RawEgress>, book: Option<RawBook>,
                    host: Bytes,
                    parse: ParseAddr, ghost ip: Rules.ParseIp)
      returns (r: Option<nat>)
    requires PolicyMeans(p, raw, egresses, book, ip)
    requires book.Some? ==> Valid(book.value) && ValidMask(book.value.catsets)
    ensures r == FirstFrom(raw.routes, 0, book, host, parse, ip) && (r.Some? ==> r.value < |p.routes|)
  {
    r := FirstMatch(p.index, RulesOf(p.routes), book, host, parse);
    AllHit(p, raw, egresses, book, host, parse, ip);
    LeastIsFirst(raw.routes, 0, book, host, parse, ip, r, RouteHit(RulesOf(p.routes), book, host, parse));
  }

  ghost predicate ActionsMean(p: Policy, raw: RawPolicy, egresses: map<Bytes, RawEgress>) {
    && |p.routes| == |raw.routes| && ActionMeans(p.defaultAction, DefaultOf(raw), egresses)
    && forall i :: 0 <= i < |p.routes| ==> ActionMeans(p.routes[i].action, raw.routes[i].action, egresses)
  }

  /** The block veto, the preference and the default, given each host's first route. */
  method Choose(p: Policy, ghost raw: RawPolicy, ghost egresses: map<Bytes, RawEgress>, requested: Bytes, isIp: bool,
                first: Option<nat>, sniffed: Option<(Bytes, Option<nat>)>)
      returns (decision: Decision, host: Bytes, route: Option<nat>)
    requires ActionsMean(p, raw, egresses) && (first.Some? ==> first.value < |p.routes|)
    requires sniffed.Some? && sniffed.value.1.Some? ==> sniffed.value.1.value < |p.routes|
    ensures (host, route) == Deciding(raw, requested, isIp, first, sniffed)
    ensures decision == Meaning(ActionAt(raw, route), egresses)
  {
    if first.Some? && p.routes[first.value].action == Deny { return Block, requested, first; }
    if sniffed.Some? && sniffed.value.1.Some? {
      var (name, second) := sniffed.value;
      if p.routes[second.value].action == Deny { return Block, name, second; }
      if isIp { return DecisionOf(p.routes[second.value].action), name, second; }
    }
    if first.Some? { return DecisionOf(p.routes[first.value].action), requested, first; }
    return DecisionOf(p.defaultAction), requested, None;
  }

  /** The decision of one policy. */
  method DecideIn(p: Policy, ghost raw: RawPolicy, ghost egresses: map<Bytes, RawEgress>, book: Option<RawBook>,
                  requested: Bytes, sniffed: Option<Bytes>, parse: ParseAddr, ghost ip: Rules.ParseIp)
      returns (decision: Decision, host: Bytes, route: Option<nat>)
    requires PolicyMeans(p, raw, egresses, book, ip)
    requires book.Some? ==> Valid(book.value) && ValidMask(book.value.catsets)
    ensures var first := FirstFrom(raw.routes, 0, book, requested, parse, ip);
            var second := SniffedFirst(raw.routes, book, sniffed, parse, ip);
            (host, route) == Deciding(raw, requested, parse(requested).Some?, first, second)
    ensures decision == Meaning(ActionAt(raw, route), egresses)
  {
    var first := FirstRoute(p, raw, egresses, book, requested, parse, ip);
    var second: Option<(Bytes, Option<nat>)> := None;
    if sniffed.Some? {
      var route := FirstRoute(p, raw, egresses, book, sniffed.value, parse, ip);
      second := Some((sniffed.value, route));
    }
    decision, host, route := Choose(p, raw, egresses, requested, parse(requested).Some?, first, second);
  }

  /** The compiled snapshot decides as the raw document reads. */
  method DecideWithSniff(c: Compiled, ghost raw: RawSnapshot, ghost node: Bytes, book: Option<RawBook>, user: Bytes,
                         requested: Bytes, sniffed: Option<Bytes>, parse: ParseAddr, ghost ip: Rules.ParseIp)
      returns (r: Resolved)
    requires Stands(c, raw, node, book, ip)
    requires book.Some? ==> Valid(book.value) && ValidMask(book.value.catsets)
    ensures r == Reading(raw, node, book, user, requested, sniffed, parse, ip)
  {
    if user !in c.users { return Resolved(Block, requested, c.version, None, None); }
    var id := c.users[user];
    if id !in c.policies { return Resolved(Block, requested, c.version, None, None); }
    var decision, host, route :=
      DecideIn(c.policies[id], raw.policies[id], EgressesOf(raw, node), book, requested, sniffed, parse, ip);
    r := Resolved(decision, host, c.version, Some(id), route);
  }
}
