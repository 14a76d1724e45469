/** What a snapshot says of a connection, said of its routes, actions and egresses. */
module ReadingLaws {
  import opened Wrappers
  import opened Text
  import opened BookFormat
  import opened Rules
  import opened Queries
  import opened RuleSets
  import opened Egresses
  import opened Snapshot
  import opened SelectorLaws
  import opened EgressLaws

  /** A route hits a host when one of its lines does. */
  lemma RouteHitsIff(r: RawRoute, book: Option<RawBook>, host: Bytes, parse: ParseAddr, ip: ParseIp)
    ensures RouteHits(r, book, host, parse, ip) <==>
            exists i :: 0 <= i < |r.selectors| && LineHits(r.selectors[i], book, host, parse, ip)
  {
    var sels := SelectorsOf(r.selectors, ip);
    if i :| 0 <= i < |sels| && Hits(sels[i], book, host, parse) {
      assert LineHits(r.selectors[i], book, host, parse, ip);
    }
    if i :| 0 <= i < |r.selectors| && LineHits(r.selectors[i], book, host, parse, ip) {
      assert Hits(sels[i], book, host, parse);
    }
  }

  /** The first route that hits the host, if there is one. */
  ghost predicate IsFirst(r: Option<nat>, routes: seq<RawRoute>, book: Option<RawBook>, host: Bytes, parse: ParseAddr,
                          ip: ParseIp) {
    && (r.Some? ==> r.value < |routes| && RouteHits(routes[r.value], book, host, parse, ip))
    && forall k :: 0 <= k < |routes| && (r.Some? ==> k < r.value) ==> !RouteHits(routes[k], book, host, parse, ip)
  }

  lemma FirstIs(r: Option<nat>, routes: seq<RawRoute>, book: Option<RawBook>, host: Bytes, parse: ParseAddr,
                ip: ParseIp)
    requires IsFirst(r, routes, book, host, parse, ip)
    ensures FirstFrom(routes, 0, book, host, parse, ip) == r
  {
    FirstFromIsLeast(routes, 0, book, host, parse, ip);
  }

  /** This node's egress of that name: the override if there is one, else the base. */
  ghost predicate NodeEgress(raw: RawSnapshot, node: Bytes, id: Bytes, e: RawEgress) {
    if node in raw.overrides && id in raw.overrides[node] then e == raw.overrides[node][id]
    else id in raw.egresses && e == raw.egresses[id]
  }

  lemma EgressHere(raw: RawSnapshot, node: Bytes, id: Bytes, e: RawEgress)
    ensures NodeEgress(raw, node, id, e) <==> id in EgressesOf(raw, node) && EgressesOf(raw, node)[id] == e
  {
  }

  /** The connection goes by way of the egress. */
  ghost predicate By(d: Decision, e: Egress) {
    && (e.route.ToUpstream? ==> d == Via(e.route.upstream))
    && (e.route.ToChain? ==> d == ViaChain(e.route.chain))
  }

  /** The connection goes where the action says: to this node's egress as its document
      describes it, and nowhere if there is no such egress. */
  ghost predicate Goes(d: Decision, a: RawAction, raw: RawSnapshot, node: Bytes) {
    match a
    case GoDirect => d == Direct
    case Refuse => d == Block
    case ToEgress(name) =>
      if exists e :: NodeEgress(raw, node, Trim(name), e) && EgressOk(Trim(name), e)
      then exists e, c :: NodeEgress(raw, node, Trim(name), e) && EgressIs(Trim(name), e, c) && By(d, c)
      else d == Block
  }

  lemma MeaningGoes(a: RawAction, raw: RawSnapshot, node: Bytes)
    ensures Goes(Meaning(a, EgressesOf(raw, node)), a, raw, node)
  {
    if a.ToEgress? {
      var id, egresses := Trim(a.id), EgressesOf(raw, node);
      forall e { EgressHere(raw, node, id, e); }
      if id in egresses && EgressOk(id, egresses[id]) {
        var e, c := egresses[id], EgressOf(id, egresses[id]);
        EgressOfIs(id, e);
        assert NodeEgress(raw, node, id, e) && By(Meaning(a, egresses), c);
      }
    }
  }

  ghost predicate Refuses(p: RawPolicy, r: Option<nat>) {
    r.Some? && r.value < |p.routes| && p.routes[r.value].action == Refuse
  }

  /** What decides without a route: the policy's default, and direct without one. */
  function Fallback(p: RawPolicy): RawAction {
    if p.defaultAction == None then GoDirect else p.defaultAction.value
  }

  function ActionOf(p: RawPolicy, r: Option<nat>): RawAction
    requires r.Some? ==> r.value < |p.routes|
  {
    if r.Some? then p.routes[r.value].action else Fallback(p)
  }

  /** How the first routes of the two hosts decide. A block of the requested host comes
      first, then a block of the sniffed host; for a requested address the sniffed
      host's route goes before that of the address; then the requested host's route,
      then the default. */
  ghost predicate Decided(r: Resolved, raw: RawSnapshot, node: Bytes, p: RawPolicy, host: Bytes, isIp: bool,
                          first: Option<nat>, sniffed: Option<Bytes>, second: Option<nat>)
    requires first.Some? ==> first.value < |p.routes|
    requires second.Some? ==> sniffed.Some? && second.value < |p.routes|
  {
    && (Refuses(p, first) ==> r.decision == Block && r.host == host && r.route == first)
    && (!Refuses(p, first) && Refuses(p, second) ==>
          r.decision == Block && r.host == sniffed.value && r.route == second)
    && (!Refuses(p, first) && !Refuses(p, second) && isIp && second.Some? ==>
          r.host == sniffed.value && r.route == second && Goes(r.decision, ActionOf(p, second), raw, node))
    && (!Refuses(p, first) && !Refuses(p, second) && !(isIp && second.Some?) ==>
          r.host == host && r.route == first && Goes(r.decision, ActionOf(p, first), raw, node))
  }

  /** The reading of a known user's connection, for every pair of first routes. */
  lemma ReadingIs(raw: RawSnapshot, node: Bytes, book: Option<RawBook>, user: Bytes, host: Bytes,
                  sniffed: Option<Bytes>, parse: ParseAddr, ip: ParseIp, first: Option<nat>, second: Option<nat>)
    requires user in raw.users && raw.users[user].policy in raw.policies
    requires IsFirst(first, raw.policies[raw.users[user].policy].routes, book, host, parse, ip)
    requires if sniffed.None? then second == None
             else IsFirst(second, raw.policies[raw.users[user].policy].routes, book, sniffed.value, parse, ip)
    ensures var r, id := Reading(raw, node, book, user, host, sniffed, parse, ip), raw.users[user].policy;
            && r.version == raw.version && r.policy == Some(id)
            && Decided(r, raw, node, raw.policies[id], host, parse(host).Some?, first, sniffed, second)
  {
    var p := raw.policies[raw.users[user].policy];
    FirstIs(first, p.routes, book, host, parse, ip);
    if sniffed.Some? { FirstIs(second, p.routes, book, sniffed.value, parse, ip); }
    MeaningGoes(ActionOf(p, first), raw, node);
    if second.Some? { MeaningGoes(ActionOf(p, second), raw, node); }
  }

  /** An unknown user, or one without a policy, is refused. */
  lemma UnknownIsRefused(raw: RawSnapshot, node: Bytes, book: Option<RawBook>, user: Bytes, host: Bytes,
                         sniffed: Option<Bytes>, parse: ParseAddr, ip: ParseIp)
    requires user !in raw.users || raw.users[user].policy !in raw.policies
    ensures Reading(raw, node, book, user, host, sniffed, parse, ip) == Resolved(Block, host, raw.version, None, None)
  {
  }

  /** A sniffed host that no route hits changes nothing. */
  lemma UnroutedSniff(raw: RawSnapshot, node: Bytes, book: Option<RawBook>, user: Bytes, host: Bytes, sniffed: Bytes,
                      parse: ParseAddr, ip: ParseIp)
    requires user in raw.users && raw.users[user].policy in raw.policies
    requires IsFirst(None, raw.policies[raw.users[user].policy].routes, book, sniffed, parse, ip)
    ensures Reading(raw, node, book, user, host, Some(sniffed), parse, ip) ==
            Reading(raw, node, book, user, host, None, parse, ip)
  {
    FirstIs(None, raw.policies[raw.users[user].policy].routes, book, sniffed, parse, ip);
  }
}
