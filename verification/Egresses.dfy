/** Named egresses: a single upstream, or a failover chain tried in order of
    priority. */
module Egresses {
  import opened Wrappers
  import opened Text

  const HTTP: Bytes := [104, 116, 116, 112]
  const HTTPS: Bytes := [104, 116, 116, 112, 115]
  const SOCKS5: Bytes := [115, 111, 99, 107, 115, 53]
  const SOCKS: Bytes := [115, 111, 99, 107, 115]
  const REVERSE: Bytes := [114, 101, 118, 101, 114, 115, 101]
  const SUBNETRA: Bytes := [115, 117, 98, 110, 101, 116, 114, 97]
  const CHAIN: Bytes := [99, 104, 97, 105, 110]
  const MAX_CHAIN_MEMBERS: nat := 16

  datatype RawUpstream = RawUpstream(
    kind: Bytes, addr: Bytes, username: Option<Bytes>, password: Option<Bytes>, tls: bool, skipVerify: bool)

  datatype Kind = HttpProxy | Socks5 | Reverse | Subnetra

  datatype Upstream = Upstream(
    kind: Kind, addr: Bytes, username: Option<Bytes>, password: Option<Bytes>, tls: bool, skipVerify: bool)

  function KindOf(name: Bytes): Option<Kind> {
    var n := Lower(name);
    if n == HTTP || n == HTTPS then Some(HttpProxy)
    else if n == SOCKS5 || n == SOCKS then Some(Socks5)
    else if n == REVERSE then Some(Reverse)
    else if n == SUBNETRA then Some(Subnetra)
    else None
  }

  predicate NoCredentials(u: RawUpstream) {
    u.username.None? && u.password.None? && !u.tls && !u.skipVerify
  }

  /** `compile_upstream` */
  function CompileUpstream(u: RawUpstream): Option<Upstream> {
    match KindOf(u.kind)
    case None => None
    case Some(Reverse) =>
      if Trim(u.addr) == [] || !NoCredentials(u) then None
      else Some(Upstream(Reverse, Trim(u.addr), None, None, false, false))
    case Some(Subnetra) =>
      if !NoCredentials(u) then None else Some(Upstream(Subnetra, u.addr, None, None, false, false))
    case Some(kind) => Some(Upstream(kind, u.addr, u.username, u.password, u.tls, u.skipVerify))
  }

  /** A chain is never an upstream. */
  lemma ChainIsNoUpstream(u: RawUpstream)
    requires Lower(u.kind) == CHAIN
    ensures CompileUpstream(u).None?
  {
    assert CHAIN[0] == 99 && HTTP[0] == 104 && HTTPS[0] == 104 && SOCKS5[0] == 115 && SOCKS[0] == 115
        && REVERSE[0] == 114 && SUBNETRA[0] == 115;
  }

  // ----- chains

  datatype RawMember = RawMember(id: Bytes, priority: nat, backend: RawUpstream)

  datatype Member = Member(id: Bytes, priority: nat, upstream: Upstream)

  datatype Chain = Chain(id: Bytes, members: seq<Member>)

  predicate MemberOk(m: RawMember) {
    Trim(m.id) != [] && CompileUpstream(m.backend).Some?
  }

  function MemberOf(m: RawMember): Member
    requires MemberOk(m)
  {
    Member(Trim(m.id), m.priority, CompileUpstream(m.backend).value)
  }

  predicate ChainOk(id: Bytes, raw: seq<RawMember>) {
    && Trim(id) != [] && 0 < |raw| <= MAX_CHAIN_MEMBERS
    && (forall i :: 0 <= i < |raw| ==> MemberOk(raw[i]))
    && AllDistinct(Ids(raw)) && AllDistinct(Priorities(raw))
  }

  predicate AllDistinct<T(==)>(xs: seq<T>) {
    forall i, j :: 0 <= i < j < |xs| ==> xs[i] != xs[j]
  }

  lemma DistinctSnoc<T>(xs: seq<T>, i: nat)
    requires i < |xs|
    ensures AllDistinct(xs[..i + 1]) <==> AllDistinct(xs[..i]) && xs[i] !in xs[..i]
    ensures AllDistinct(xs) ==> AllDistinct(xs[..i + 1])
  {
  }

  function Ids(raw: seq<RawMember>): (r: seq<Bytes>)
    ensures |r| == |raw| && forall i :: 0 <= i < |raw| ==> r[i] == Trim(raw[i].id)
  {
    seq(|raw|, i requires 0 <= i < |raw| => Trim(raw[i].id))
  }

  function Priorities(raw: seq<RawMember>): (r: seq<nat>)
    ensures |r| == |raw| && forall i :: 0 <= i < |raw| ==> r[i] == raw[i].priority
  {
    seq(|raw|, i requires 0 <= i < |raw| => raw[i].priority)
  }

  function Members(raw: seq<RawMember>): (r: seq<Member>)
    requires forall i :: 0 <= i < |raw| ==> MemberOk(raw[i])
    ensures |r| == |raw| && forall i :: 0 <= i < |raw| ==> r[i] == MemberOf(raw[i])
  {
    seq(|raw|, i requires 0 <= i < |raw| => MemberOf(raw[i]))
  }

  /** A stable insertion by priority. */
  function Place(m: Member, sorted: seq<Member>): seq<Member> {
    if sorted == [] || sorted[|sorted| - 1].priority <= m.priority then sorted + [m]
    else Place(m, sorted[..|sorted| - 1]) + [sorted[|sorted| - 1]]
  }

  /** `sort_by_key(priority)` */
  function ByPriority(ms: seq<Member>): seq<Member> {
    if ms == [] then [] else Place(ms[|ms| - 1], ByPriority(ms[..|ms| - 1]))
  }

  predicate Sorted(ms: seq<Member>) {
    forall i, j :: 0 <= i < j < |ms| ==> ms[i].priority <= ms[j].priority
  }

  lemma {:induction false} PlaceSorts(m: Member, sorted: seq<Member>)
    requires Sorted(sorted)
    ensures Sorted(Place(m, sorted)) && multiset(Place(m, sorted)) == multiset(sorted) + multiset{m}
    ensures forall x :: x in Place(m, sorted) ==> x == m || x in sorted
  {
    if sorted != [] {
      var front, last := sorted[..|sorted| - 1], sorted[|sorted| - 1];
      assert sorted == front + [last];
      if last.priority > m.priority {
        PlaceSorts(m, front);
        forall x | x in Place(m, front) ensures x.priority <= last.priority {
          if x != m { var i :| 0 <= i < |front| && front[i] == x; }
        }
      }
    }
  }

  /** The try order: the same members, by ascending priority. */
  lemma {:induction false} ByPrioritySorts(ms: seq<Member>)
    ensures Sorted(ByPriority(ms)) && multiset(ByPriority(ms)) == multiset(ms)
  {
    if ms != [] {
      assert ms == ms[..|ms| - 1] + [ms[|ms| - 1]];
      ByPrioritySorts(ms[..|ms| - 1]);
      PlaceSorts(ms[|ms| - 1], ByPriority(ms[..|ms| - 1]));
    }
  }

  /** These are the first `i` elements, all distinct. */
  ghost predicate SeenTo<T(!new)>(xs: seq<T>, i: nat, seen: set<T>)
    requires i <= |xs|
  {
    AllDistinct(xs[..i]) && forall x :: x in seen <==> x in xs[..i]
  }

  lemma SeenStep<T(!new)>(xs: seq<T>, i: nat, seen: set<T>)
    requires i < |xs| && SeenTo(xs, i, seen) && xs[i] !in seen
    ensures SeenTo(xs, i + 1, seen + {xs[i]})
  {
    DistinctSnoc(xs, i);
    assert xs[..i + 1] == xs[..i] + [xs[i]];
  }

  /** The first members compile, with distinct ids and priorities. */
  ghost predicate CompiledTo(raw: seq<RawMember>, i: nat, ids: set<Bytes>, priorities: set<nat>, members: seq<Member>)
    requires i <= |raw|
  {
    && (forall k :: 0 <= k < i ==> MemberOk(raw[k])) && members == Members(raw[..i])
    && SeenTo(Ids(raw), i, ids) && SeenTo(Priorities(raw), i, priorities)
  }

  lemma MembersSnoc(raw: seq<RawMember>, i: nat)
    requires i < |raw| && forall k :: 0 <= k <= i ==> MemberOk(raw[k])
    ensures Members(raw[..i + 1]) == Members(raw[..i]) + [MemberOf(raw[i])]
  {
  }

  lemma CompiledStep(raw: seq<RawMember>, i: nat, ids: set<Bytes>, priorities: set<nat>, members: seq<Member>,
                     id: Bytes)
    requires i < |raw| && CompiledTo(raw, i, ids, priorities, members) && id == Trim(raw[i].id)
    requires MemberOk(raw[i]) && id !in ids && raw[i].priority !in priorities
    ensures CompiledTo(raw, i + 1, ids + {id}, priorities + {raw[i].priority}, members + [MemberOf(raw[i])])
  {
    SeenStep(Ids(raw), i, ids);
    SeenStep(Priorities(raw), i, priorities);
    MembersSnoc(raw, i);
  }

  lemma NotDistinct(raw: seq<RawMember>, i: nat, id: Bytes)
    requires i < |raw| && id == Trim(raw[i].id) && (id in Ids(raw)[..i] || raw[i].priority in Priorities(raw)[..i])
    ensures !(AllDistinct(Ids(raw)) && AllDistinct(Priorities(raw)))
  {
    DistinctSnoc(Ids(raw), i);
    DistinctSnoc(Priorities(raw), i);
  }

  /** `compile_chain` */
  method CompileChain(id: Bytes, raw: seq<RawMember>) returns (r: Option<Chain>)
    ensures r.Some? <==> ChainOk(id, raw)
    ensures r.Some? ==> r.value == Chain(id, ByPriority(Members(raw)))
  {
    r := None;
    if Trim(id) == [] || raw == [] || |raw| > MAX_CHAIN_MEMBERS { return; }
    var ids: set<Bytes>, priorities: set<nat>, members: seq<Member> := {}, {}, [];
    for i := 0 to |raw|
      invariant CompiledTo(raw, i, ids, priorities, members)
    {
      var memberId := Trim(raw[i].id);
      if memberId in ids || raw[i].priority in priorities {
        NotDistinct(raw, i, memberId);
        return;
      }
      var member := CompileMember(raw[i], memberId);
      if member.None? { return; }
      CompiledStep(raw, i, ids, priorities, members, memberId);
      ids, priorities, members := ids + {memberId}, priorities + {raw[i].priority}, members + [member.value];
    }
    assert raw[..|raw|] == raw && Ids(raw)[..|raw|] == Ids(raw) && Priorities(raw)[..|raw|] == Priorities(raw);
    r := Some(Chain(id, ByPriority(members)));
  }

  method CompileMember(m: RawMember, id: Bytes) returns (r: Option<Member>)
    requires id == Trim(m.id)
    ensures r.Some? <==> MemberOk(m)
    ensures r.Some? ==> r.value == MemberOf(m)
  {
    if id == [] { return None; }
    if Lower(m.backend.kind) == CHAIN {
      ChainIsNoUpstream(m.backend);
      return None;
    }
    var upstream := CompileUpstream(m.backend);
    r := if upstream.Some? then Some(Member(id, m.priority, upstream.value)) else None;
  }

  // ----- egresses

  datatype RawEgress = Single(backend: RawUpstream) | Failover(raw: seq<RawMember>)

  datatype Route = ToUpstream(upstream: Upstream) | ToChain(chain: Chain)

  datatype Egress = Egress(id: Bytes, route: Route)

  predicate EgressOk(id: Bytes, raw: RawEgress) {
    match raw
    case Single(backend) => CompileUpstream(backend).Some?
    case Failover(members) => ChainOk(id, members)
  }

  function EgressOf(id: Bytes, raw: RawEgress): Egress
    requires EgressOk(id, raw)
  {
    match raw
    case Single(backend) => Egress(id, ToUpstream(CompileUpstream(backend).value))
    case Failover(members) => Egress(id, ToChain(Chain(id, ByPriority(Members(members)))))
  }

  /** `compile_egress` */
  method CompileEgress(id: Bytes, raw: RawEgress) returns (r: Option<Egress>)
    ensures r.Some? <==> EgressOk(id, raw)
    ensures r.Some? ==> r.value == EgressOf(id, raw)
  {
    match raw {
      case Single(backend) =>
        if Lower(backend.kind) == CHAIN {
          ChainIsNoUpstream(backend);
          return None;
        }
        var u := CompileUpstream(backend);
        r := if u.Some? then Some(Egress(id, ToUpstream(u.value))) else None;
      case Failover(members) =>
        var c := CompileChain(id, members);
        r := if c.Some? then Some(Egress(id, ToChain(c.value))) else None;
    }
  }
}
