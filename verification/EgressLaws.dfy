/** What a compiled egress carries, said of the raw egress it came from. */
module EgressLaws {
  import opened Wrappers
  import opened Text
  import opened Spelling
  import opened Egresses

  /** The kind is this name in whatever case. */
  predicate Named(u: RawUpstream, name: string)
    requires forall i :: 0 <= i < |name| ==> name[i] < 128 as char
  {
    SameSpelling(u.kind, Ascii(name))
  }

  predicate SameAccess(u: RawUpstream, v: Upstream) {
    && v.addr == u.addr && v.username == u.username && v.password == u.password
    && v.tls == u.tls && v.skipVerify == u.skipVerify
  }

  /** No credentials and no TLS, neither asked for nor given. */
  predicate NoAccess(u: RawUpstream, v: Upstream) {
    && u.username == None && u.password == None && !u.tls && !u.skipVerify
    && v.username == None && v.password == None && !v.tls && !v.skipVerify
  }

  /** The compiled upstream is that of the raw one. */
  predicate UpstreamIs(u: RawUpstream, v: Upstream) {
    match v.kind
    case HttpProxy => (Named(u, "http") || Named(u, "https")) && SameAccess(u, v)
    case Socks5 => (Named(u, "socks5") || Named(u, "socks")) && SameAccess(u, v)
    case Reverse => Named(u, "reverse") && NoAccess(u, v) && v.addr == Trim(u.addr) && v.addr != []
    case Subnetra => Named(u, "subnetra") && NoAccess(u, v) && v.addr == u.addr
  }

  lemma NamedIff(u: RawUpstream, name: string, lower: Bytes)
    requires forall i :: 0 <= i < |name| ==> 'a' <= name[i] <= 'z' || '0' <= name[i] <= '9'
    requires lower == Ascii(name)
    ensures Named(u, name) <==> Lower(u.kind) == lower
  {
    LowerIff(u.kind, lower);
    forall i | 0 <= i < |lower| ensures Lower(lower)[i] == lower[i] { LowerIs(lower, i); }
    assert Lower(lower) == lower;
  }

  lemma Names(u: RawUpstream)
    ensures Named(u, "http") <==> Lower(u.kind) == HTTP
    ensures Named(u, "https") <==> Lower(u.kind) == HTTPS
    ensures Named(u, "socks5") <==> Lower(u.kind) == SOCKS5
    ensures Named(u, "socks") <==> Lower(u.kind) == SOCKS
    ensures Named(u, "reverse") <==> Lower(u.kind) == REVERSE
    ensures Named(u, "subnetra") <==> Lower(u.kind) == SUBNETRA
  {
    NamedIff(u, "http", HTTP);
    NamedIff(u, "https", HTTPS);
    NamedIff(u, "socks5", SOCKS5);
    NamedIff(u, "socks", SOCKS);
    NamedIff(u, "reverse", REVERSE);
    NamedIff(u, "subnetra", SUBNETRA);
  }

  lemma KindIff(u: RawUpstream)
    ensures KindOf(u.kind) == Some(HttpProxy) <==> Named(u, "http") || Named(u, "https")
    ensures KindOf(u.kind) == Some(Socks5) <==> Named(u, "socks5") || Named(u, "socks")
    ensures KindOf(u.kind) == Some(Reverse) <==> Named(u, "reverse")
    ensures KindOf(u.kind) == Some(Subnetra) <==> Named(u, "subnetra")
  {
    Names(u);
    assert HTTP[0] == 104 && HTTPS[0] == 104 && SOCKS5[1] == 111 && SOCKS[1] == 111 && REVERSE[0] == 114
        && SUBNETRA[1] == 117;
  }

  /** A raw upstream compiles to exactly this. */
  lemma UpstreamIff(u: RawUpstream, v: Upstream)
    ensures CompileUpstream(u) == Some(v) <==> UpstreamIs(u, v)
  {
    KindIff(u);
  }

  /** No upstream: an unknown kind, a reverse hop without an id, or credentials or TLS
      where there is no use for them. */
  lemma UpstreamRefusedIff(u: RawUpstream)
    ensures CompileUpstream(u) == None <==>
            || !(Named(u, "http") || Named(u, "https") || Named(u, "socks5") || Named(u, "socks") ||
                 Named(u, "reverse") || Named(u, "subnetra"))
            || (Named(u, "reverse") && Trim(u.addr) == [])
            || ((Named(u, "reverse") || Named(u, "subnetra")) &&
                (u.username.Some? || u.password.Some? || u.tls || u.skipVerify))
  {
    KindIff(u);
  }

  // ----- chains

  /** The member is that of the raw one. */
  predicate MemberIs(raw: RawMember, m: Member) {
    m.id == Trim(raw.id) && m.id != [] && m.priority == raw.priority && UpstreamIs(raw.backend, m.upstream)
  }

  /** There is a member that this one compiles to. */
  ghost predicate CanBe(raw: RawMember) {
    exists m :: MemberIs(raw, m)
  }

  /** The members are those of the raw list, each once, the lowest priority first. */
  ghost predicate InTryOrder(raw: seq<RawMember>, ms: seq<Member>, from: (RawMember, Member) -> bool) {
    && |ms| == |raw| && (forall i, j :: 0 <= i < j < |ms| ==> ms[i].priority < ms[j].priority)
    && (forall i :: 0 <= i < |raw| ==> exists m :: m in ms && from(raw[i], m))
    && forall m :: m in ms ==> exists i :: 0 <= i < |raw| && from(raw[i], m)
  }

  ghost predicate ChainIs(id: Bytes, raw: seq<RawMember>, c: Chain) {
    c.id == id && InTryOrder(raw, c.members, MemberIs)
  }

  lemma MemberOfIs(raw: RawMember)
    requires MemberOk(raw)
    ensures MemberIs(raw, MemberOf(raw))
  {
    UpstreamIff(raw.backend, MemberOf(raw).upstream);
  }

  lemma TwiceIn(ms: seq<Member>, i: nat, j: nat)
    requires i < j < |ms| && ms[i] == ms[j]
    ensures multiset(ms)[ms[i]] >= 2
  {
    assert ms == ms[..j] + [ms[j]] + ms[j + 1..];
    assert ms[..j][i] == ms[i] && ms[i] in multiset(ms[..j]);
  }

  lemma OtherPlace(ms: seq<Member>, x: nat) returns (z: nat)
    requires x < |ms| && multiset(ms)[ms[x]] >= 2
    ensures z < |ms| && z != x && ms[z] == ms[x]
  {
    var m := ms[x];
    assert ms == ms[..x] + [m] + ms[x + 1..];
    assert multiset(ms) == multiset(ms[..x]) + multiset{m} + multiset(ms[x + 1..]);
    if m in multiset(ms[..x]) {
      z :| 0 <= z < x && ms[..x][z] == m;
    } else {
      assert m in multiset(ms[x + 1..]);
      var y :| 0 <= y < |ms[x + 1..]| && ms[x + 1..][y] == m;
      z := x + 1 + y;
    }
  }

  ghost predicate PrioritiesDiffer(ms: seq<Member>) {
    forall i, j :: 0 <= i < j < |ms| ==> ms[i].priority != ms[j].priority
  }

  lemma PlaceOf(all: seq<Member>, ms: seq<Member>, i: nat) returns (x: nat)
    requires multiset(ms) == multiset(all) && i < |ms|
    ensures x < |all| && all[x] == ms[i]
  {
    assert ms[i] in multiset(ms) && ms[i] in multiset(all);
    x :| 0 <= x < |all| && all[x] == ms[i];
  }

  lemma StaysDifferent(all: seq<Member>, ms: seq<Member>, i: nat, j: nat)
    requires multiset(ms) == multiset(all) && PrioritiesDiffer(all) && i < j < |ms|
    ensures ms[i].priority != ms[j].priority
  {
    var x := PlaceOf(all, ms, i);
    var y := PlaceOf(all, ms, j);
    if x == y {
      TwiceIn(ms, i, j);
      var z := OtherPlace(all, x);
    }
  }

  /** Sorting by distinct priorities keeps every member, in order. */
  lemma Ordered(raw: seq<RawMember>, all: seq<Member>, ms: seq<Member>, from: (RawMember, Member) -> bool)
    requires |all| == |raw| && PrioritiesDiffer(all) && Sorted(ms) && multiset(ms) == multiset(all)
    requires forall i :: 0 <= i < |raw| ==> from(raw[i], all[i])
    ensures InTryOrder(raw, ms, from)
  {
    assert |multiset(ms)| == |ms| && |multiset(all)| == |all|;
    forall i, j | 0 <= i < j < |ms| ensures ms[i].priority < ms[j].priority { StaysDifferent(all, ms, i, j); }
    forall i | 0 <= i < |raw| ensures exists m :: m in ms && from(raw[i], m) {
      var k := PlaceOf(ms, all, i);
      assert ms[k] in ms;
    }
    forall m | m in ms ensures exists i :: 0 <= i < |raw| && from(raw[i], m) {
      var k :| 0 <= k < |ms| && ms[k] == m;
      var x := PlaceOf(all, ms, k);
    }
  }

  lemma MembersDiffer(raw: seq<RawMember>, all: seq<Member>)
    requires AllDistinct(Priorities(raw)) && |all| == |raw|
    requires forall i :: 0 <= i < |raw| ==> all[i].priority == raw[i].priority
    ensures PrioritiesDiffer(all)
  {
    forall i, j | 0 <= i < j < |all| ensures all[i].priority != all[j].priority {
      assert Priorities(raw)[i] != Priorities(raw)[j];
    }
  }

  lemma ChainOfIs(id: Bytes, raw: seq<RawMember>)
    requires ChainOk(id, raw)
    ensures ChainIs(id, raw, Chain(id, ByPriority(Members(raw))))
  {
    var all := Members(raw);
    ByPrioritySorts(all);
    forall i | 0 <= i < |raw| ensures MemberIs(raw[i], all[i]) && all[i].priority == raw[i].priority {
      MemberOfIs(raw[i]);
    }
    MembersDiffer(raw, all);
    Ordered(raw, all, ByPriority(all), MemberIs);
  }

  /** A chain compiles exactly with an id and one to sixteen members that have ids and
      compile, no two with the same id or priority. */
  lemma ChainOkIff(id: Bytes, raw: seq<RawMember>)
    ensures ChainOk(id, raw) <==>
            && Trim(id) != [] && 1 <= |raw| <= 16
            && (forall i :: 0 <= i < |raw| ==> CanBe(raw[i]))
            && forall i, j :: 0 <= i < j < |raw| ==>
                 Trim(raw[i].id) != Trim(raw[j].id) && raw[i].priority != raw[j].priority
  {
    forall i | 0 <= i < |raw| ensures MemberOk(raw[i]) <==> CanBe(raw[i]) { CanBeIff(raw[i]); }
    DistinctIff(raw);
  }

  lemma CanBeIff(raw: RawMember)
    ensures MemberOk(raw) <==> CanBe(raw)
  {
    if MemberOk(raw) { MemberOfIs(raw); }
    if m :| MemberIs(raw, m) { UpstreamIff(raw.backend, m.upstream); }
  }

  lemma DistinctIff(raw: seq<RawMember>)
    ensures AllDistinct(Ids(raw)) && AllDistinct(Priorities(raw)) <==>
            forall i, j :: 0 <= i < j < |raw| ==>
              Trim(raw[i].id) != Trim(raw[j].id) && raw[i].priority != raw[j].priority
  {
    var ids, ps := Ids(raw), Priorities(raw);
    if AllDistinct(ids) && AllDistinct(ps) {
      forall i, j | 0 <= i < j < |raw|
        ensures Trim(raw[i].id) != Trim(raw[j].id) && raw[i].priority != raw[j].priority
      {
        assert ids[i] != ids[j] && ps[i] != ps[j];
      }
    }
  }

  // ----- egresses

  /** The compiled egress is that of the raw one. */
  ghost predicate EgressIs(id: Bytes, raw: RawEgress, e: Egress) {
    && e.id == id
    && match raw
       case Single(u) => e.route.ToUpstream? && UpstreamIs(u, e.route.upstream)
       case Failover(ms) => e.route.ToChain? && ChainIs(id, ms, e.route.chain)
  }

  /** Whatever an egress compiles to carries what the raw egress says. */
  lemma EgressOfIs(id: Bytes, raw: RawEgress)
    requires EgressOk(id, raw)
    ensures EgressIs(id, raw, EgressOf(id, raw))
  {
    match raw
    case Single(u) => UpstreamIff(u, CompileUpstream(u).value);
    case Failover(ms) => ChainOfIs(id, ms);
  }
}
