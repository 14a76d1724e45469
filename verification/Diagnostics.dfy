/** The registry of short-lived diagnostic sessions, as a state machine over its
    calls. Clock readings and the event channel's answers are parameters. */
module Diagnostics {
  import opened Wrappers
  import opened Text
  import Orders

  datatype EventType = Auth | Policy | Limit | Outbound | Splice | Summary

  datatype Stage =
    | AuthStage | PolicyStage | LimitStage
    | OutboundStage | DnsStage | DialStage | TlsStage | ChainExhausted | ReverseLookup | ReverseOpen | HopConnect
    | SpliceStage | StreamIo | OtherStage

  /** A completed connection attempt. */
  datatype Candidate = Candidate(
    username: Option<Bytes>, host: Option<Bytes>, port: Option<nat>, protocol: Bytes, listener: Bytes,
    stage: Option<Stage>, ok: bool)

  function EventOf(c: Candidate): Option<EventType> {
    match c.stage
    case Some(AuthStage) => Some(Auth)
    case Some(PolicyStage) => Some(Policy)
    case Some(LimitStage) => Some(Limit)
    case Some(SpliceStage) => Some(Splice)
    case Some(StreamIo) => Some(Splice)
    case Some(OtherStage) => None
    case Some(_) => Some(Outbound)
    case None => if c.ok then Some(Splice) else None
  }

  datatype Spec = Spec(
    id: Bytes, username: Bytes, host: Option<Bytes>, port: Option<nat>, protocol: Option<Bytes>,
    listener: Option<Bytes>, types: set<EventType>, ttl: nat)

  /** An armed session: its filters, its deadline and its counters. */
  datatype Session = Session(spec: Spec, expires: nat, matched: nat, dropped: nat)

  datatype Limits = Limits(maxSessions: nat, maxPerUser: nat)

  type Sessions = map<Bytes, Session>

  /** `optional_eq`: no expectation, or equal up to ASCII case. */
  predicate OptionalEq(expected: Option<Bytes>, actual: Option<Bytes>) {
    expected.Some? ==> actual.Some? && Lower(actual.value) == Lower(expected.value)
  }

  predicate Matches(spec: Spec, c: Candidate) {
    && OptionalEq(Some(spec.username), c.username)
    && OptionalEq(spec.host, c.host)
    && (spec.port.Some? ==> spec.port == c.port)
    && OptionalEq(spec.protocol, Some(c.protocol))
    && OptionalEq(spec.listener, Some(c.listener))
  }

  /** The session wants events of this kind; summaries are not per connection. */
  predicate Wants(spec: Spec, e: EventType) {
    e in spec.types && e != Summary
  }

  /** A record that the session counts. */
  predicate Qualifies(spec: Spec, expires: nat, c: Candidate, now: nat) {
    EventOf(c).Some? && now < expires && Matches(spec, c) && Wants(spec, EventOf(c).value)
  }

  // ----- the state machine

  /** `sent(id)` says whether the channel takes the event for session `id`. */
  datatype Op =
    | Start(spec: Spec, now: nat)
    | Cancel(id: Bytes)
    | Record(c: Candidate, now: nat, sent: Bytes -> bool)
    | Sweep(now: nat)

  /** Sessions whose deadline is past. */
  function Expired(s: Sessions, now: nat): set<Bytes> {
    set id | id in s && s[id].expires <= now
  }

  function UserSessions(s: Sessions, user: Bytes): set<Bytes> {
    set id | id in s && s[id].spec.username == user
  }

  /** Does `start` arm the session, once the expired are gone? */
  predicate Admits(s: Sessions, l: Limits, spec: Spec) {
    spec.id in s || (|s| < l.maxSessions && |UserSessions(s, spec.username)| < l.maxPerUser)
  }

  function Count(x: Session, c: Candidate, now: nat, sent: bool): Session {
    if !Qualifies(x.spec, x.expires, c, now) then x
    else if sent then x.(matched := x.matched + 1)
    else x.(dropped := x.dropped + 1)
  }

  function Apply(s: Sessions, l: Limits, op: Op): Sessions {
    match op
    case Start(spec, now) =>
      var live := s - Expired(s, now);
      if Admits(live, l, spec) then live[spec.id := Session(spec, now + spec.ttl, 0, 0)] else live
    case Cancel(id) => s - {id}
    case Record(c, now, sent) => map id | id in s :: Count(s[id], c, now, sent(id))
    case Sweep(now) => s - Expired(s, now)
  }

  function Run(l: Limits, ops: seq<Op>): Sessions {
    if ops == [] then map[] else Apply(Run(l, ops[..|ops| - 1]), l, ops[|ops| - 1])
  }

  // ----- the caps

  lemma SmallerMap<K, V>(a: map<K, V>, b: map<K, V>)
    requires a.Keys <= b.Keys
    ensures |a| <= |b|
  {
    assert |a| == |a.Keys| && |b| == |b.Keys|;
    Orders.SmallerSet(a.Keys, b.Keys);
  }

  lemma ApplyKeepsCap(s: Sessions, l: Limits, op: Op)
    requires |s| <= l.maxSessions
    ensures |Apply(s, l, op)| <= l.maxSessions
  {
    var t := Apply(s, l, op);
    match op
    case Start(spec, now) =>
      var live := s - Expired(s, now);
      SmallerMap(live, s);
      if Admits(live, l, spec) { assert t.Keys == live.Keys + {spec.id}; }
    case Cancel(id) => SmallerMap(t, s);
    case Record(c, now, sent) => SmallerMap(t, s);
    case Sweep(now) => SmallerMap(t, s);
  }

  /** Over every run the registry holds at most `max_sessions`. */
  lemma {:induction false} SessionCap(l: Limits, ops: seq<Op>)
    ensures |Run(l, ops)| <= l.maxSessions
  {
    if ops != [] {
      SessionCap(l, ops[..|ops| - 1]);
      ApplyKeepsCap(Run(l, ops[..|ops| - 1]), l, ops[|ops| - 1]);
    }
  }

  ghost predicate UserCap(s: Sessions, l: Limits) {
    forall user :: |UserSessions(s, user)| <= l.maxPerUser
  }

  /** A live session re-armed under the name of a user who has no room left. */
  predicate Overfills(s: Sessions, l: Limits, op: Op) {
    op.Start? &&
    var live := s - Expired(s, op.now);
    && op.spec.id in live && live[op.spec.id].spec.username != op.spec.username
    && |UserSessions(live, op.spec.username)| >= l.maxPerUser
  }

  lemma FewerKeepCap(s: Sessions, t: Sessions, l: Limits)
    requires UserCap(s, l) && t.Keys <= s.Keys && forall id :: id in t ==> t[id].spec == s[id].spec
    ensures UserCap(t, l)
  {
    forall user ensures |UserSessions(t, user)| <= l.maxPerUser {
      Orders.SmallerSet(UserSessions(t, user), UserSessions(s, user));
    }
  }

  lemma ArmUsers(live: Sessions, l: Limits, spec: Spec, x: Session)
    requires UserCap(live, l) && x.spec == spec
    ensures UserCap(live[spec.id := x], l) <==>
            spec.id in UserSessions(live, spec.username) || |UserSessions(live, spec.username)| < l.maxPerUser
  {
    var t := live[spec.id := x];
    assert UserSessions(t, spec.username) == UserSessions(live, spec.username) + {spec.id};
    forall user | user != spec.username ensures |UserSessions(t, user)| <= l.maxPerUser {
      Orders.SmallerSet(UserSessions(t, user), UserSessions(live, user));
    }
    if spec.id in UserSessions(live, spec.username) {
      assert UserSessions(t, spec.username) == UserSessions(live, spec.username);
    } else {
      assert |UserSessions(t, spec.username)| == |UserSessions(live, spec.username)| + 1;
    }
  }

  /** A step keeps the per-user cap exactly when it is not such a re-arm. */
  lemma StepUserCap(s: Sessions, l: Limits, op: Op)
    requires UserCap(s, l)
    ensures UserCap(Apply(s, l, op), l) <==> !Overfills(s, l, op)
  {
    match op
    case Start(spec, now) =>
      var live := s - Expired(s, now);
      FewerKeepCap(s, live, l);
      if Admits(live, l, spec) { ArmUsers(live, l, spec, Session(spec, now + spec.ttl, 0, 0)); }
    case _ => FewerKeepCap(s, Apply(s, l, op), l);
  }

  ghost predicate CapAt(l: Limits, ops: seq<Op>, i: nat)
    requires i <= |ops|
  {
    UserCap(Run(l, ops[..i]), l)
  }

  predicate OverfillsAt(l: Limits, ops: seq<Op>, i: nat)
    requires i < |ops|
  {
    Overfills(Run(l, ops[..i]), l, ops[i])
  }

  lemma CapStep(l: Limits, ops: seq<Op>, i: nat)
    requires i < |ops| && CapAt(l, ops, i)
    ensures CapAt(l, ops, i + 1) <==> !OverfillsAt(l, ops, i)
  {
    assert ops[..i + 1][..i] == ops[..i];
    StepUserCap(Run(l, ops[..i]), l, ops[i]);
  }

  lemma {:induction false} CapUpTo(l: Limits, ops: seq<Op>, i: nat)
    requires i <= |ops| && forall j :: 0 <= j < i ==> !OverfillsAt(l, ops, j)
    ensures CapAt(l, ops, i)
  {
    if i == 0 {
      forall user ensures UserSessions(map[], user) == {} {}
    } else {
      CapUpTo(l, ops, i - 1);
      CapStep(l, ops, i - 1);
    }
  }

  /** Over every run: the cap holds throughout exactly when no step re-arms a live
      session under a full user's name. */
  lemma UserCapIff(l: Limits, ops: seq<Op>)
    ensures (forall i :: 0 <= i <= |ops| ==> CapAt(l, ops, i)) <==>
            (forall i :: 0 <= i < |ops| ==> !OverfillsAt(l, ops, i))
  {
    if forall i :: 0 <= i <= |ops| ==> CapAt(l, ops, i) {
      forall i | 0 <= i < |ops| ensures !OverfillsAt(l, ops, i) {
        assert CapAt(l, ops, i + 1);
        CapStep(l, ops, i);
      }
    }
    if forall i :: 0 <= i < |ops| ==> !OverfillsAt(l, ops, i) {
      forall i | 0 <= i <= |ops| ensures CapAt(l, ops, i) { CapUpTo(l, ops, i); }
    }
  }

  lemma FreshArm(s: Sessions, l: Limits, spec: Spec)
    requires (forall id :: id in s ==> s[id].expires > 0 && s[id].spec.username != spec.username)
    requires spec.id !in s && |s| < l.maxSessions && l.maxPerUser > 0
    ensures Apply(s, l, Start(spec, 0)) == s[spec.id := Session(spec, spec.ttl, 0, 0)]
  {
    assert Expired(s, 0) == {} && s - {} == s;
    assert UserSessions(s, spec.username) == {};
  }

  lemma Rearm(s: Sessions, l: Limits, spec: Spec)
    requires (forall id :: id in s ==> s[id].expires > 0) && spec.id in s
    ensures Apply(s, l, Start(spec, 0)) == s[spec.id := Session(spec, spec.ttl, 0, 0)]
  {
    assert Expired(s, 0) == {} && s - {} == s;
  }

  lemma RunSnoc(l: Limits, ops: seq<Op>, op: Op)
    ensures Run(l, ops + [op]) == Apply(Run(l, ops), l, op)
  {
    assert (ops + [op])[..|ops|] == ops;
  }

  lemma TwoArmed(l: Limits, a: Spec, b: Spec)
    requires l.maxSessions >= 2 && l.maxPerUser == 1 && a.ttl > 0 && b.ttl > 0
    requires a.id != b.id && a.username != b.username
    ensures Run(l, [Start(a, 0), Start(b, 0)]) == map[a.id := Session(a, a.ttl, 0, 0), b.id := Session(b, b.ttl, 0, 0)]
  {
    var none: Sessions, one: Sessions := map[], map[a.id := Session(a, a.ttl, 0, 0)];
    FreshArm(none, l, a);
    FreshArm(one, l, b);
    RunSnoc(l, [], Start(a, 0));
    RunSnoc(l, [Start(a, 0)], Start(b, 0));
    assert [] + [Start(a, 0)] == [Start(a, 0)] && [Start(a, 0)] + [Start(b, 0)] == [Start(a, 0), Start(b, 0)];
  }

  lemma BothTheirs(s: Sessions, l: Limits, x: Bytes, y: Bytes, user: Bytes)
    requires x != y && x in s && y in s && s[x].spec.username == user == s[y].spec.username && l.maxPerUser == 1
    ensures !UserCap(s, l)
  {
    Orders.SmallerSet({x, y}, UserSessions(s, user));
  }

  /** Two users with one session each and no room for more: arming the first's
      session again under the second's name gives the second two. */
  lemma RearmBreaksUserCap(l: Limits, a: Spec, b: Spec, c: Spec)
    requires l.maxSessions >= 2 && l.maxPerUser == 1 && a.ttl > 0 && b.ttl > 0
    requires a.id != b.id && a.username != b.username && c.id == a.id && c.username == b.username
    ensures !UserCap(Run(l, [Start(a, 0), Start(b, 0)] + [Start(c, 0)]), l)
  {
    var two: Sessions := map[a.id := Session(a, a.ttl, 0, 0), b.id := Session(b, b.ttl, 0, 0)];
    var ops := [Start(a, 0), Start(b, 0)];
    assert Run(l, ops) == two by { TwoArmed(l, a, b); }
    RunSnoc(l, ops, Start(c, 0));
    Rearm(two, l, c);
    BothTheirs(two[c.id := Session(c, c.ttl, 0, 0)], l, a.id, b.id, b.username);
  }

  // ----- accounting

  /** Call `i` of the run arms session `id`. */
  predicate Arms(l: Limits, ops: seq<Op>, i: nat, id: Bytes)
    requires i < |ops|
  {
    var s := Run(l, ops[..i]);
    ops[i].Start? && ops[i].spec.id == id && Admits(s - Expired(s, ops[i].now), l, ops[i].spec)
  }

  predicate Counts(op: Op, spec: Spec, expires: nat, id: Bytes, sent: bool) {
    op.Record? && Qualifies(spec, expires, op.c, op.now) && op.sent(id) == sent
  }

  /** How many of calls `from .. to` are records the session counts as (not) sent. */
  function Tally(ops: seq<Op>, from: nat, to: nat, spec: Spec, expires: nat, id: Bytes, sent: bool): nat
    requires from <= to <= |ops|
  {
    if from == to then 0
    else
      Tally(ops, from, to - 1, spec, expires, id, sent) +
      if Counts(ops[to - 1], spec, expires, id, sent) then 1 else 0
  }

  lemma {:induction false} TallyOfLonger(ops: seq<Op>, n: nat, from: nat, to: nat, spec: Spec, expires: nat, id: Bytes,
                                         sent: bool)
    requires from <= to <= n <= |ops|
    ensures Tally(ops[..n], from, to, spec, expires, id, sent) == Tally(ops, from, to, spec, expires, id, sent)
  {
    if from < to { TallyOfLonger(ops, n, from, to - 1, spec, expires, id, sent); }
  }

  ghost function ArmsOf(l: Limits, ops: seq<Op>, id: Bytes): nat -> bool {
    (j: nat) => j < |ops| && Arms(l, ops, j, id)
  }

  /** `i` is the last below `n` with the property. */
  ghost predicate LastOf(n: nat, i: nat, p: nat -> bool) {
    i < n && p(i) && forall j: nat :: i < j < n ==> !p(j)
  }

  /** Call `i` is the last to arm the session. */
  ghost predicate LastArm(l: Limits, ops: seq<Op>, id: Bytes, i: nat) {
    LastOf(|ops|, i, ArmsOf(l, ops, id))
  }

  /** Session `x` is what call `i` armed, with everything recorded since. */
  ghost predicate Accounts(ops: seq<Op>, id: Bytes, x: Session, i: nat) {
    && i < |ops| && ops[i].Start?
    && x.spec == ops[i].spec && x.expires == ops[i].now + ops[i].spec.ttl
    && x.matched == Tally(ops, i + 1, |ops|, x.spec, x.expires, id, true)
    && x.dropped == Tally(ops, i + 1, |ops|, x.spec, x.expires, id, false)
  }

  lemma LastOfMore(n: nat, i: nat, p: nat -> bool, q: nat -> bool)
    requires LastOf(n, i, p) && (forall j: nat :: j < n ==> (p(j) <==> q(j))) && !q(n)
    ensures LastOf(n + 1, i, q)
  {
  }

  lemma ArmsSame(l: Limits, ops: seq<Op>, n: nat, id: Bytes, p: nat -> bool, q: nat -> bool)
    requires n <= |ops| && p == ArmsOf(l, ops[..n], id) && q == ArmsOf(l, ops, id)
    ensures forall j: nat :: j < n ==> (p(j) <==> q(j))
  {
    forall j: nat | j < n ensures p(j) <==> q(j) { ArmsOfLonger(l, ops, n, j, id); }
  }

  lemma LastArmStep(l: Limits, ops: seq<Op>, n: nat, id: Bytes, i: nat)
    requires n + 1 == |ops| && LastArm(l, ops[..n], id, i) && !Arms(l, ops, n, id)
    ensures LastArm(l, ops, id, i)
  {
    var p, q := ArmsOf(l, ops[..n], id), ArmsOf(l, ops, id);
    ArmsSame(l, ops, n, id, p, q);
    LastOfMore(n, i, p, q);
  }

  lemma ArmsOfLonger(l: Limits, ops: seq<Op>, n: nat, j: nat, id: Bytes)
    requires j < n <= |ops|
    ensures Arms(l, ops[..n], j, id) <==> Arms(l, ops, j, id)
  {
    assert ops[..n][..j] == ops[..j];
  }

  lemma AccountsStep(ops: seq<Op>, id: Bytes, x: Session, i: nat)
    requires ops != [] && Accounts(ops[..|ops| - 1], id, x, i)
    ensures var op := ops[|ops| - 1];
            Accounts(ops, id, if op.Record? then Count(x, op.c, op.now, op.sent(id)) else x, i)
  {
    var n := |ops| - 1;
    TallyOfLonger(ops, n, i + 1, n, x.spec, x.expires, id, true);
    TallyOfLonger(ops, n, i + 1, n, x.spec, x.expires, id, false);
  }

  /** Over every run: a live session's counters are exactly the wanted, matching
      records before its deadline since it was last armed. */
  lemma {:induction false} Accounting(l: Limits, ops: seq<Op>, id: Bytes) returns (i: nat)
    requires id in Run(l, ops)
    ensures LastArm(l, ops, id, i) && Accounts(ops, id, Run(l, ops)[id], i)
  {
    var n := |ops| - 1;
    if Arms(l, ops, n, id) {
      i := n;
    } else {
      i := Accounting(l, ops[..n], id);
      LastArmStep(l, ops, n, id, i);
      AccountsStep(ops, id, Run(l, ops[..n])[id], i);
    }
  }

  // ----- summaries

  function One(b: bool): nat {
    if b then 1 else 0
  }

  /** Call `op` on `s` closes session `id` with a summary. */
  predicate Summarizes(s: Sessions, op: Op, id: Bytes) {
    match op
    case Cancel(c) => c == id && id in s
    case Sweep(now) => id in Expired(s, now)
    case _ => false
  }

  /** Call `op` on `s` ends an arm of `id` without one: it had expired when another
      session was started, or it is armed again. */
  predicate Silences(s: Sessions, op: Op, id: Bytes) {
    op.Start? && id in s && (s[id].expires <= op.now || op.spec.id == id)
  }

  function Total(l: Limits, ops: seq<Op>, id: Bytes, f: (Sessions, Op, Bytes) -> bool): nat {
    if ops == [] then 0
    else Total(l, ops[..|ops| - 1], id, f) + One(f(Run(l, ops[..|ops| - 1]), ops[|ops| - 1], id))
  }

  function Armed(l: Limits): (Sessions, Op, Bytes) -> bool {
    (s: Sessions, op: Op, id: Bytes) => op.Start? && op.spec.id == id && Admits(s - Expired(s, op.now), l, op.spec)
  }

  /** Over every run, each arm of a session ends in exactly one way: a summary, in
      silence, or not yet. */
  lemma {:induction false} ArmsAreConserved(l: Limits, ops: seq<Op>, id: Bytes)
    ensures Total(l, ops, id, Armed(l)) ==
            Total(l, ops, id, Summarizes) + Total(l, ops, id, Silences) + One(id in Run(l, ops))
  {
    if ops != [] { ArmsAreConserved(l, ops[..|ops| - 1], id); }
  }

  /** So an arm yields at most one summary. */
  lemma OneSummaryPerArm(l: Limits, ops: seq<Op>, id: Bytes)
    ensures Total(l, ops, id, Summarizes) <= Total(l, ops, id, Armed(l))
  {
    ArmsAreConserved(l, ops, id);
  }

  predicate HappensAt(l: Limits, ops: seq<Op>, i: nat, id: Bytes, f: (Sessions, Op, Bytes) -> bool)
    requires i < |ops|
  {
    f(Run(l, ops[..i]), ops[i], id)
  }

  ghost function Happens(l: Limits, ops: seq<Op>, id: Bytes, f: (Sessions, Op, Bytes) -> bool): nat -> bool {
    (i: nat) => i < |ops| && HappensAt(l, ops, i, id, f)
  }

  function CountTo(n: nat, p: nat -> bool): nat {
    if n == 0 then 0 else CountTo(n - 1, p) + One(p(n - 1))
  }

  lemma {:induction false} CountsNone(n: nat, p: nat -> bool)
    ensures CountTo(n, p) == 0 <==> forall i: nat :: i < n ==> !p(i)
  {
    if n > 0 { CountsNone(n - 1, p); }
  }

  lemma TotalStep(l: Limits, ops: seq<Op>, n: nat, id: Bytes, f: (Sessions, Op, Bytes) -> bool)
    requires n < |ops|
    ensures Total(l, ops[..n + 1], id, f) == Total(l, ops[..n], id, f) + One(HappensAt(l, ops, n, id, f))
  {
    assert ops[..n + 1][..n] == ops[..n];
  }

  lemma {:induction false} TotalCounts(l: Limits, ops: seq<Op>, n: nat, id: Bytes, f: (Sessions, Op, Bytes) -> bool,
                                       p: nat -> bool)
    requires n <= |ops| && p == Happens(l, ops, id, f)
    ensures Total(l, ops[..n], id, f) == CountTo(n, p)
  {
    if n > 0 {
      TotalStep(l, ops, n - 1, id, f);
      TotalCounts(l, ops, n - 1, id, f, p);
    }
  }

  /** Arms of the session that are over. */
  function Ended(l: Limits, ops: seq<Op>, id: Bytes): int {
    Total(l, ops, id, Armed(l)) - One(id in Run(l, ops))
  }

  /** Over every run: every arm that is over had a summary exactly when no start came
      while the session was expired but not yet swept, or armed it again. */
  lemma EverySummaryIff(l: Limits, ops: seq<Op>, id: Bytes)
    ensures Total(l, ops, id, Summarizes) == Ended(l, ops, id) <==>
            forall i: nat :: i < |ops| ==> !Happens(l, ops, id, Silences)(i)
  {
    ArmsAreConserved(l, ops, id);
    assert ops[..|ops|] == ops;
    TotalCounts(l, ops, |ops|, id, Silences, Happens(l, ops, id, Silences));
    CountsNone(|ops|, Happens(l, ops, id, Silences));
  }

  /** For example: a session that has expired when another is started is gone, and no
      call has summarised it. */
  lemma SilentEnd(l: Limits, a: Spec, b: Spec, now: nat)
    requires l.maxSessions >= 1 && l.maxPerUser >= 1 && a.id != b.id && a.ttl <= now
    ensures var ops := [Start(a, 0), Start(b, now)];
            && a.id !in Run(l, ops) && Ended(l, ops, a.id) == 1 && Total(l, ops, a.id, Summarizes) == 0
  {
    var first: seq<Op> := [Start(a, 0)];
    var ops := [Start(a, 0), Start(b, now)];
    assert first == [] + [Start(a, 0)] && ops == first + [Start(b, now)];
    RunSnoc(l, [], Start(a, 0));
    RunSnoc(l, first, Start(b, now));
    assert Admits(map[], l, a);
    assert Run(l, first) == map[a.id := Session(a, a.ttl, 0, 0)];
    assert HappensAt(l, ops, 1, a.id, Silences) by { assert ops[..1] == first; }
    ArmsAreConserved(l, ops, a.id);
    NoSummaries(l, ops, a.id);
    OneArm(l, a, b, now);
  }

  /** Starts alone summarise nothing. */
  lemma {:induction false} NoSummaries(l: Limits, ops: seq<Op>, id: Bytes)
    requires forall i :: 0 <= i < |ops| ==> ops[i].Start?
    ensures Total(l, ops, id, Summarizes) == 0
  {
    if ops != [] { NoSummaries(l, ops[..|ops| - 1], id); }
  }

  lemma OneArm(l: Limits, a: Spec, b: Spec, now: nat)
    requires l.maxSessions >= 1 && l.maxPerUser >= 1 && a.id != b.id
    ensures Total(l, [Start(a, 0), Start(b, now)], a.id, Armed(l)) == 1
  {
    var ops: seq<Op> := [Start(a, 0), Start(b, now)];
    assert ops[..1] == [Start(a, 0)] && ops[..1][..0] == [];
    assert Admits(map[], l, a);
    assert Run(l, []) - Expired(Run(l, []), 0) == map[];
    assert Total(l, ops[..1], a.id, Armed(l)) == 1;
  }

  // ----- the registry

  datatype Rejection = GlobalLimit | UserLimit

  /** How an event type is written. */
  function Token(e: EventType): Bytes {
    match e
    case Auth => [97, 117, 116, 104]
    case Policy => [112, 111, 108, 105, 99, 121]
    case Limit => [108, 105, 109, 105, 116]
    case Outbound => [111, 117, 116, 98, 111, 117, 110, 100]
    case Splice => [115, 112, 108, 105, 99, 101]
    case Summary => [115, 117, 109, 109, 97, 114, 121]
  }

  predicate TokenLess(x: EventType, y: EventType) {
    Less(Token(x), Token(y))
  }

  lemma TokenLeads(e: EventType)
    ensures Token(e)[0] == (match e case Auth => 97 case Policy => 112 case Limit => 108 case Outbound => 111
                                    case Splice => 115 case Summary => 115)
    ensures Token(e)[1] != Token(if e == Splice then Summary else Splice)[1]
  {
  }

  lemma TokensOrdered()
    ensures Orders.TotalOrder(TokenLess)
  {
    LessIsTotalOrder();
    forall x: EventType, y: EventType | Token(x) == Token(y) ensures x == y {
      TokenLeads(x);
      TokenLeads(y);
    }
  }

  const NANOS: nat := 1_000_000_000

  /** Whole seconds of a duration in nanoseconds, at least one. */
  function WholeSeconds(ttl: nat): nat {
    if ttl / NANOS == 0 then 1 else ttl / NANOS
  }

  /** The reply to an arm request. */
  datatype Reply = Accepted(ttlSecs: nat, types: seq<EventType>) | Rejected(why: Rejection)

  class Registry {
    const limits: Limits
    var sessions: Sessions

    constructor (limits: Limits)
      ensures this.limits == limits && sessions == Run(limits, [])
    {
      this.limits, sessions := limits, map[];
    }

    /** Arm or re-arm. The reply lists, in order of their names, the event types that
        the session will want. */
    method StartSession(spec: Spec, now: nat) returns (r: Reply)
      modifies this
      ensures sessions == Apply(old(sessions), limits, Start(spec, now))
      ensures var live := old(sessions) - Expired(old(sessions), now);
              && (r.Accepted? <==> Admits(live, limits, spec))
              && (r == Rejected(GlobalLimit) <==> spec.id !in live && |live| >= limits.maxSessions)
      ensures r.Accepted? ==>
                && r.ttlSecs == WholeSeconds(spec.ttl) && Orders.Increasing(r.types, TokenLess)
                && forall e :: e in r.types <==> Wants(spec, e)
    {
      sessions := sessions - Expired(sessions, now);
      if spec.id !in sessions {
        if |sessions| >= limits.maxSessions { return Rejected(GlobalLimit); }
        if |UserSessions(sessions, spec.username)| >= limits.maxPerUser { return Rejected(UserLimit); }
      }
      sessions := sessions[spec.id := Session(spec, now + spec.ttl, 0, 0)];
      TokensOrdered();
      r := Accepted(WholeSeconds(spec.ttl), Orders.SortedSeq(spec.types - {Summary}, TokenLess));
    }

    /** The closing summary, if the session was armed. */
    method CancelSession(id: Bytes) returns (r: Option<Session>)
      modifies this
      ensures sessions == Apply(old(sessions), limits, Cancel(id))
      ensures r == if Summarizes(old(sessions), Cancel(id), id) then Some(old(sessions)[id]) else None
    {
      r := if id in sessions then Some(sessions[id]) else None;
      sessions := sessions - {id};
    }

    /** Count the record in every session it concerns, in any order. */
    method RecordAttempt(c: Candidate, now: nat, sent: Bytes -> bool)
      modifies this
      ensures sessions == Apply(old(sessions), limits, Record(c, now, sent))
    {
      var event := EventOf(c);
      if event.None? { return; }
      var todo := sessions.Keys;
      while todo != {}
        invariant todo <= sessions.Keys == old(sessions).Keys
        invariant forall id :: id in todo ==> sessions[id] == old(sessions)[id]
        invariant forall id :: id in sessions && id !in todo ==>
                    sessions[id] == Count(old(sessions)[id], c, now, sent(id))
        decreases |todo|
      {
        var id :| id in todo;
        var x := sessions[id];
        if now < x.expires && Matches(x.spec, c) && Wants(x.spec, event.value) {
          x := if sent(id) then x.(matched := x.matched + 1) else x.(dropped := x.dropped + 1);
          sessions := sessions[id := x];
        }
        todo := todo - {id};
      }
    }

    /** Remove the expired and return their summaries, each session's once. */
    method SweepExpired(now: nat) returns (out: map<Bytes, Session>)
      modifies this
      ensures sessions == Apply(old(sessions), limits, Sweep(now))
      ensures forall id :: id in out <==> Summarizes(old(sessions), Sweep(now), id)
      ensures forall id :: id in out ==> id in old(sessions) && out[id] == old(sessions)[id]
    {
      var expired := Expired(sessions, now);
      out := map[];
      var todo := expired;
      while todo != {}
        invariant todo <= expired && sessions == old(sessions) - (expired - todo)
        invariant out.Keys == expired - todo && forall id :: id in out ==> out[id] == old(sessions)[id]
        decreases |todo|
      {
        var id :| id in todo;
        out := out[id := sessions[id]];
        sessions := sessions - {id};
        todo := todo - {id};
      }
    }
  }
}
