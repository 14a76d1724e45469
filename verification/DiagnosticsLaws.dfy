/** What a call does to the diagnostic sessions, said of the session's filters and the
    record's fields, after every run. */
module DiagnosticsLaws {
  import opened Wrappers
  import opened Text
  import opened Spelling
  import opened Diagnostics

  /** The kind of event that a completed attempt is, stage by stage. */
  lemma EventIs(c: Candidate)
    ensures c.stage == Some(AuthStage) ==> EventOf(c) == Some(Auth)
    ensures c.stage == Some(PolicyStage) ==> EventOf(c) == Some(Policy)
    ensures c.stage == Some(LimitStage) ==> EventOf(c) == Some(Limit)
    ensures c.stage == Some(OutboundStage) ==> EventOf(c) == Some(Outbound)
    ensures c.stage == Some(DnsStage) ==> EventOf(c) == Some(Outbound)
    ensures c.stage == Some(DialStage) ==> EventOf(c) == Some(Outbound)
    ensures c.stage == Some(TlsStage) ==> EventOf(c) == Some(Outbound)
    ensures c.stage == Some(ChainExhausted) ==> EventOf(c) == Some(Outbound)
    ensures c.stage == Some(ReverseLookup) ==> EventOf(c) == Some(Outbound)
    ensures c.stage == Some(ReverseOpen) ==> EventOf(c) == Some(Outbound)
    ensures c.stage == Some(HopConnect) ==> EventOf(c) == Some(Outbound)
    ensures c.stage == Some(SpliceStage) ==> EventOf(c) == Some(Splice)
    ensures c.stage == Some(StreamIo) ==> EventOf(c) == Some(Splice)
    ensures c.stage == Some(OtherStage) ==> EventOf(c) == None
    ensures c.stage == None ==> EventOf(c) == if c.ok then Some(Splice) else None
  {
  }

  /** The event is one of the types the session was armed for; summaries are not events. */
  ghost predicate OfType(spec: Spec, c: Candidate) {
    exists e :: EventOf(c) == Some(e) && e in spec.types && e != Summary
  }

  /** The record is of the user, and of the host, port, protocol and listener that the
      session names, names compared letter by letter in whatever case. */
  predicate IsAbout(spec: Spec, c: Candidate) {
    && c.username.Some? && SameSpelling(c.username.value, spec.username)
    && (spec.host.Some? ==> c.host.Some? && SameSpelling(c.host.value, spec.host.value))
    && (spec.port.Some? ==> c.port.Some? && c.port.value == spec.port.value)
    && (spec.protocol.Some? ==> SameSpelling(c.protocol, spec.protocol.value))
    && (spec.listener.Some? ==> SameSpelling(c.listener, spec.listener.value))
  }

  lemma MatchesIff(spec: Spec, c: Candidate)
    ensures Matches(spec, c) <==> IsAbout(spec, c)
  {
    if c.username.Some? { LowerIff(c.username.value, spec.username); }
    if spec.host.Some? && c.host.Some? { LowerIff(c.host.value, spec.host.value); }
    if spec.protocol.Some? { LowerIff(c.protocol, spec.protocol.value); }
    if spec.listener.Some? { LowerIff(c.listener, spec.listener.value); }
  }

  lemma QualifiesIff(x: Session, c: Candidate, now: nat)
    ensures Qualifies(x.spec, x.expires, c, now) <==> now < x.expires && IsAbout(x.spec, c) && OfType(x.spec, c)
  {
    MatchesIff(x.spec, c);
  }

  /** After any run a record adds one to matched or to dropped, as the channel says, of
      exactly the sessions that it is about, has a type for and comes in time for. */
  lemma RecordLaw(l: Limits, ops: seq<Op>, c: Candidate, now: nat, sent: Bytes -> bool)
    ensures var s, t := Run(l, ops), Run(l, ops + [Record(c, now, sent)]);
            && t.Keys == s.Keys
            && forall id :: id in s ==>
                 if now < s[id].expires && IsAbout(s[id].spec, c) && OfType(s[id].spec, c)
                 then t[id] == Session(s[id].spec, s[id].expires,
                                       s[id].matched + (if sent(id) then 1 else 0),
                                       s[id].dropped + (if sent(id) then 0 else 1))
                 else t[id] == s[id]
  {
    RunSnoc(l, ops, Record(c, now, sent));
    var s := Run(l, ops);
    forall id | id in s { QualifiesIff(s[id], c, now); }
  }

  /** The sessions whose deadline is not past. */
  ghost predicate LiveAt(s: Sessions, id: Bytes, now: nat) {
    id in s && now < s[id].expires
  }

  /** There is a place for the session: it is there already, or neither the registry nor
      its user has as many live sessions as allowed. */
  ghost predicate HasPlace(s: Sessions, l: Limits, spec: Spec, now: nat) {
    || LiveAt(s, spec.id, now)
    || (&& |set id | id in s && LiveAt(s, id, now)| < l.maxSessions
        && |set id | id in s && LiveAt(s, id, now) && s[id].spec.username == spec.username| < l.maxPerUser)
  }

  lemma AdmitsIff(s: Sessions, l: Limits, spec: Spec, now: nat)
    ensures Admits(s - Expired(s, now), l, spec) <==> HasPlace(s, l, spec, now)
  {
    var live := s - Expired(s, now);
    assert live.Keys == set id | id in s && LiveAt(s, id, now);
    assert UserSessions(live, spec.username) ==
           set id | id in s && LiveAt(s, id, now) && s[id].spec.username == spec.username;
    assert |live| == |live.Keys|;
  }

  /** After any run a start drops the sessions whose deadline is past, and arms the new
      one, its counters at zero, exactly if there is a place for it. */
  lemma StartLaw(l: Limits, ops: seq<Op>, spec: Spec, now: nat)
    ensures var s, t := Run(l, ops), Run(l, ops + [Start(spec, now)]);
            && (forall id :: id in t <==> LiveAt(s, id, now) || (id == spec.id && HasPlace(s, l, spec, now)))
            && (forall id :: id in t && id != spec.id ==> t[id] == s[id])
            && (spec.id in t ==> t[spec.id] == Session(spec, now + spec.ttl, 0, 0))
  {
    RunSnoc(l, ops, Start(spec, now));
    AdmitsIff(Run(l, ops), l, spec, now);
  }

  /** A cancel removes the one session, a sweep those whose deadline is past. */
  lemma EndLaws(l: Limits, ops: seq<Op>, id: Bytes, now: nat)
    ensures Run(l, ops + [Cancel(id)]) == map x | x in Run(l, ops) && x != id :: Run(l, ops)[x]
    ensures Run(l, ops + [Sweep(now)]) == map x | x in Run(l, ops) && LiveAt(Run(l, ops), x, now) :: Run(l, ops)[x]
  {
    RunSnoc(l, ops, Cancel(id));
    RunSnoc(l, ops, Sweep(now));
  }

  /** The seconds of the reply: whole ones, and at least one. */
  lemma SecondsLaw(secs: nat, rest: nat)
    requires rest < 1_000_000_000
    ensures WholeSeconds(secs * 1_000_000_000 + rest) == if secs == 0 then 1 else secs
  {
  }

  /** After any run a cancel sums up the session if it is armed, and a sweep every one
      whose deadline is past; no other call sums up anything. */
  lemma SummaryLaw(l: Limits, ops: seq<Op>, op: Op, id: Bytes)
    ensures Summarizes(Run(l, ops), op, id) <==>
            id in Run(l, ops) && (op == Cancel(id) || (op.Sweep? && op.now >= Run(l, ops)[id].expires))
  {
  }

  /** The event types by name; the reply lists them in the order of these. */
  lemma TokenIs(e: EventType)
    ensures Token(e) ==
            Ascii(match e
                  case Auth => "auth"
                  case Policy => "policy"
                  case Limit => "limit"
                  case Outbound => "outbound"
                  case Splice => "splice"
                  case Summary => "summary")
  {
  }
}
