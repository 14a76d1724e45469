/** Sniffing the first bytes of a stream: the incremental observer. The TLS
    acceptor, the HTTP request parser and the clock are parameters. */
module Sniff {
  import opened Wrappers
  import opened Text
  import opened Flattening

  const HARD_MAX_SNIFF_BYTES: nat := 65536
  const CR: byte := 13
  const LF: byte := 10
  const TLS_RECORD: byte := 0x16
  const HEAD_END: Bytes := [13, 10, 13, 10]

  datatype Protocol = Tls | Http

  datatype SniffResult = Matched(protocol: Protocol, host: Bytes) | NeedMore | Unsupported | Malformed | LimitExceeded

  datatype Outcome = MatchedHost | UnsupportedStream | Timeout | MalformedHead | OverLimit | Incomplete

  datatype Observation = Observation(outcome: Outcome, host: Option<(Protocol, Bytes)>)

  function Terminal(outcome: Outcome): Observation {
    Observation(outcome, None)
  }

  /** `classify_http` of a complete head; rests on the request parser. */
  type Classify = Bytes -> SniffResult

  /** What the TLS acceptor says on reading a chunk after what it was fed before. */
  type TlsStep = (Bytes, Bytes) -> Option<Observation>

  function HeadObservation(r: SniffResult): Observation {
    match r
    case Matched(protocol, host) => Observation(MatchedHost, Some((protocol, host)))
    case Unsupported => Terminal(UnsupportedStream)
    case _ => Terminal(MalformedHead)
  }

  // ----- searching

  predicate OccursAt(hay: Bytes, needle: Bytes, i: nat) {
    i <= |hay| && needle <= hay[i..]
  }

  lemma OccursInTail(hay: Bytes, needle: Bytes, start: nat, i: nat)
    requires start <= |hay|
    ensures OccursAt(hay, needle, start + i) <==> OccursAt(hay[start..], needle, i)
  {
    if start + i <= |hay| { assert hay[start + i..] == hay[start..][i..]; }
  }

  lemma OccursInPrefix(hay: Bytes, more: Bytes, needle: Bytes, i: nat)
    requires i + |needle| <= |hay|
    ensures OccursAt(hay + more, needle, i) <==> OccursAt(hay, needle, i)
  {
    assert (hay + more)[i..] == hay[i..] + more;
    assert (hay[i..] + more)[..|needle|] == hay[i..][..|needle|];
  }

  ghost predicate FirstAt(hay: Bytes, needle: Bytes, r: Option<nat>) {
    && (r.Some? ==> OccursAt(hay, needle, r.value) && forall i: nat :: i < r.value ==> !OccursAt(hay, needle, i))
    && (r.None? ==> forall i: nat :: !OccursAt(hay, needle, i))
  }

  /** `find_sub`: the first occurrence of a non-empty needle. */
  function FindSub(hay: Bytes, needle: Bytes): (r: Option<nat>)
    requires needle != []
    ensures r.Some? ==> r.value + |needle| <= |hay|
  {
    if |hay| < |needle| then None
    else if needle <= hay then Some(0)
    else
      var rest := FindSub(hay[1..], needle);
      if rest.Some? then Some(1 + rest.value) else None
  }

  lemma {:induction false} FindSubFinds(hay: Bytes, needle: Bytes)
    requires needle != []
    ensures FirstAt(hay, needle, FindSub(hay, needle))
  {
    if |hay| >= |needle| && !(needle <= hay) {
      FindSubFinds(hay[1..], needle);
      assert hay[0..] == hay;
      ShiftFirst(hay, needle, 1, FindSub(hay[1..], needle));
    }
  }

  /** A first occurrence past `start`, when there is none before. */
  lemma ShiftFirst(hay: Bytes, needle: Bytes, start: nat, rest: Option<nat>)
    requires start <= |hay| && needle != [] && FirstAt(hay[start..], needle, rest)
    requires forall i: nat :: i < start ==> !OccursAt(hay, needle, i)
    ensures FirstAt(hay, needle, if rest.Some? then Some(start + rest.value) else None)
  {
    forall i: nat | i >= start ensures OccursAt(hay, needle, i) <==> OccursAt(hay[start..], needle, i - start) {
      OccursInTail(hay, needle, start, i - start);
    }
  }

  /** Only one result can be first, and the search returns it. */
  lemma FindSubIs(hay: Bytes, needle: Bytes, r: Option<nat>)
    requires needle != [] && FirstAt(hay, needle, r)
    ensures FindSub(hay, needle) == r
  {
    FindSubFinds(hay, needle);
  }

  /** A first occurrence stays first as the stream grows. */
  lemma FirstStays(hay: Bytes, more: Bytes, needle: Bytes)
    requires needle != [] && FindSub(hay, needle).Some?
    ensures FindSub(hay + more, needle) == FindSub(hay, needle)
  {
    var first := FindSub(hay, needle);
    FindSubFinds(hay, needle);
    forall i: nat | i <= first.value ensures OccursAt(hay + more, needle, i) <==> OccursAt(hay, needle, i) {
      OccursInPrefix(hay, more, needle, i);
    }
    FindSubIs(hay + more, needle, first);
  }

  ghost predicate NoneBelow(hay: Bytes, needle: Bytes, start: nat) {
    forall i: nat :: i < start ==> !OccursAt(hay, needle, i)
  }

  lemma NoneBefore(old': Bytes, more: Bytes, needle: Bytes, start: nat)
    requires needle != [] && FindSub(old', needle).None? && (start == 0 || start + |needle| <= |old'| + 1)
    ensures NoneBelow(old' + more, needle, start)
  {
    FindSubFinds(old', needle);
    forall i: nat | i < start ensures !OccursAt(old' + more, needle, i) { OccursInPrefix(old', more, needle, i); }
  }

  /** A result found in the tail from `start` on, as one in the whole. */
  predicate Shifted(whole: Option<nat>, rest: Option<nat>, start: nat) {
    whole == if rest.Some? then Some(start + rest.value) else None
  }

  lemma {:induction false} FoundInTail(hay: Bytes, needle: Bytes, start: nat)
    requires needle != [] && start <= |hay| && NoneBelow(hay, needle, start)
    ensures Shifted(FindSub(hay, needle), FindSub(hay[start..], needle), start)
    decreases start
  {
    if start == 0 {
      assert hay[0..] == hay;
    } else {
      assert hay[0..] == hay && !OccursAt(hay, needle, 0);
      forall i: nat | i < start - 1 ensures !OccursAt(hay[1..], needle, i) {
        OccursInTail(hay, needle, 1, i);
        assert !OccursAt(hay, needle, 1 + i);
      }
      FoundInTail(hay[1..], needle, start - 1);
      assert hay[1..][start - 1..] == hay[start..];
    }
  }

  /** Searching on from just before what was already searched finds the first
      occurrence in the whole. */
  lemma ResumedSearch(old': Bytes, more: Bytes, needle: Bytes, start: nat)
    requires needle != [] && FindSub(old', needle).None?
    requires start == if |old'| + 1 < |needle| then 0 else |old'| + 1 - |needle|
    ensures Shifted(FindSub(old' + more, needle), FindSub((old' + more)[start..], needle), start)
  {
    NoneBefore(old', more, needle, start);
    FoundInTail(old' + more, needle, start);
  }

  /** The end of a head whose terminator was found there. */
  predicate EndsAfter(found: Option<nat>, end: Option<nat>) {
    end == if found.Some? then Some(found.value + 4) else None
  }

  lemma ShiftedEnds(whole: Option<nat>, rest: Option<nat>, start: nat, end: Option<nat>)
    requires Shifted(whole, rest, start) && end == if rest.None? then None else Some(start + rest.value + 4)
    ensures EndsAfter(whole, end)
  {
  }

  // ----- the first bytes

  predicate IsTokenByte(b: byte) {
    || 48 <= b <= 57 || 65 <= b <= 90 || 97 <= b <= 122
    || b in {33, 35, 36, 37, 38, 39, 42, 43, 45, 46, 94, 95, 96, 124, 126}
  }

  /** `could_be_http`: past leading CRLFs, nothing, a lone CR or a token byte. */
  predicate CouldBeHttp(s: Bytes) {
    if [CR, LF] <= s then CouldBeHttp(s[2..])
    else s == [] || s == [CR] || IsTokenByte(s[0])
  }

  lemma {:induction false} CouldBeHttpPrefix(s: Bytes, n: nat)
    requires n <= |s| && CouldBeHttp(s)
    ensures CouldBeHttp(s[..n])
  {
    if [CR, LF] <= s && n >= 2 {
      CouldBeHttpPrefix(s[2..], n - 2);
      assert s[..n][2..] == s[2..][..n - 2];
    } else if n > 0 {
      assert s[..n][0] == s[0];
    }
  }

  // ----- what a stream should be taken for

  /** The limit in force. */
  function Cap(limit: nat): nat {
    if limit < HARD_MAX_SNIFF_BYTES then limit else HARD_MAX_SNIFF_BYTES
  }

  /** The bytes within the limit. */
  function Seen(s: Bytes, max: nat): Bytes {
    if |s| <= max then s else s[..max]
  }

  /** The observation of the stream `s`, given whether it was taken for HTTP: the
      classification of the head if it ends within the limit, otherwise limit
      exceeded once `max` bytes are there. */
  function Verdict(http: bool, s: Bytes, max: nat, classify: Classify): Option<Observation> {
    if s == [] then None
    else if max > 0 && !http then Some(Terminal(UnsupportedStream))
    else if HeadOf(Seen(s, max), classify).Some? then HeadOf(Seen(s, max), classify)
    else if |s| >= max then Some(Terminal(OverLimit))
    else None
  }

  /** The classification of the head, if it is complete. */
  function HeadOf(p: Bytes, classify: Classify): Option<Observation> {
    match FindSub(p, HEAD_END)
    case Some(i) => Some(HeadObservation(classify(p[..i + 4])))
    case None => None
  }

  lemma HeadStays(p: Bytes, rest: Bytes, classify: Classify)
    requires HeadOf(p, classify).Some?
    ensures HeadOf(p + rest, classify) == HeadOf(p, classify)
  {
    FirstStays(p, rest, HEAD_END);
    var i := FindSub(p, HEAD_END).value;
    assert (p + rest)[..i + 4] == p[..i + 4];
  }

  /** A verdict is final. */
  lemma VerdictStays(http: bool, s: Bytes, more: Bytes, max: nat, classify: Classify)
    requires Verdict(http, s, max, classify).Some?
    ensures Verdict(http, s + more, max, classify) == Verdict(http, s, max, classify)
  {
    if max == 0 || http {
      if |s| >= max {
        assert Seen(s + more, max) == Seen(s, max);
      } else {
        var rest := Seen(s + more, max)[|s|..];
        assert Seen(s + more, max) == s + rest;
        HeadStays(s, rest, classify);
      }
    }
  }

  /** How a stream starts, whatever its first chunk: as TLS, as HTTP, or as neither.
      A stream that starts with CR and then fails to be HTTP is not uniform. */
  predicate Uniform(p: Bytes) {
    p != [] && p[0] != TLS_RECORD && (CouldBeHttp(p) || p[0] != CR)
  }

  /** Every first chunk of a uniform stream is taken for what the whole would be. */
  lemma UniformLead(p: Bytes, n: nat)
    requires Uniform(p) && 0 < n <= |p|
    ensures CouldBeHttp(p[..n]) <==> CouldBeHttp(p)
  {
    if CouldBeHttp(p) { CouldBeHttpPrefix(p, n); }
    assert p[..n][0] == p[0];
  }

  /** And only a uniform stream is: otherwise the lone CR is taken for HTTP, the
      whole is not. */
  lemma NotUniformLead(p: Bytes)
    requires p != [] && p[0] != TLS_RECORD && !Uniform(p)
    ensures CouldBeHttp(p[..1]) && !CouldBeHttp(p)
  {
    assert p[..1] == [CR];
  }

  // ----- the observer

  /** A TLS stream after one more chunk: what the acceptor says of the part within the
      limit, otherwise limit exceeded once `max` bytes are there. */
  function TlsObservation(before: Bytes, bytes: Bytes, max: nat, tls: TlsStep): Option<Observation> {
    var room := if |before| <= max then max - |before| else 0;
    var o := tls(before, Seen(bytes, room));
    if o.Some? then o else if |before| + |bytes| >= max then Some(Terminal(OverLimit)) else None
  }

  datatype Parser = Undecided | TlsHello(fed: Bytes) | HttpHead(scanFrom: nat) | Done

  class ObserveState {
    const max: nat
    const classify: Classify
    const tls: TlsStep
    var parser: Parser
    var prefix: Bytes
    var observed: nat
    var observation: Option<Observation>
    /** All bytes offered, the first non-empty chunk of them within the limit, and
        whether the clock or the end of the stream cut the observation short. */
    ghost var seen: Bytes
    ghost var lead: Bytes
    ghost var cut: bool

    /** The buffer holds what was seen while it is still being searched. */
    ghost predicate Searching()
      reads this
    {
      match parser
      case Undecided => seen == [] && prefix == [] && observed == 0
      case TlsHello(fed) =>
        seen != [] && seen[0] == TLS_RECORD && fed == seen && prefix == [] && observed == |seen| < max
      case HttpHead(scanFrom) =>
        && seen != [] && seen[0] != TLS_RECORD && CouldBeHttp(lead)
        && prefix == seen && observed == |seen| < max && scanFrom == |seen| && FindSub(seen, HEAD_END).None?
      case Done => prefix == []
    }

    ghost predicate Judged()
      reads this
    {
      seen != [] && seen[0] != TLS_RECORD && !cut ==>
        observation == Verdict(CouldBeHttp(lead), seen, max, classify)
    }

    ghost predicate Valid()
      reads this
    {
      && max <= HARD_MAX_SNIFF_BYTES && |prefix| <= observed <= max
      && (observation.Some? <==> parser.Done?) && (cut ==> parser.Done?) && (parser.Done? && seen == [] ==> cut)
      && (parser.Undecided? ==> seen == []) && (seen == [] ==> lead == [])
      && Searching() && Judged()
    }

    constructor (limit: nat, classify: Classify, tls: TlsStep)
      ensures Valid() && seen == [] && !cut && observation.None? && this.classify == classify && this.tls == tls
      ensures max == Cap(limit)
    {
      this.max := Cap(limit);
      this.classify, this.tls := classify, tls;
      parser, prefix, observed, observation := Undecided, [], 0, None;
      seen, lead, cut := [], [], false;
    }

    method Finish(o: Observation)
      modifies `observation, `parser, `prefix
      ensures observation == Some(o) && parser == Done && prefix == []
    {
      observation, parser, prefix := Some(o), Done, [];
    }

    method FinishTimeout()
      requires Valid()
      modifies `observation, `parser, `prefix, `cut
      ensures Valid() && observation.Some? && seen == old(seen)
      ensures old(observation).Some? ==> observation == old(observation) && cut == old(cut)
      ensures old(observation).None? ==> observation == Some(Terminal(Timeout))
    {
      if observation.None? {
        Finish(Terminal(Timeout));
        cut := true;
      }
    }

    /** `finish_stream`, also `snapshot` */
    method FinishStream(expired: bool) returns (o: Observation)
      requires Valid()
      modifies `observation, `parser, `prefix, `cut
      ensures Valid() && observation == Some(o) && seen == old(seen)
      ensures old(observation).Some? ==> observation == old(observation) && cut == old(cut)
      ensures old(observation).None? ==> o == Terminal(if expired then Timeout else Incomplete)
    {
      if observation.None? {
        Finish(Terminal(if expired then Timeout else Incomplete));
        cut := true;
      }
      o := observation.value;
    }

    /** Search on from three bytes before what was searched. */
    static method Resume(prefix: Bytes, bytes: Bytes, scanFrom: nat) returns (end: Option<nat>)
      requires scanFrom == |prefix| && FindSub(prefix, HEAD_END).None?
      ensures EndsAfter(FindSub(prefix + bytes, HEAD_END), end)
    {
      var start := if scanFrom < 3 then 0 else scanFrom - 3;
      ResumedSearch(prefix, bytes, HEAD_END, start);
      var relative := FindSub((prefix + bytes)[start..], HEAD_END);
      end := if relative.None? then None else Some(start + relative.value + 4);
      ShiftedEnds(FindSub(prefix + bytes, HEAD_END), relative, start, end);
    }

    /** `observe_http_incremental` */
    method ObserveHttp(bytes: Bytes) returns (o: Option<Observation>)
      requires parser.HttpHead? && parser.scanFrom == |prefix| && FindSub(prefix, HEAD_END).None?
      modifies `parser, `prefix
      ensures prefix == old(prefix) + bytes && o == HeadOf(prefix, classify)
      ensures o.None? ==> parser == HttpHead(|prefix|)
      ensures o.Some? ==> parser == old(parser)
    {
      var end := Resume(prefix, bytes, parser.scanFrom);
      prefix := prefix + bytes;
      if end.None? {
        parser := HttpHead(|prefix|);
        return None;
      }
      o := Some(HeadObservation(classify(prefix[..end.value])));
    }

    /** Choose a parser by the first bytes; false if they are nothing known. */
    method Decide(captured: Bytes) returns (known: bool)
      requires parser.Undecided? && prefix == []
      modifies `parser
      ensures captured == [] ==> known && parser == Undecided
      ensures captured != [] && captured[0] == TLS_RECORD ==> known && parser == TlsHello([])
      ensures captured != [] && captured[0] != TLS_RECORD ==> (known <==> CouldBeHttp(captured))
      ensures captured != [] && captured[0] != TLS_RECORD && known ==> parser == HttpHead(0)
    {
      known := true;
      if captured != [] {
        if captured[0] == TLS_RECORD {
          parser := TlsHello([]);
        } else if CouldBeHttp(captured) {
          parser := HttpHead(0);
        } else {
          known := false;
        }
      }
    }

    /** Settle what a parser found, or that the limit is reached. */
    method Settle(o: Option<Observation>, over: bool)
      requires observation.None? && !parser.Done?
      modifies `observation, `parser, `prefix
      ensures o.Some? ==> observation == o && parser == Done && prefix == []
      ensures o.None? && over ==> observation == Some(Terminal(OverLimit)) && parser == Done && prefix == []
      ensures o.None? && !over ==> observation == None && parser == old(parser) && prefix == old(prefix)
    {
      if o.Some? {
        Finish(o.value);
      } else if over {
        Finish(Terminal(OverLimit));
      }
    }

    /** The bytes that are taken of a chunk, and those seen after it. */
    ghost predicate Taken(before: Bytes, bytes: Bytes, captured: Bytes)
      reads this
    {
      && seen == before + bytes && captured <= bytes
      && Seen(seen, max) == before + captured && observed == |before + captured| <= max
      && observation.None? && !cut && max <= HARD_MAX_SNIFF_BYTES && (captured != bytes ==> observed == max)
    }

    method AbsorbHttp(bytes: Bytes, captured: Bytes, ghost before: Bytes)
      requires Taken(before, bytes, captured) && seen != [] && seen[0] != TLS_RECORD && CouldBeHttp(lead) && max > 0
      requires parser == HttpHead(|prefix|) && prefix == before && FindSub(prefix, HEAD_END).None?
      modifies `parser, `prefix, `observation
      ensures Valid()
    {
      var over := |captured| < |bytes| || observed >= max;
      var o := ObserveHttp(captured);
      assert o == HeadOf(Seen(seen, max), classify);
      Settle(o, over);
    }

    method AbsorbTls(bytes: Bytes, captured: Bytes, ghost before: Bytes)
      requires Taken(before, bytes, captured) && seen != [] && seen[0] == TLS_RECORD && parser == TlsHello(before)
      requires prefix == [] && max > 0
      modifies `parser, `prefix, `observation
      ensures Valid() && observation == TlsObservation(before, bytes, max, tls)
    {
      assert captured == Seen(bytes, max - |before|);
      var o := tls(parser.fed, captured);
      parser := TlsHello(parser.fed + captured);
      Settle(o, |captured| < |bytes| || observed >= max);
    }

    /** Buffer, parse and check the limit, having been offered `before + bytes`. */
    method Absorb(bytes: Bytes, ghost before: Bytes)
      requires Valid() && observation.None? && before == seen
      modifies `parser, `prefix, `observed, `observation, `seen, `lead, `cut
      ensures Valid() && seen == before + bytes && cut == (bytes == [] && max == 0)
      ensures lead == if before == [] then Seen(bytes, max) else old(lead)
      ensures max > 0 && seen != [] && seen[0] == TLS_RECORD ==> observation == TlsObservation(before, bytes, max, tls)
    {
      seen := before + bytes;
      if before == [] { lead := Seen(bytes, max); }
      var remaining := max - observed;
      var take := if |bytes| < remaining then |bytes| else remaining;
      var captured := bytes[..take];
      assert Seen(seen, max) == before + captured;
      observed := observed + take;
      if parser.Undecided? {
        assert lead == captured;
        var known := Decide(captured);
        if !known {
          Finish(Terminal(UnsupportedStream));
          return;
        }
      }
      if parser.HttpHead? {
        AbsorbHttp(bytes, captured, before);
      } else if parser.TlsHello? {
        AbsorbTls(bytes, captured, before);
      } else {
        Settle(None, take < |bytes| || observed >= max);
        cut := observation.Some? && bytes == [];
      }
    }

    /** The next chunk. */
    method Observe(bytes: Bytes, expired: bool)
      requires Valid()
      modifies `parser, `prefix, `observed, `observation, `seen, `lead, `cut
      ensures Valid() && seen == old(seen) + bytes
      ensures lead == if old(seen) == [] && old(observation).None? && !expired then Seen(bytes, max) else old(lead)
      ensures old(observation).Some? ==> observation == old(observation) && cut == old(cut)
      ensures old(observation).None? ==> cut == (expired || (bytes == [] && max == 0))
      ensures old(observation).None? && expired ==> observation == Some(Terminal(Timeout))
      ensures old(observation).None? && !expired && max > 0 && seen != [] && seen[0] == TLS_RECORD ==>
                observation == TlsObservation(old(seen), bytes, max, tls)
    {
      if observation.Some? {
        if seen != [] && seen[0] != TLS_RECORD && !cut { VerdictStays(CouldBeHttp(lead), seen, bytes, max, classify); }
        seen := seen + bytes;
      } else if expired {
        Finish(Terminal(Timeout));
        cut, seen := true, seen + bytes;
      } else {
        Absorb(bytes, seen);
      }
    }
  }

  predicate NoneEmpty(chunks: seq<Bytes>) {
    forall i :: 0 <= i < |chunks| ==> chunks[i] != []
  }

  /** The observation of a stream that is not TLS, offered in these chunks: it
      depends on the split only through what the first chunk is taken for. */
  function ChunkOutcome(chunks: seq<Bytes>, max: nat, classify: Classify): Option<Observation> {
    if chunks == [] then None
    else Verdict(CouldBeHttp(Seen(chunks[0], max)), Flatten(chunks), max, classify)
  }

  /** The observation of a TLS stream offered in these chunks. */
  function TlsOutcome(chunks: seq<Bytes>, max: nat, tls: TlsStep): Option<Observation> {
    if chunks == [] then None
    else
      var prior := chunks[..|chunks| - 1];
      var o := TlsOutcome(prior, max, tls);
      if o.Some? then o else TlsObservation(Flatten(prior), chunks[|chunks| - 1], max, tls)
  }

  lemma TlsOutcomeSnoc(chunks: seq<Bytes>, c: Bytes, max: nat, tls: TlsStep)
    ensures TlsOutcome(chunks + [c], max, tls) ==
            var o := TlsOutcome(chunks, max, tls);
            if o.Some? then o else TlsObservation(Flatten(chunks), c, max, tls)
  {
    assert (chunks + [c])[..|chunks|] == chunks;
  }

  /** Where the state stands once these chunks are offered. */
  ghost predicate Offered(st: ObserveState, chunks: seq<Bytes>)
    reads st
  {
    && st.Valid() && !st.cut && st.seen == Flatten(chunks)
    && (chunks == [] ==> st.observation.None?)
    && (chunks != [] ==> st.seen != [] && st.lead == Seen(chunks[0], st.max))
    && (st.seen != [] && st.max > 0 && st.seen[0] == TLS_RECORD ==>
          st.observation == TlsOutcome(chunks, st.max, st.tls))
  }

  method Offer(st: ObserveState, ghost chunks: seq<Bytes>, c: Bytes)
    requires Offered(st, chunks) && c != []
    modifies st
    ensures Offered(st, chunks + [c])
  {
    FlattenSnoc(chunks, c);
    TlsOutcomeSnoc(chunks, c, st.max, st.tls);
    st.Observe(c, false);
  }

  /** Offer a stream chunk by chunk, the clock aside. */
  method ObserveChunks(chunks: seq<Bytes>, limit: nat, classify: Classify, tls: TlsStep)
      returns (o: Option<Observation>)
    requires NoneEmpty(chunks)
    ensures var s := Flatten(chunks); s == [] || s[0] != TLS_RECORD ==> o == ChunkOutcome(chunks, Cap(limit), classify)
    ensures var s := Flatten(chunks);
            Cap(limit) > 0 && s != [] && s[0] == TLS_RECORD ==> o == TlsOutcome(chunks, Cap(limit), tls)
  {
    var st := new ObserveState(limit, classify, tls);
    for i := 0 to |chunks|
      invariant Offered(st, chunks[..i]) && fresh(st)
      invariant st.classify == classify && st.tls == tls && st.max == Cap(limit)
    {
      assert chunks[..i + 1] == chunks[..i] + [chunks[i]];
      Offer(st, chunks[..i], chunks[i]);
    }
    assert chunks[..|chunks|] == chunks;
    o := st.observation;
  }

  lemma {:induction false} FirstChunk(chunks: seq<Bytes>)
    requires chunks != []
    ensures chunks[0] <= Flatten(chunks)
  {
    if |chunks| == 1 {
      assert Flatten(chunks[..0]) == [];
    } else {
      FirstChunk(chunks[..|chunks| - 1]);
    }
  }

  /** What a uniform stream is observed as in these chunks. */
  lemma UniformOutcome(chunks: seq<Bytes>, max: nat, classify: Classify)
    requires NoneEmpty(chunks) && Uniform(Seen(Flatten(chunks), max))
    ensures ChunkOutcome(chunks, max, classify) ==
            Verdict(CouldBeHttp(Seen(Flatten(chunks), max)), Flatten(chunks), max, classify)
  {
    var s := Flatten(chunks);
    assert chunks != [];
    FirstChunk(chunks);
    var lead := Seen(chunks[0], max);
    assert lead == Seen(s, max)[..|lead|];
    UniformLead(Seen(s, max), |lead|);
  }

  /** Uniform streams: one observation, however they are split. */
  method ObserveUniform(chunks: seq<Bytes>, limit: nat, classify: Classify, tls: TlsStep)
      returns (o: Option<Observation>)
    requires NoneEmpty(chunks)
    ensures var s, max := Flatten(chunks), Cap(limit);
            Uniform(Seen(s, max)) ==> o == Verdict(CouldBeHttp(Seen(s, max)), s, max, classify)
  {
    o := ObserveChunks(chunks, limit, classify, tls);
    if Uniform(Seen(Flatten(chunks), Cap(limit))) { UniformOutcome(chunks, Cap(limit), classify); }
  }

  // ----- when the split does not matter

  /** Every two ways to split the stream are observed alike. */
  ghost predicate SplitsAgree(s: Bytes, max: nat, classify: Classify) {
    forall x: seq<Bytes>, y: seq<Bytes> :: NoneEmpty(x) && NoneEmpty(y) && Flatten(x) == s && Flatten(y) == s ==>
      ChunkOutcome(x, max, classify) == ChunkOutcome(y, max, classify)
  }

  /** The head is complete and the parser finds nothing in it to route by. */
  predicate UnsupportedHead(p: Bytes, classify: Classify) {
    HeadOf(p, classify) == Some(Terminal(UnsupportedStream))
  }

  /** The stream with its first byte apart. */
  function ByteApart(s: Bytes): (two: seq<Bytes>)
    requires s != []
    ensures NoneEmpty(two) && two != [] && two[0] == s[..1]
  {
    if |s| == 1 then [s] else [s[..1], s[1..]]
  }

  lemma FlattenOne(x: Bytes)
    ensures Flatten([x]) == x
  {
    FlattenSnoc([], x);
    assert [] + [x] == [x];
  }

  lemma FlattenTwo(x: Bytes, y: Bytes)
    ensures Flatten([x, y]) == x + y
  {
    FlattenOne(x);
    FlattenSnoc([x], y);
    assert [x] + [y] == [x, y];
  }

  lemma SplitOff(s: Bytes)
    requires s != []
    ensures Flatten([s]) == s && Flatten(ByteApart(s)) == s
  {
    FlattenOne(s);
    if |s| > 1 {
      FlattenTwo(s[..1], s[1..]);
      assert s[..1] + s[1..] == s;
    }
  }

  /** A stream that is not uniform: whole it is unsupported, with its first CR apart
      it is searched for a head, and the two differ unless the head is unsupported. */
  lemma NonUniformSplits(s: Bytes, max: nat, classify: Classify)
    requires s != [] && s[0] != TLS_RECORD && max > 0 && !Uniform(Seen(s, max))
    ensures Verdict(CouldBeHttp(Seen(s, max)), s, max, classify) == Some(Terminal(UnsupportedStream))
    ensures CouldBeHttp(Seen(s[..1], max))
    ensures Verdict(true, s, max, classify) == Some(Terminal(UnsupportedStream)) <==>
            UnsupportedHead(Seen(s, max), classify)
  {
    NotUniformLead(Seen(s, max));
    assert Seen(s[..1], max) == Seen(s, max)[..1];
  }

  /** For every stream that is not TLS, every limit and every parser: the observation
      is independent of the split exactly when nothing may be read, the stream is
      uniform, or its head is complete and unsupported anyway. */
  lemma SplitsAgreeIff(s: Bytes, max: nat, classify: Classify)
    requires s != [] && s[0] != TLS_RECORD
    ensures SplitsAgree(s, max, classify) <==>
            max == 0 || Uniform(Seen(s, max)) || UnsupportedHead(Seen(s, max), classify)
  {
    SplitOff(s);
    if max > 0 && !Uniform(Seen(s, max)) {
      NonUniformSplits(s, max, classify);
      assert [s][0] == s;
      assert SplitsAgree(s, max, classify) ==>
          ChunkOutcome([s], max, classify) == ChunkOutcome(ByteApart(s), max, classify);
    }
    if max == 0 || Uniform(Seen(s, max)) || UnsupportedHead(Seen(s, max), classify) {
      forall x: seq<Bytes>, y: seq<Bytes> | NoneEmpty(x) && NoneEmpty(y) && Flatten(x) == s && Flatten(y) == s
        ensures ChunkOutcome(x, max, classify) == ChunkOutcome(y, max, classify)
      {
        OutcomeFixed(x, max, classify);
        OutcomeFixed(y, max, classify);
      }
    }
  }

  lemma OutcomeFixed(chunks: seq<Bytes>, max: nat, classify: Classify)
    requires NoneEmpty(chunks) && Flatten(chunks) != []
    requires max == 0 || Uniform(Seen(Flatten(chunks), max)) || UnsupportedHead(Seen(Flatten(chunks), max), classify)
    ensures var s := Flatten(chunks);
            ChunkOutcome(chunks, max, classify) ==
              if max == 0 then Verdict(true, s, max, classify)
              else if Uniform(Seen(s, max)) then Verdict(CouldBeHttp(Seen(s, max)), s, max, classify)
              else Some(Terminal(UnsupportedStream))
  {
    assert chunks != [];
    if max > 0 && Uniform(Seen(Flatten(chunks), max)) { UniformOutcome(chunks, max, classify); }
  }

  // ----- a parser that wants a token first

  /** Past empty lines, ended by CRLF or a bare LF, there is a token byte. */
  predicate TokenFirst(s: Bytes) {
    if [CR, LF] <= s then TokenFirst(s[2..])
    else if [LF] <= s then TokenFirst(s[1..])
    else s != [] && IsTokenByte(s[0])
  }

  /** Past leading CRLFs there is a bare LF: an empty line to the parser, and not HTTP
      to `could_be_http`. */
  predicate BareLine(s: Bytes) {
    if [CR, LF] <= s then BareLine(s[2..]) else [LF] <= s
  }

  lemma {:induction false} TokenFirstGrows(h: Bytes, p: Bytes)
    requires TokenFirst(h) && h <= p
    ensures CouldBeHttp(p) || BareLine(p)
  {
    if [CR, LF] <= h { TokenFirstGrows(h[2..], p[2..]); }
  }

  /** The parser takes no head for a request that does not start with a token. */
  ghost predicate WantsToken(classify: Classify) {
    forall h :: classify(h).Unsupported? ==> TokenFirst(h)
  }

  /** With such a parser and a positive limit the split does not matter exactly for
      uniform streams, and for unsupported heads with a bare LF before the request. */
  lemma SplitsAgreeIffUniform(s: Bytes, max: nat, classify: Classify)
    requires s != [] && s[0] != TLS_RECORD && max > 0 && WantsToken(classify)
    ensures var p := Seen(s, max);
            SplitsAgree(s, max, classify) <==> Uniform(p) || (BareLine(p) && UnsupportedHead(p, classify))
  {
    SplitsAgreeIff(s, max, classify);
    var p := Seen(s, max);
    if UnsupportedHead(p, classify) {
      var h := p[..FindSub(p, HEAD_END).value + 4];
      assert classify(h).Unsupported?;
      TokenFirstGrows(h, p);
    }
  }

  /** Every other stream that is not TLS depends on its split, unless its head is
      complete and unsupported: whole it is unsupported, with its first CR apart it is
      searched for a head. */
  method NonUniformDepends(s: Bytes, limit: nat, classify: Classify, tls: TlsStep)
      returns (whole: Option<Observation>, split: Option<Observation>)
    requires s != [] && s[0] != TLS_RECORD && 0 < limit && !Uniform(Seen(s, Cap(limit)))
    ensures whole == Some(Terminal(UnsupportedStream)) && split == Verdict(true, s, Cap(limit), classify)
    ensures whole != split <==> !UnsupportedHead(Seen(s, Cap(limit)), classify)
  {
    NonUniformSplits(s, Cap(limit), classify);
    SplitOff(s);
    whole := ObserveChunks([s], limit, classify, tls);
    split := ObserveChunks(ByteApart(s), limit, classify, tls);
  }

  /** For example CR then "A": unsupported whole, undecided split. */
  lemma LoneCrIsNotUniform(classify: Classify)
    ensures !Uniform([CR, 65]) && Verdict(true, [CR, 65], 100, classify) == None
    ensures !SplitsAgree([CR, 65], 100, classify)
  {
    var s: Bytes := [CR, 65];
    assert s[1] != LF;
    assert !([CR, LF] <= s);
    assert !CouldBeHttp(s) && |s| < |HEAD_END|;
    SplitsAgreeIff(s, 100, classify);
  }
}
