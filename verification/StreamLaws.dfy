/** What the sniffer makes of a stream, said of its bytes: which first bytes are HTTP,
    what a complete head gives, and when there is no answer. */
module StreamLaws {
  import opened Wrappers
  import opened Text
  import opened Flattening
  import opened Spelling
  import opened Sniff

  predicate Letter(b: byte) {
    'a' as int <= b <= 'z' as int || 'A' as int <= b <= 'Z' as int
  }

  /** A token character, section 5.6.2 of RFC 9110. */
  predicate TokenChar(b: byte) {
    Letter(b) || '0' as int <= b <= '9' as int || b in Ascii("!#$%&'*+-.^_`|~")
  }

  lemma TokenIff(b: byte)
    ensures IsTokenByte(b) <==> TokenChar(b)
  {
    assert Ascii("!#$%&'*+-.^_`|~") == [33, 35, 36, 37, 38, 39, 42, 43, 45, 46, 94, 95, 96, 124, 126];
  }

  /** Which streams may be HTTP by their first byte. */
  lemma FirstByteIff(s: Bytes)
    requires s != [] ==> s[0] != 13
    ensures CouldBeHttp(s) <==> s == [] || TokenChar(s[0])
  {
    if s != [] { TokenIff(s[0]); }
  }

  /** After CR there is to be LF, or nothing yet; empty lines do not count. */
  lemma AfterCr(s: Bytes)
    ensures CouldBeHttp([13, 10] + s) <==> CouldBeHttp(s)
    ensures CouldBeHttp([13])
    ensures s != [] && s[0] != 10 ==> !CouldBeHttp([13] + s)
  {
    assert ([13, 10] + s)[2..] == s;
    TokenIff(13);
    var x: Bytes := [13] + s;
    assert x[0] == 13 && (s != [] ==> x[1] == s[0]);
  }

  /** CRLF CRLF at this place. */
  predicate EmptyLineAt(s: Bytes, i: nat) {
    i + 4 <= |s| && s[i] == 13 && s[i + 1] == 10 && s[i + 2] == 13 && s[i + 3] == 10
  }

  /** The head of a request: up to and with the first empty line. */
  predicate IsHead(head: Bytes) {
    && |head| >= 4 && EmptyLineAt(head, |head| - 4)
    && forall i :: 0 <= i < |head| - 4 ==> !EmptyLineAt(head, i)
  }

  lemma OccursIff(s: Bytes, i: nat)
    ensures OccursAt(s, HEAD_END, i) <==> EmptyLineAt(s, i)
  {
    if i <= |s| && HEAD_END <= s[i..] { assert s[i..][..4] == HEAD_END; }
    if EmptyLineAt(s, i) { assert s[i..][..4] == HEAD_END; }
  }

  lemma HeadFound(head: Bytes, rest: Bytes)
    requires IsHead(head)
    ensures FindSub(head + rest, HEAD_END) == Some(|head| - 4)
  {
    var s, n := head + rest, |head| - 4;
    var found := FindSub(s, HEAD_END);
    FindSubFinds(s, HEAD_END);
    OccursIff(s, n);
    assert found.Some? && found.value <= n;
    OccursIff(s, found.value);
    assert EmptyLineAt(head, found.value);
  }

  lemma NoHead(p: Bytes)
    requires forall i: nat :: !EmptyLineAt(p, i)
    ensures FindSub(p, HEAD_END) == None
  {
    FindSubFinds(p, HEAD_END);
    var found := FindSub(p, HEAD_END);
    if found.Some? { OccursIff(p, found.value); }
  }

  /** What is observed of a head that the parser has classified. */
  ghost predicate Says(o: Option<Observation>, r: SniffResult) {
    && o.Some?
    && (r.Matched? ==> o.value == Observation(MatchedHost, Some((r.protocol, r.host))))
    && (r == Unsupported ==> o.value == Observation(UnsupportedStream, None))
    && (r == NeedMore || r == Malformed || r == LimitExceeded ==> o.value == Observation(MalformedHead, None))
  }

  lemma FirstChunk(chunks: seq<Bytes>)
    requires NoneEmpty(chunks) && Flatten(chunks) != []
    ensures chunks != [] && chunks[0] != [] && chunks[0][0] == Flatten(chunks)[0]
  {
    Sniff.FirstChunk(chunks);
  }

  /** The stream starts with a token character, and its head ends within the limit. */
  ghost predicate HeadWithin(s: Bytes, head: Bytes, rest: Bytes, limit: nat) {
    s == head + rest && IsHead(head) && TokenChar(head[0]) && |head| <= limit && |head| <= 0x1_0000
  }

  /** A stream that starts with a token character and has a head within the limit is
      observed as what the parser says of the head, however it is split. */
  lemma HeadObserved(chunks: seq<Bytes>, limit: nat, classify: Classify, head: Bytes, rest: Bytes)
    requires NoneEmpty(chunks) && HeadWithin(Flatten(chunks), head, rest, limit)
    ensures Says(ChunkOutcome(chunks, Cap(limit), classify), classify(head))
  {
    var s, max := head + rest, Cap(limit);
    FirstChunk(chunks);
    FirstByteIff(Seen(chunks[0], max));
    var rest' := Seen(rest, max - |head|);
    assert Seen(s, max) == head + rest';
    HeadFound(head, rest');
    assert (head + rest')[..|head|] == head;
  }

  /** A stream that starts with anything else, CR and the TLS record byte aside, is not
      supported. */
  lemma OtherObserved(chunks: seq<Bytes>, limit: nat, classify: Classify)
    requires NoneEmpty(chunks) && Flatten(chunks) != [] && limit > 0
    requires var b := Flatten(chunks)[0]; !TokenChar(b) && b != 13
    ensures ChunkOutcome(chunks, Cap(limit), classify) == Some(Observation(UnsupportedStream, None))
  {
    FirstChunk(chunks);
    FirstByteIff(Seen(chunks[0], Cap(limit)));
  }

  /** Without a head within the limit there is no answer before the limit is reached. */
  lemma HeadAwaited(chunks: seq<Bytes>, limit: nat, classify: Classify)
    requires NoneEmpty(chunks) && Flatten(chunks) != [] && TokenChar(Flatten(chunks)[0])
    requires forall i: nat :: i + 4 <= limit && i + 4 <= 0x1_0000 ==> !EmptyLineAt(Flatten(chunks), i)
    ensures ChunkOutcome(chunks, Cap(limit), classify) ==
            if |Flatten(chunks)| < limit && |Flatten(chunks)| < 0x1_0000 then None
            else Some(Observation(OverLimit, None))
  {
    var s, max := Flatten(chunks), Cap(limit);
    FirstChunk(chunks);
    FirstByteIff(Seen(chunks[0], max));
    assert forall i: nat :: EmptyLineAt(Seen(s, max), i) ==> EmptyLineAt(s, i) && i + 4 <= max;
    NoHead(Seen(s, max));
  }

  lemma FirstAnswerKept(chunks: seq<Bytes>, j: nat, max: nat, tls: TlsStep)
    requires j < |chunks| && TlsOutcome(chunks[..j + 1], max, tls).Some?
    ensures TlsOutcome(chunks, max, tls) == TlsOutcome(chunks[..j + 1], max, tls)
    decreases |chunks|
  {
    if j + 1 == |chunks| {
      assert chunks[..j + 1] == chunks;
    } else {
      var prior := chunks[..|chunks| - 1];
      assert prior[..j + 1] == chunks[..j + 1];
      FirstAnswerKept(prior, j, max, tls);
    }
  }

  lemma {:induction false} Unanswered(chunks: seq<Bytes>, max: nat, tls: TlsStep)
    requires forall i :: 0 <= i < |chunks| ==> tls(Flatten(chunks[..i]), chunks[i]) == None
    requires |Flatten(chunks)| < max
    ensures TlsOutcome(chunks, max, tls) == None
    decreases |chunks|
  {
    if chunks != [] {
      var prior := chunks[..|chunks| - 1];
      assert forall i :: 0 <= i < |prior| ==> prior[..i] == chunks[..i];
      Unanswered(prior, max, tls);
      assert chunks[..|chunks| - 1] == prior;
    }
  }

  /** Of a TLS stream the acceptor's first answer within the limit is the observation. */
  lemma FirstAnswer(chunks: seq<Bytes>, j: nat, max: nat, tls: TlsStep, o: Observation)
    requires j < |chunks| && |Flatten(chunks[..j])| < max && |Flatten(chunks[..j + 1])| <= max
    requires forall i :: 0 <= i < j ==> tls(Flatten(chunks[..i]), chunks[i]) == None
    requires tls(Flatten(chunks[..j]), chunks[j]) == Some(o)
    ensures TlsOutcome(chunks, max, tls) == Some(o)
  {
    var prior := chunks[..j];
    assert forall i :: 0 <= i < j ==> prior[..i] == chunks[..i];
    Unanswered(prior, max, tls);
    assert chunks[..j + 1][..j] == prior;
    assert chunks[..j + 1] == prior + [chunks[j]];
    FlattenSnoc(prior, chunks[j]);
    FirstAnswerKept(chunks, j, max, tls);
  }

  /** The state machine observes what these laws say. */
  method ObserveStream(chunks: seq<Bytes>, limit: nat, classify: Classify, tls: TlsStep)
      returns (o: Option<Observation>)
    requires NoneEmpty(chunks) && Flatten(chunks) != [] && limit > 0
    ensures forall head, rest :: HeadWithin(Flatten(chunks), head, rest, limit) ==> Says(o, classify(head))
    ensures var b := Flatten(chunks)[0];
            !TokenChar(b) && b != 13 && b != 0x16 ==> o == Some(Observation(UnsupportedStream, None))
    ensures Flatten(chunks)[0] == 0x16 ==> o == TlsOutcome(chunks, Cap(limit), tls)
  {
    o := ObserveChunks(chunks, limit, classify, tls);
    TokenIff(0x16);
    forall head, rest | HeadWithin(Flatten(chunks), head, rest, limit) ensures Says(o, classify(head)) {
      HeadObserved(chunks, limit, classify, head, rest);
    }
    if !TokenChar(Flatten(chunks)[0]) && Flatten(chunks)[0] != 13 { OtherObserved(chunks, limit, classify); }
  }
}
