/** What the lines of `add_rule` and the other calls mean, said of the hosts they
    cover and not of how a line is read. */
module RuleLines {
  import opened Wrappers
  import opened Text
  import opened BookFormat
  import opened Addresses
  import opened Rules
  import opened Queries
  import opened Resolution
  import opened SelectorCache
  import opened EndToEnd
  import opened BuildSpec
  import opened Words
  import opened Sections
  import opened Unicode
  import opened Pipeline
  import opened Spelling
  import opened HostNames

  lemma KeywordCovers(h: Bytes, host: Bytes, parse: ParseAddr)
    ensures RuleCovers(KeywordRule(h), host, parse) <==> NameContains(host, h, parse)
  {
    ContainsIff(NormalizeDomain(host), NormalizeDomain(h));
  }

  lemma ExactCovers(h: Bytes, host: Bytes, parse: ParseAddr)
    ensures RuleCovers(ExactRule(h), host, parse) <==> NameIs(host, h, parse)
  {
  }

  lemma SuffixCovers(h: Bytes, host: Bytes, parse: ParseAddr)
    ensures RuleCovers(SuffixRule(h), host, parse) <==> NameUnder(host, h, parse)
  {
    var d := WithoutStar(NormalizeDomain(h));
    StarIs(NormalizeDomain(h));
    UnderDomainIff(NormalizeDomain(host), d);
  }

  // ----- lines

  lemma RuleOfTidy(a: Bytes, line: Bytes, b: Bytes, ip: ParseIp)
    requires AllSpace(a) && AllSpace(b) && Tidy(line)
    ensures RuleOf(a + line + b, ip) == LineRule(line, ip)
  {
    TrimIs(a, line, b);
  }

  lemma Prefixes()
    ensures Ascii("full:") == FULL_PREFIX && Ascii("keyword:") == KEYWORD_PREFIX && Ascii("domain:") == DOMAIN_PREFIX
  {
  }

  /** The first letters tell the types apart. */
  lemma LineOfType(p: Bytes, h: Bytes, ip: ParseIp)
    ensures p == FULL_PREFIX ==> LineRule(p + h, ip) == ExactRule(h)
    ensures p == KEYWORD_PREFIX ==> LineRule(p + h, ip) == KeywordRule(h)
    ensures p == DOMAIN_PREFIX ==> LineRule(p + h, ip) == SuffixRule(h)
  {
    assert (p + h)[|p|..] == h && p <= p + h;
    if p != [] { assert (p + h)[0] == p[0]; }
  }

  /** "keyword:" covers the names that contain the fragment. */
  lemma KeywordLine(a: Bytes, h: Bytes, b: Bytes, ip: ParseIp, host: Bytes, parse: ParseAddr)
    requires AllSpace(a) && AllSpace(b) && SpaceBefore(h, |h|) == 0
    ensures RuleCovers(RuleOf(a + (Ascii("keyword:") + h) + b, ip), host, parse) <==> NameContains(host, h, parse)
  {
    Prefixes();
    TypedIsTidy(KEYWORD_PREFIX, h);
    RuleOfTidy(a, KEYWORD_PREFIX + h, b, ip);
    LineOfType(KEYWORD_PREFIX, h, ip);
    KeywordCovers(h, host, parse);
  }

  /** "full:" covers the one name. */
  lemma FullLine(a: Bytes, h: Bytes, b: Bytes, ip: ParseIp, host: Bytes, parse: ParseAddr)
    requires AllSpace(a) && AllSpace(b) && SpaceBefore(h, |h|) == 0
    ensures RuleCovers(RuleOf(a + (Ascii("full:") + h) + b, ip), host, parse) <==> NameIs(host, h, parse)
  {
    Prefixes();
    TypedIsTidy(FULL_PREFIX, h);
    RuleOfTidy(a, FULL_PREFIX + h, b, ip);
    LineOfType(FULL_PREFIX, h, ip);
    ExactCovers(h, host, parse);
  }

  /** "domain:" covers the domain and its subdomains. */
  lemma DomainLine(a: Bytes, h: Bytes, b: Bytes, ip: ParseIp, host: Bytes, parse: ParseAddr)
    requires AllSpace(a) && AllSpace(b) && SpaceBefore(h, |h|) == 0
    ensures RuleCovers(RuleOf(a + (Ascii("domain:") + h) + b, ip), host, parse) <==> NameUnder(host, h, parse)
  {
    Prefixes();
    TypedIsTidy(DOMAIN_PREFIX, h);
    RuleOfTidy(a, DOMAIN_PREFIX + h, b, ip);
    LineOfType(DOMAIN_PREFIX, h, ip);
    SuffixCovers(h, host, parse);
  }

  /** No known type claims the line. */
  predicate Unclaimed(line: Bytes) {
    line != [] && !(Ascii("full:") <= line) && !(Ascii("keyword:") <= line) && !(Ascii("domain:") <= line)
  }

  /** An address or network covers exactly its addresses. */
  lemma AddressLine(a: Bytes, line: Bytes, b: Bytes, ip: ParseIp, host: Bytes, parse: ParseAddr)
    requires AllSpace(a) && AllSpace(b) && Tidy(line) && Unclaimed(line) && ip(line).Some?
    ensures RuleCovers(RuleOf(a + line + b, ip), host, parse) <==>
            parse(host).Some? && Covers(ip(line).value, parse(host).value)
  {
    Prefixes();
    RuleOfTidy(a, line, b, ip);
  }

  lemma OtherRule(t: Bytes, h: Bytes, line: Bytes, ip: ParseIp)
    requires line == t + [COLON] + h && COLON !in t && ip(line).None?
    ensures UntypedRule(line, ip) == SuffixRule(h)
  {
    IndexOfIn(t, COLON, h);
    assert line[|t| + 1..] == h;
  }

  lemma UnclaimedRule(line: Bytes, ip: ParseIp)
    requires Unclaimed(line)
    ensures LineRule(line, ip) == UntypedRule(line, ip)
  {
    Prefixes();
  }

  /** A line with a type that is not known is a domain, the type put aside. */
  lemma OtherTypeLine(a: Bytes, t: Bytes, h: Bytes, b: Bytes, ip: ParseIp, host: Bytes, parse: ParseAddr)
    requires AllSpace(a) && AllSpace(b) && ':' as int !in t
    requires var line := t + Ascii(":") + h; Tidy(line) && Unclaimed(line) && ip(line).None?
    ensures RuleCovers(RuleOf(a + (t + Ascii(":") + h) + b, ip), host, parse) <==> NameUnder(host, h, parse)
  {
    var line := t + Ascii(":") + h;
    assert Ascii(":") == [COLON];
    RuleOfTidy(a, line, b, ip);
    UnclaimedRule(line, ip);
    OtherRule(t, h, line, ip);
    SuffixCovers(h, host, parse);
  }

  /** A line without a type is a domain. */
  lemma PlainLine(a: Bytes, line: Bytes, b: Bytes, ip: ParseIp, host: Bytes, parse: ParseAddr)
    requires AllSpace(a) && AllSpace(b) && Tidy(line) && Unclaimed(line) && ip(line).None? && ':' as int !in line
    ensures RuleCovers(RuleOf(a + line + b, ip), host, parse) <==> NameUnder(host, line, parse)
  {
    RuleOfTidy(a, line, b, ip);
    UnclaimedRule(line, ip);
    assert IndexOf(line, COLON) == |line|;
    SuffixCovers(line, host, parse);
  }

  /** A blank line covers nothing. */
  lemma BlankLine(a: Bytes, ip: ParseIp, host: Bytes, parse: ParseAddr)
    requires AllSpace(a)
    ensures !RuleCovers(RuleOf(a, ip), host, parse)
  {
    assert a + [] + [] == a;
    TrimIs(a, [], []);
  }

  // ----- one call

  /** The path is a category, and it is a pattern or below one. */
  ghost predicate AtOrBelow(path: Bytes, patterns: seq<Bytes>) {
    var c := NormalizeCategory(path);
    && WellFormedPath(c)
    && exists p :: p in patterns &&
         (c == NormalizeCategory(p) || exists rest :: c == NormalizeCategory(p) + Ascii("/") + rest)
  }

  lemma UnderIff(c: Bytes, p: Bytes)
    ensures Under(c, p) <==> c == p || exists rest :: c == p + Ascii("/") + rest
  {
    assert Ascii("/") == [SLASH];
    if p + [SLASH] <= c { assert c == p + [SLASH] + c[|p| + 1..]; }
    if rest :| c == p + Ascii("/") + rest { assert p + [SLASH] <= c; }
  }

  lemma PatternIff(path: Bytes, patterns: seq<Bytes>)
    ensures AtOrBelow(path, patterns) <==>
            CategoryOf(path).Some? && exists p :: p in Normalized(patterns) && Under(CategoryOf(path).value, p)
  {
    var c := NormalizeCategory(path);
    CategoryOfIff(path, c);
    forall p { UnderIff(c, NormalizeCategory(p)); }
    if AtOrBelow(path, patterns) {
      var p :| p in patterns && (c == NormalizeCategory(p) ||
                                 exists rest :: c == NormalizeCategory(p) + Ascii("/") + rest);
      assert NormalizeCategory(p) in Normalized(patterns);
    }
    if CategoryOf(path).Some? && exists p :: p in Normalized(patterns) && Under(CategoryOf(path).value, p) {
      var q :| q in Normalized(patterns) && Under(c, q);
      var p :| p in patterns && NormalizeCategory(p) == q;
    }
  }

  lemma OneCall(add: Add, ip: ParseIp, host: Bytes, parse: ParseAddr, path: Bytes, rule: Rule, patterns: seq<Bytes>)
    requires EffectOf(add, ip) == Register(path, rule)
    ensures Covered(Effects([add], ip), host, parse, Normalized(patterns)) <==>
            RuleCovers(rule, host, parse) && AtOrBelow(path, patterns)
  {
    PatternIff(path, patterns);
    assert Effects([add], ip) == {Register(path, rule)};
  }

  /** What a line says of a host, type by type: `yes` if it covers the host. */
  ghost predicate LineSays(line: Bytes, ip: ParseIp, host: Bytes, parse: ParseAddr, yes: bool) {
    && (forall h :: IsTyped(line, "keyword:", h) ==> (yes <==> NameContains(host, h, parse)))
    && (forall h :: IsTyped(line, "full:", h) ==> (yes <==> NameIs(host, h, parse)))
    && (forall h :: IsTyped(line, "domain:", h) ==> (yes <==> NameUnder(host, h, parse)))
    && (Tidy(line) && Unclaimed(line) ==> UntypedSays(line, ip, host, parse, yes))
  }

  /** The line is the type followed by `h`, with no space to trim. */
  ghost predicate IsTyped(line: Bytes, t: string, h: Bytes) {
    && (forall i :: 0 <= i < |t| ==> t[i] < 128 as char)
    && line == Ascii(t) + h && SpaceBefore(h, |h|) == 0
  }

  ghost predicate UntypedSays(line: Bytes, ip: ParseIp, host: Bytes, parse: ParseAddr, yes: bool) {
    if ip(line).Some? then yes <==> parse(host).Some? && Covers(ip(line).value, parse(host).value)
    else
      && (':' as int !in line ==> (yes <==> NameUnder(host, line, parse)))
      && forall t, h :: line == t + Ascii(":") + h && ':' as int !in t ==> (yes <==> NameUnder(host, h, parse))
  }

  /** Whether a line covers the host; unfolded only type by type. */
  ghost predicate Reads(covers: Bytes -> bool, ip: ParseIp, host: Bytes, parse: ParseAddr) {
    forall line {:trigger LineCovers(line, ip, host, parse)} :: covers(line) <==> LineCovers(line, ip, host, parse)
  }

  ghost predicate LineCovers(line: Bytes, ip: ParseIp, host: Bytes, parse: ParseAddr) {
    RuleCovers(RuleOf(line, ip), host, parse)
  }

  lemma Alone(line: Bytes)
    ensures [] + line + [] == line && AllSpace([])
  {
  }

  lemma KeywordReads(h: Bytes, line: Bytes, covers: Bytes -> bool, ip: ParseIp, host: Bytes, parse: ParseAddr)
    requires Reads(covers, ip, host, parse) && IsTyped(line, "keyword:", h)
    ensures covers(line) <==> NameContains(host, h, parse)
  {
    Alone(line);
    assert covers(line) <==> LineCovers(line, ip, host, parse);
    KeywordLine([], h, [], ip, host, parse);
  }

  lemma FullReads(h: Bytes, line: Bytes, covers: Bytes -> bool, ip: ParseIp, host: Bytes, parse: ParseAddr)
    requires Reads(covers, ip, host, parse) && IsTyped(line, "full:", h)
    ensures covers(line) <==> NameIs(host, h, parse)
  {
    Alone(line);
    assert covers(line) <==> LineCovers(line, ip, host, parse);
    FullLine([], h, [], ip, host, parse);
  }

  lemma DomainReads(h: Bytes, line: Bytes, covers: Bytes -> bool, ip: ParseIp, host: Bytes, parse: ParseAddr)
    requires Reads(covers, ip, host, parse) && IsTyped(line, "domain:", h)
    ensures covers(line) <==> NameUnder(host, h, parse)
  {
    Alone(line);
    assert covers(line) <==> LineCovers(line, ip, host, parse);
    DomainLine([], h, [], ip, host, parse);
  }

  lemma OtherReads(t: Bytes, h: Bytes, line: Bytes, covers: Bytes -> bool, ip: ParseIp, host: Bytes, parse: ParseAddr)
    requires Reads(covers, ip, host, parse) && line == t + Ascii(":") + h && ':' as int !in t
    requires Tidy(line) && Unclaimed(line) && ip(line).None?
    ensures covers(line) <==> NameUnder(host, h, parse)
  {
    Alone(line);
    assert covers(line) <==> LineCovers(line, ip, host, parse);
    OtherTypeLine([], t, h, [], ip, host, parse);
  }

  lemma PlainReads(line: Bytes, covers: Bytes -> bool, ip: ParseIp, host: Bytes, parse: ParseAddr)
    requires Reads(covers, ip, host, parse) && Tidy(line) && Unclaimed(line)
    ensures ip(line).Some? ==> (covers(line) <==> parse(host).Some? && Covers(ip(line).value, parse(host).value))
    ensures ip(line).None? && ':' as int !in line ==> (covers(line) <==> NameUnder(host, line, parse))
  {
    Alone(line);
    assert covers(line) <==> LineCovers(line, ip, host, parse);
    if ip(line).Some? {
      AddressLine([], line, [], ip, host, parse);
    } else if ':' as int !in line {
      PlainLine([], line, [], ip, host, parse);
    }
  }

  /** A line covers what it says. */
  lemma LineMeaning(line: Bytes, covers: Bytes -> bool, ip: ParseIp, host: Bytes, parse: ParseAddr)
    requires Reads(covers, ip, host, parse)
    ensures LineSays(line, ip, host, parse, covers(line))
  {
    forall h | IsTyped(line, "keyword:", h) ensures covers(line) <==> NameContains(host, h, parse) {
      KeywordReads(h, line, covers, ip, host, parse);
    }
    forall h | IsTyped(line, "full:", h) ensures covers(line) <==> NameIs(host, h, parse) {
      FullReads(h, line, covers, ip, host, parse);
    }
    forall h | IsTyped(line, "domain:", h) ensures covers(line) <==> NameUnder(host, h, parse) {
      DomainReads(h, line, covers, ip, host, parse);
    }
    if Tidy(line) && Unclaimed(line) { UntypedMeaning(line, covers, ip, host, parse); }
  }

  lemma UntypedMeaning(line: Bytes, covers: Bytes -> bool, ip: ParseIp, host: Bytes, parse: ParseAddr)
    requires Reads(covers, ip, host, parse) && Tidy(line) && Unclaimed(line)
    ensures UntypedSays(line, ip, host, parse, covers(line))
  {
    PlainReads(line, covers, ip, host, parse);
    forall t, h | line == t + Ascii(":") + h && ':' as int !in t && ip(line).None?
      ensures covers(line) <==> NameUnder(host, h, parse)
    {
      OtherReads(t, h, line, covers, ip, host, parse);
    }
  }

  lemma Reader(ip: ParseIp, host: Bytes, parse: ParseAddr) returns (covers: Bytes -> bool)
    ensures Reads(covers, ip, host, parse)
  {
    covers := l => LineCovers(l, ip, host, parse);
  }

  lemma OneLine(category: Bytes, line: Bytes, ip: ParseIp, host: Bytes, parse: ParseAddr, patterns: seq<Bytes>,
                covers: Bytes -> bool)
    requires Reads(covers, ip, host, parse)
    ensures Covered(Effects([AddRule(category, line)], ip), host, parse, Normalized(patterns)) <==>
            covers(line) && AtOrBelow(category, patterns)
  {
    assert covers(line) <==> LineCovers(line, ip, host, parse);
    OneCall(AddRule(category, line), ip, host, parse, category, RuleOf(line, ip), patterns);
  }

  /** One line, built, encoded, decoded, resolved and matched: for a category at or
      below a pattern the answer is what the line says of the host, and else no. */
  method ServeLine(category: Bytes, line: Bytes, epoch: nat, ip: ParseIp, sha: Sha, utf8: Utf8, patterns: seq<Bytes>,
                   host: Bytes, parse: ParseAddr)
      returns (r: Option<bool>)
    requires GoodParse(parse) && epoch < WORD_LIMIT && TextLaws(utf8) && utf8(category) && utf8(line)
    requires forall b :: IsBookOf(Run([AddRule(category, line)], epoch, ip), b) ==> SetCount(b) <= U32_LIMIT
    ensures r.Some? && AtOrBelow(category, patterns) ==> LineSays(line, ip, host, parse, r.value)
    ensures r.Some? && !AtOrBelow(category, patterns) ==> !r.value
  {
    r := BuildAndServe([AddRule(category, line)], epoch, ip, sha, utf8, patterns, host, parse);
    ghost var covers := Reader(ip, host, parse);
    OneLine(category, line, ip, host, parse, patterns, covers);
    LineMeaning(line, covers, ip, host, parse);
  }

  /** The calls that take a name of a fixed type. */
  lemma ExactCall(category: Bytes, h: Bytes, ip: ParseIp, host: Bytes, parse: ParseAddr, patterns: seq<Bytes>)
    ensures Covered(Effects([AddExact(category, h)], ip), host, parse, Normalized(patterns)) <==>
            NameIs(host, h, parse) && AtOrBelow(category, patterns)
  {
    OneCall(AddExact(category, h), ip, host, parse, category, ExactRule(h), patterns);
    ExactCovers(h, host, parse);
  }

  lemma SuffixCall(category: Bytes, h: Bytes, ip: ParseIp, host: Bytes, parse: ParseAddr, patterns: seq<Bytes>)
    ensures Covered(Effects([AddSuffix(category, h)], ip), host, parse, Normalized(patterns)) <==>
            NameUnder(host, h, parse) && AtOrBelow(category, patterns)
  {
    OneCall(AddSuffix(category, h), ip, host, parse, category, SuffixRule(h), patterns);
    SuffixCovers(h, host, parse);
  }

  lemma KeywordCall(category: Bytes, h: Bytes, ip: ParseIp, host: Bytes, parse: ParseAddr, patterns: seq<Bytes>)
    ensures Covered(Effects([AddKeyword(category, h)], ip), host, parse, Normalized(patterns)) <==>
            NameContains(host, h, parse) && AtOrBelow(category, patterns)
  {
    OneCall(AddKeyword(category, h), ip, host, parse, category, KeywordRule(h), patterns);
    KeywordCovers(h, host, parse);
  }

  lemma CategoryCall(category: Bytes, ip: ParseIp, host: Bytes, parse: ParseAddr, patterns: seq<Bytes>)
    ensures !Covered(Effects([AddCategory(category)], ip), host, parse, Normalized(patterns))
  {
    OneCall(AddCategory(category), ip, host, parse, category, Nothing, patterns);
  }

  /** A run covers what one of its calls covers. */
  lemma CallByCall(adds: seq<Add>, ip: ParseIp, host: Bytes, parse: ParseAddr, patterns: set<Bytes>)
    ensures Covered(Effects(adds, ip), host, parse, patterns) <==>
            exists add :: add in adds && Covered(Effects([add], ip), host, parse, patterns)
  {
    if Covered(Effects(adds, ip), host, parse, patterns) {
      var e, p :| e in Effects(adds, ip) && e.Registered? && RuleCovers(e.rule, host, parse) && p in patterns &&
                  Under(e.cat, p);
      var add :| add in adds && EffectOf(add, ip) == e;
      assert e in Effects([add], ip);
    }
    if add :| add in adds && Covered(Effects([add], ip), host, parse, patterns) {
      assert Effects([add], ip) == {EffectOf(add, ip)} && EffectOf(add, ip) in Effects(adds, ip);
    }
  }
}
