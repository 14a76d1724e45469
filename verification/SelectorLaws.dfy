/** What the selector lines of a route say of a host, line by line. */
module SelectorLaws {
  import opened Wrappers
  import opened Text
  import opened BookFormat
  import opened Addresses
  import opened Rules
  import opened Queries
  import opened RuleSets
  import opened Spelling
  import opened HostNames

  /** The line, read as a selector, hits the host. */
  ghost predicate LineHits(line: Bytes, book: Option<RawBook>, host: Bytes, parse: ParseAddr, ip: ParseIp) {
    Hits(SelectorOf(line, ip), book, host, parse)
  }

  /** The types of a line are told apart before its address is. */
  predicate NotBook(line: Bytes) {
    line != [] && !(Ascii("book:") <= line)
  }

  lemma TidyTrim(line: Bytes)
    requires Tidy(line)
    ensures Trim(line) == line
  {
    assert [] + line + [] == line;
    TrimIs([], line, []);
  }

  lemma TrimTwice(h: Bytes)
    ensures Trim(Trim(h)) == Trim(h)
  {
    var a, b := TrimParts(h);
    TidyTrim(Trim(h));
  }

  lemma SelectorOfTidy(a: Bytes, line: Bytes, b: Bytes, ip: ParseIp)
    requires AllSpace(a) && AllSpace(b) && Tidy(line)
    ensures SelectorOf(a + line + b, ip) == TrimmedSelector(line, ip)
  {
    TrimIs(a, line, b);
  }

  lemma TidySelector(line: Bytes, ip: ParseIp)
    requires Tidy(line)
    ensures SelectorOf(line, ip) == TrimmedSelector(line, ip)
  {
    assert [] + line + [] == line;
    SelectorOfTidy([], line, [], ip);
  }

  lemma DomainSelectorIs(h: Bytes, d: Bytes)
    requires d == WithoutStar(NormalizeDomain(h))
    ensures DomainSelector(h) == if d == [] then Selector.Blank else DomainOf(d)
  {
    StarIs(NormalizeDomain(h));
  }

  lemma DomainOfHits(d: Bytes, book: Option<RawBook>, host: Bytes, parse: ParseAddr)
    ensures Hits(DomainOf(d), book, host, parse) <==>
            && parse(host).None? && NormalizeDomain(host) != []
            && (NormalizeDomain(host) == d || exists a :: NormalizeDomain(host) == a + Ascii(".") + d)
  {
    UnderDomainIff(NormalizeDomain(host), d);
  }

  lemma DomainHits(h: Bytes, book: Option<RawBook>, host: Bytes, parse: ParseAddr)
    ensures Hits(DomainSelector(h), book, host, parse) <==> NameUnder(host, h, parse)
  {
    var d := WithoutStar(NormalizeDomain(h));
    DomainSelectorIs(h, d);
    DomainOfHits(d, book, host, parse);
  }

  lemma KeywordHits(h: Bytes, book: Option<RawBook>, host: Bytes, parse: ParseAddr)
    requires NormalizeDomain(h) != []
    ensures Hits(KeywordIn(NormalizeDomain(h)), book, host, parse) <==> NameContains(host, h, parse)
  {
    ContainsIff(NormalizeDomain(host), NormalizeDomain(h));
  }

  /** "book:" hits the hosts in a category at or below the path. */
  lemma BookLine(h: Bytes, book: Option<RawBook>, host: Bytes, parse: ParseAddr, ip: ParseIp)
    requires SpaceBefore(h, |h|) == 0
    ensures LineHits(Ascii("book:") + h, book, host, parse, ip) <==>
            book.Some? && InCategory(book.value, host, parse, NormalizeCategory(h))
  {
    assert Ascii("book:") == BOOK_PREFIX;
    var line := BOOK_PREFIX + h;
    TypedIsTidy(BOOK_PREFIX, h);
    TidySelector(line, ip);
    assert line[|BOOK_PREFIX|..] == h;
    assert TrimmedSelector(line, ip) == InBook(Trim(h));
    TrimTwice(h);
  }

  /** An address or network hits exactly its addresses, each in its own family. */
  lemma AddressLineHits(line: Bytes, book: Option<RawBook>, host: Bytes, parse: ParseAddr, ip: ParseIp)
    requires Tidy(line) && NotBook(line) && ip(line).Some?
    ensures LineHits(line, book, host, parse, ip) <==>
            var r := ip(line).value;
            parse(host).Some? && r.v4 == parse(host).value.V4? && r.lo <= parse(host).value.n <= r.hi
  {
    assert Ascii("book:") == BOOK_PREFIX;
    TidySelector(line, ip);
  }

  /** What is left of a line once the type before its first colon is known. */
  lemma Typed(t: Bytes, h: Bytes, line: Bytes, ip: ParseIp)
    requires line == t + [COLON] + h && COLON !in t && !(BOOK_PREFIX <= line) && ip(line).None?
    ensures TrimmedSelector(line, ip) ==
            if t == FULL then FullName(NormalizeDomain(h))
            else if t == KEYWORD then
              if NormalizeDomain(h) == [] then Selector.Blank else KeywordIn(NormalizeDomain(h))
            else DomainSelector(h)
  {
    IndexOfIn(t, COLON, h);
    assert line[..|t|] == t && line[|t| + 1..] == h;
  }

  /** "full:" hits the one name, "keyword:" the names that contain the fragment, and any
      other type the domain and its subdomains. */
  lemma TypedLineHits(t: Bytes, h: Bytes, book: Option<RawBook>, host: Bytes, parse: ParseAddr, ip: ParseIp)
    requires ':' as int !in t
    requires var line := t + Ascii(":") + h; Tidy(line) && NotBook(line) && ip(line).None?
    ensures LineHits(t + Ascii(":") + h, book, host, parse, ip) <==>
            if t == Ascii("full") then NameIs(host, h, parse)
            else if t == Ascii("keyword") then NameContains(host, h, parse)
            else NameUnder(host, h, parse)
  {
    var line := t + Ascii(":") + h;
    assert Ascii(":") == [COLON] && Ascii("full") == FULL && Ascii("keyword") == KEYWORD;
    assert Ascii("book:") == BOOK_PREFIX;
    TidySelector(line, ip);
    Typed(t, h, line, ip);
    DomainHits(h, book, host, parse);
    if NormalizeDomain(h) != [] { KeywordHits(h, book, host, parse); }
  }

  /** A line without a type is a domain. */
  lemma PlainLineHits(line: Bytes, book: Option<RawBook>, host: Bytes, parse: ParseAddr, ip: ParseIp)
    requires Tidy(line) && NotBook(line) && ip(line).None? && ':' as int !in line
    ensures LineHits(line, book, host, parse, ip) <==> NameUnder(host, line, parse)
  {
    assert Ascii("book:") == BOOK_PREFIX;
    TidySelector(line, ip);
    assert IndexOf(line, COLON) == |line|;
    DomainHits(line, book, host, parse);
  }

  /** Space around a line does not matter, and a line of nothing else hits nothing. */
  lemma SpaceAround(a: Bytes, line: Bytes, b: Bytes, book: Option<RawBook>, host: Bytes, parse: ParseAddr, ip: ParseIp)
    requires AllSpace(a) && AllSpace(b) && Tidy(line)
    ensures LineHits(a + line + b, book, host, parse, ip) <==> LineHits(line, book, host, parse, ip)
  {
    SelectorOfTidy(a, line, b, ip);
    TidySelector(line, ip);
  }

  lemma SpaceHits(a: Bytes, book: Option<RawBook>, host: Bytes, parse: ParseAddr, ip: ParseIp)
    requires AllSpace(a)
    ensures !LineHits(a, book, host, parse, ip)
  {
    assert a + [] + [] == a;
    SelectorOfTidy(a, [], [], ip);
  }
}
