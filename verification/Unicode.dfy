/** UTF-8 text: what well-formed byte strings are closed under, and that the UTF-8
    of RFC 3629 has these laws. */
module Unicode {
  import opened Text
  import opened Rules

  /** A byte inside a character. */
  predicate Continues(x: byte) {
    0x80 <= x < 0xC0
  }

  /** One white-space character. */
  predicate IsSpace(w: Bytes) {
    0 < |w| == SpaceAt(w, 0)
  }

  /** The laws of well-formed text: ASCII and white space are text, joined text is text,
      and text may be cut where a character starts. */
  ghost predicate TextLaws(text: Bytes -> bool) {
    && (forall x: byte :: x < 0x80 ==> text([x])) && (forall w: Bytes :: IsSpace(w) ==> text(w))
    && (forall a: Bytes, b: Bytes {:trigger a + b} :: text(a) && text(b) ==> text(a + b))
    && (forall a: Bytes, b: Bytes {:trigger a + b} :: text(a) && text(a + b) ==> text(b))
    && (forall a: Bytes, b: Bytes {:trigger a + b} :: text(a + b) && b != [] && !Continues(b[0]) ==> text(a))
    && (forall s: Bytes {:trigger Lower(s)} :: text(s) ==> text(Lower(s)))
  }

  lemma EmptyIsText(text: Bytes -> bool)
    requires TextLaws(text)
    ensures text([])
  {
    var x: Bytes := [0];
    assert text(x);
    assert x + [] == x;
  }

  lemma {:induction false} AsciiIsText(s: Bytes, text: Bytes -> bool)
    requires TextLaws(text) && forall i :: 0 <= i < |s| ==> s[i] < 0x80
    ensures text(s)
  {
    if s == [] {
      EmptyIsText(text);
    } else {
      AsciiIsText(s[1..], text);
      assert s == [s[0]] + s[1..];
    }
  }

  /** Both sides of an ASCII byte are text. */
  lemma AroundAscii(s: Bytes, i: nat, text: Bytes -> bool)
    requires TextLaws(text) && text(s) && i < |s| && s[i] < 0x80
    ensures text(s[..i]) && text(s[i + 1..])
  {
    assert s == s[..i] + s[i..] && s[i..][0] == s[i];
    assert text(s[..i]) && text([s[i]]);
    assert text(s[..i] + [s[i]]);
    assert s == (s[..i] + [s[i]]) + s[i + 1..];
  }

  lemma PastPrefix(p: Bytes, s: Bytes, text: Bytes -> bool)
    requires TextLaws(text) && text(s) && p <= s && forall i :: 0 <= i < |p| ==> p[i] < 0x80
    ensures text(s[|p|..])
  {
    AsciiIsText(p, text);
    assert s == p + s[|p|..];
  }

  // ----- what the builder does to text

  lemma SpaceStarts(s: Bytes, i: nat)
    requires i <= |s| && SpaceAt(s, i) > 0
    ensures i < |s| && !Continues(s[i]) && IsSpace(s[i..i + SpaceAt(s, i)])
  {
  }

  lemma SpaceEnds(s: Bytes, n: nat)
    requires n <= |s| && SpaceBefore(s, n) > 0
    ensures SpaceAt(s, n - SpaceBefore(s, n)) == SpaceBefore(s, n)
  {
  }

  lemma {:induction false} StartText(s: Bytes, i: nat, text: Bytes -> bool)
    requires TextLaws(text) && i <= |s| && text(s[i..])
    ensures text(s[StartOf(s, i)..])
    decreases |s| - i
  {
    var k := SpaceAt(s, i);
    if k > 0 {
      SpaceStarts(s, i);
      assert s[i..] == s[i..i + k] + s[i + k..];
      StartText(s, i + k, text);
    }
  }

  lemma {:induction false} EndText(s: Bytes, n: nat, text: Bytes -> bool)
    requires TextLaws(text) && n <= |s| && text(s[..n])
    ensures text(s[..EndOf(s, n)])
  {
    var k := SpaceBefore(s, n);
    if k > 0 {
      SpaceEnds(s, n);
      SpaceStarts(s, n - k);
      assert s[..n] == s[..n - k] + s[n - k..n] && s[n - k..n][0] == s[n - k];
      EndText(s, n - k, text);
    }
  }

  lemma TrimText(s: Bytes, text: Bytes -> bool)
    requires TextLaws(text) && text(s)
    ensures text(Trim(s))
  {
    var t := TrimStart(s);
    assert s[0..] == s && t[..|t|] == t;
    StartText(s, 0, text);
    EndText(t, |t|, text);
  }

  lemma {:induction false} TrimByteStartText(s: Bytes, c: byte, text: Bytes -> bool)
    requires TextLaws(text) && text(s) && c < 0x80
    ensures text(TrimByteStart(s, c))
  {
    if s != [] && s[0] == c {
      AroundAscii(s, 0, text);
      TrimByteStartText(s[1..], c, text);
    }
  }

  lemma {:induction false} TrimByteEndText(s: Bytes, c: byte, text: Bytes -> bool)
    requires TextLaws(text) && text(s) && c < 0x80
    ensures text(TrimByteEnd(s, c))
  {
    if s != [] && s[|s| - 1] == c {
      AroundAscii(s, |s| - 1, text);
      TrimByteEndText(s[..|s| - 1], c, text);
    }
  }

  lemma TrimByteText(s: Bytes, c: byte, text: Bytes -> bool)
    requires TextLaws(text) && text(s) && c < 0x80
    ensures text(TrimByte(s, c))
  {
    TrimByteStartText(s, c, text);
    TrimByteEndText(TrimByteStart(s, c), c, text);
  }

  lemma NormalizedText(s: Bytes, text: Bytes -> bool)
    requires TextLaws(text) && text(s)
    ensures text(NormalizeDomain(s)) && text(NormalizeCategory(s))
  {
    TrimText(s, text);
    TrimByteText(Trim(s), DOT, text);
    TrimByteText(Trim(s), SLASH, text);
  }

  lemma {:induction false} SplitText(s: Bytes, c: byte, text: Bytes -> bool)
    requires TextLaws(text) && text(s) && c < 0x80
    ensures forall p :: p in Split(s, c) ==> text(p)
    decreases |s|
  {
    var i := IndexOf(s, c);
    if i < |s| {
      AroundAscii(s, i, text);
      SplitText(s[i + 1..], c, text);
    }
  }

  lemma {:induction false} JoinText(parts: seq<Bytes>, c: byte, text: Bytes -> bool)
    requires TextLaws(text) && c < 0x80 && forall p :: p in parts ==> text(p)
    ensures text(Join(parts, c))
  {
    if parts == [] {
      EmptyIsText(text);
    } else if |parts| > 1 {
      JoinText(parts[1..], c, text);
      assert text(parts[0]) && text([c]);
      assert text(parts[0] + [c]);
      assert Join(parts, c) == (parts[0] + [c]) + Join(parts[1..], c);
    }
  }

  lemma ReverseLabelsText(d: Bytes, text: Bytes -> bool)
    requires TextLaws(text) && text(d)
    ensures text(ReverseLabels(d))
  {
    SplitText(d, DOT, text);
    JoinText(Reverse(Split(d, DOT)), DOT, text);
  }

  // ----- the calls

  /** The strings of a call are text. */
  predicate CallText(add: Add, text: Bytes -> bool) {
    match add
    case AddCategory(path) => text(path)
    case AddRule(category, rule) => text(category) && text(rule)
    case AddSuffix(category, host) => text(category) && text(host)
    case AddExact(category, host) => text(category) && text(host)
    case AddKeyword(category, fragment) => text(category) && text(fragment)
  }

  predicate RuleText(rule: Rule, text: Bytes -> bool) {
    rule.Exact? || rule.Suffix? || rule.Keyword? ==> text(rule.name)
  }

  lemma SuffixRuleText(host: Bytes, text: Bytes -> bool)
    requires TextLaws(text) && text(host)
    ensures RuleText(SuffixRule(host), text)
  {
    NormalizedText(host, text);
    if WILDCARD_PREFIX <= NormalizeDomain(host) { PastPrefix(WILDCARD_PREFIX, NormalizeDomain(host), text); }
  }

  lemma LineRuleText(r: Bytes, parse: ParseIp, text: Bytes -> bool)
    requires TextLaws(text) && text(r)
    ensures RuleText(LineRule(r, parse), text)
  {
    if FULL_PREFIX <= r {
      PastPrefix(FULL_PREFIX, r, text);
      NormalizedText(r[|FULL_PREFIX|..], text);
    } else if KEYWORD_PREFIX <= r {
      PastPrefix(KEYWORD_PREFIX, r, text);
      NormalizedText(r[|KEYWORD_PREFIX|..], text);
    } else if DOMAIN_PREFIX <= r {
      PastPrefix(DOMAIN_PREFIX, r, text);
      SuffixRuleText(r[|DOMAIN_PREFIX|..], text);
    } else {
      var i := IndexOf(r, COLON);
      if i < |r| { AroundAscii(r, i, text); }
      SuffixRuleText(if i == |r| then r else r[i + 1..], text);
    }
  }

  /** What a call registers is text if its strings are. */
  lemma EffectText(add: Add, parse: ParseIp, text: Bytes -> bool)
    requires TextLaws(text) && CallText(add, text)
    ensures var e := EffectOf(add, parse); e.Registered? ==> text(e.cat) && RuleText(e.rule, text)
  {
    match add
    case AddCategory(path) => NormalizedText(path, text);
    case AddRule(category, rule) =>
      NormalizedText(category, text);
      TrimText(rule, text);
      LineRuleText(Trim(rule), parse, text);
    case AddSuffix(category, host) =>
      NormalizedText(category, text);
      SuffixRuleText(host, text);
    case AddExact(category, host) =>
      NormalizedText(category, text);
      NormalizedText(host, text);
    case AddKeyword(category, fragment) =>
      NormalizedText(category, text);
      NormalizedText(fragment, text);
  }

  lemma AncestorText(path: Bytes, a: Bytes, text: Bytes -> bool)
    requires TextLaws(text) && text(path) && a in Ancestors(path)
    ensures text(a)
  {
    var i :| 0 <= i <= |path| && (i == |path| || path[i] == SLASH) && a == path[..i];
    if i == |path| {
      assert path[..i] == path;
    } else {
      AroundAscii(path, i, text);
    }
  }

  // ----- UTF-8

  /** The length of the character that starts the bytes, zero if none does: the table
      of section 4 of RFC 3629. */
  function CharLength(s: Bytes): (n: nat)
    ensures n <= |s|
  {
    if s == [] then 0
    else if s[0] < 0x80 then 1
    else if 0xC2 <= s[0] <= 0xDF then
      if |s| >= 2 && Continues(s[1]) then 2 else 0
    else if 0xE0 <= s[0] <= 0xEF then
      if |s| >= 3 && SecondFits(s[0], s[1]) && Continues(s[2]) then 3 else 0
    else if 0xF0 <= s[0] <= 0xF4 then
      if |s| >= 4 && SecondFits(s[0], s[1]) && Continues(s[2]) && Continues(s[3]) then 4 else 0
    else 0
  }

  /** No overlong forms, no surrogates, nothing above U+10FFFF. */
  predicate SecondFits(first: byte, second: byte) {
    && Continues(second)
    && (first == 0xE0 ==> second >= 0xA0) && (first == 0xED ==> second < 0xA0)
    && (first == 0xF0 ==> second >= 0x90) && (first == 0xF4 ==> second < 0x90)
  }

  predicate IsUtf8(s: Bytes) {
    s == [] || (CharLength(s) > 0 && IsUtf8(s[CharLength(s)..]))
  }

  /** More bytes do not change the first character. */
  lemma CharLengthStays(a: Bytes, b: Bytes)
    requires CharLength(a) > 0
    ensures CharLength(a + b) == CharLength(a)
  {
  }

  /** A character is what starts it and bytes that continue it. */
  lemma CharContinues(s: Bytes, i: nat)
    requires 0 < i < CharLength(s)
    ensures Continues(s[i])
  {
  }

  lemma CharWithin(a: Bytes, b: Bytes)
    requires 0 < CharLength(a + b) <= |a|
    ensures CharLength(a) == CharLength(a + b)
  {
    assert forall i :: 0 <= i < |a| ==> (a + b)[i] == a[i];
  }

  lemma {:induction false} Utf8Joins(a: Bytes, b: Bytes)
    requires IsUtf8(a)
    ensures IsUtf8(a + b) <==> IsUtf8(b)
    decreases |a|
  {
    if a == [] {
      assert a + b == b;
    } else {
      var n := CharLength(a);
      CharLengthStays(a, b);
      assert (a + b)[n..] == a[n..] + b;
      Utf8Joins(a[n..], b);
    }
  }

  lemma {:induction false} Utf8Cuts(a: Bytes, b: Bytes)
    requires IsUtf8(a + b) && b != [] && !Continues(b[0])
    ensures IsUtf8(a)
    decreases |a|
  {
    if a != [] {
      var n := CharLength(a + b);
      assert (a + b)[|a|] == b[0];
      if n > |a| { CharContinues(a + b, |a|); }
      CharWithin(a, b);
      assert (a + b)[n..] == a[n..] + b;
      Utf8Cuts(a[n..], b);
    }
  }

  lemma LowerCharLength(s: Bytes)
    ensures CharLength(Lower(s)) == CharLength(s)
  {
  }

  lemma {:induction false} LowerUtf8(s: Bytes)
    requires IsUtf8(s)
    ensures IsUtf8(Lower(s))
    decreases |s|
  {
    if s != [] {
      var n := CharLength(s);
      LowerCharLength(s);
      LowerUtf8(s[n..]);
      assert Lower(s)[n..] == Lower(s[n..]);
    }
  }

  lemma SpaceIsUtf8(w: Bytes)
    requires IsSpace(w)
    ensures IsUtf8(w)
  {
    assert CharLength(w) == |w| && w[|w|..] == [];
  }

  /** UTF-8 has the laws. */
  lemma Utf8Laws()
    ensures TextLaws(IsUtf8)
  {
    forall x: byte | x < 0x80 ensures IsUtf8([x]) { assert [x][1..] == []; }
    forall w: Bytes | IsSpace(w) ensures IsUtf8(w) { SpaceIsUtf8(w); }
    forall a: Bytes, b: Bytes {:trigger a + b} ensures IsUtf8(a) ==> (IsUtf8(a + b) <==> IsUtf8(b)) {
      if IsUtf8(a) { Utf8Joins(a, b); }
    }
    forall a: Bytes, b: Bytes {:trigger a + b} ensures IsUtf8(a + b) && b != [] && !Continues(b[0]) ==> IsUtf8(a) {
      if IsUtf8(a + b) && b != [] && !Continues(b[0]) { Utf8Cuts(a, b); }
    }
    forall s: Bytes {:trigger Lower(s)} ensures IsUtf8(s) ==> IsUtf8(Lower(s)) { if IsUtf8(s) { LowerUtf8(s); } }
  }
}
