/** What the text operations mean, said of the bytes themselves: case, white space,
    trimming, containment, domains and paths. */
module Spelling {
  import Wrappers
  import opened Text
  import opened BookFormat
  import opened Rules

  /** The bytes of an ASCII literal. */
  function Ascii(s: string): (r: Bytes)
    requires forall i :: 0 <= i < |s| ==> s[i] < 128 as char
    ensures |r| == |s| && forall i :: 0 <= i < |s| ==> r[i] == s[i] as int
  {
    seq(|s|, i requires 0 <= i < |s| => s[i] as int)
  }

  // ----- case

  predicate IsUpper(b: byte) {
    'A' as int <= b <= 'Z' as int
  }

  /** Lowering replaces every capital letter by its small letter, and nothing else. */
  lemma LowerIs(s: Bytes, i: nat)
    requires i < |s|
    ensures |Lower(s)| == |s|
    ensures Lower(s)[i] == if IsUpper(s[i]) then s[i] - 'A' as int + 'a' as int else s[i]
  {
  }

  /** The same letter, in whatever case, or the same byte. */
  predicate SameLetter(a: byte, b: byte) {
    a == b || (IsUpper(a) && b == a - 'A' as int + 'a' as int) || (IsUpper(b) && a == b - 'A' as int + 'a' as int)
  }

  /** Equal byte by byte up to the case of letters. */
  predicate SameSpelling(s: Bytes, t: Bytes) {
    |s| == |t| && forall i :: 0 <= i < |s| ==> SameLetter(s[i], t[i])
  }

  lemma LowerIff(s: Bytes, t: Bytes)
    ensures Lower(s) == Lower(t) <==> SameSpelling(s, t)
  {
    if Lower(s) == Lower(t) {
      forall i | 0 <= i < |s| ensures SameLetter(s[i], t[i]) {
        LowerIs(s, i);
        LowerIs(t, i);
      }
    }
    if SameSpelling(s, t) {
      forall i | 0 <= i < |s| ensures Lower(s)[i] == Lower(t)[i] {
        LowerIs(s, i);
        LowerIs(t, i);
      }
    }
  }

  // ----- white space

  /** The UTF-8 bytes of a character of the basic multilingual plane. */
  function Utf8Of(code: nat): Bytes
    requires code < 0x1_0000
  {
    if code < 0x80 then [code]
    else if code < 0x800 then [0xC0 + code / 64, 0x80 + code % 64]
    else [0xE0 + code / 4096, 0x80 + code / 64 % 64, 0x80 + code % 64]
  }

  /** The characters with the Unicode property White_Space. */
  predicate WhiteSpace(code: nat) {
    || 0x9 <= code <= 0xD || code == 0x20 || code == 0x85 || code == 0xA0 || code == 0x1680
    || 0x2000 <= code <= 0x200A || code in {0x2028, 0x2029, 0x202F, 0x205F, 0x3000}
  }

  /** One white-space character is one of these, and each of these is one. */
  lemma SpaceIff(code: nat)
    requires code < 0x1_0000
    ensures SpaceAt(Utf8Of(code), 0) > 0 <==> WhiteSpace(code)
    ensures WhiteSpace(code) ==> SpaceAt(Utf8Of(code), 0) == |Utf8Of(code)|
  {
    if code >= 0x800 {
      var a, b, c := code / 4096, code / 64 % 64, code % 64;
      assert code == 4096 * a + 64 * b + c;
    } else if code >= 0x80 {
      var a, b := code / 64, code % 64;
      assert code == 64 * a + b;
    }
  }

  /** Whatever is trimmed off as one character is such a character. */
  lemma SpaceIsOne(s: Bytes, i: nat) returns (code: nat)
    requires i <= |s| && SpaceAt(s, i) > 0
    ensures code < 0x1_0000 && WhiteSpace(code) && s[i..i + SpaceAt(s, i)] == Utf8Of(code)
  {
    var k := SpaceAt(s, i);
    if k == 1 {
      code := s[i];
    } else if k == 2 {
      var x: int, y: int := s[i], s[i + 1];
      code := (x - 0xC0) * 64 + (y - 0x80);
    } else {
      var x: int, y: int, z: int := s[i], s[i + 1], s[i + 2];
      code := (x - 0xE0) * 4096 + (y - 0x80) * 64 + (z - 0x80);
    }
  }

  // ----- trimming

  /** Nothing but white space from `i` up to `n`. */
  predicate Spaces(s: Bytes, i: nat, n: nat)
    requires i <= n <= |s|
    decreases n - i
  {
    i == n || (SpaceAt(s, i) > 0 && i + SpaceAt(s, i) <= n && Spaces(s, i + SpaceAt(s, i), n))
  }

  predicate AllSpace(s: Bytes) {
    Spaces(s, 0, |s|)
  }

  /** No white space at the ends. */
  predicate Tidy(s: Bytes) {
    SpaceAt(s, 0) == 0 && SpaceBefore(s, |s|) == 0
  }

  lemma SpaceEnds(s: Bytes, i: nat)
    requires i <= |s| && SpaceAt(s, i) > 0
    ensures SpaceBefore(s, i + SpaceAt(s, i)) == SpaceAt(s, i)
    ensures i < |s| && (s[i] < 0x80 || s[i] >= 0xC0)
  {
  }

  lemma SpaceStarts(s: Bytes, n: nat)
    requires n <= |s| && SpaceBefore(s, n) > 0
    ensures SpaceAt(s, n - SpaceBefore(s, n)) == SpaceBefore(s, n)
  {
  }

  lemma {:induction false} StartSkips(s: Bytes, i: nat, n: nat)
    requires i <= n <= |s| && Spaces(s, i, n)
    ensures StartOf(s, i) == StartOf(s, n)
    decreases n - i
  {
    if i < n { StartSkips(s, i + SpaceAt(s, i), n); }
  }

  lemma {:induction false} EndSkips(s: Bytes, i: nat, n: nat)
    requires i <= n <= |s| && Spaces(s, i, n)
    ensures EndOf(s, n) == EndOf(s, i)
    decreases n - i
  {
    if i < n {
      SpaceEnds(s, i);
      EndSkips(s, i + SpaceAt(s, i), n);
    }
  }

  lemma {:induction false} SpacesWithin(a: Bytes, b: Bytes, c: Bytes, i: nat, n: nat)
    requires i <= n <= |b|
    ensures Spaces(b, i, n) ==> Spaces(a + b + c, |a| + i, |a| + n)
    decreases n - i
  {
    var s := a + b + c;
    assert forall j :: 0 <= j < |b| ==> s[|a| + j] == b[j];
    if i < n && Spaces(b, i, n) {
      var k := SpaceAt(b, i);
      assert s[|a| + i..|a| + i + k] == b[i..i + k];
      SpaceSame(b, i, s, |a| + i);
      SpacesWithin(a, b, c, i + k, n);
    }
  }

  /** A character is the same wherever it stands. */
  lemma SpaceSame(b: Bytes, i: nat, s: Bytes, j: nat)
    requires i <= |b| && SpaceAt(b, i) > 0 && j + SpaceAt(b, i) <= |s|
    requires s[j..j + SpaceAt(b, i)] == b[i..i + SpaceAt(b, i)]
    ensures SpaceAt(s, j) == SpaceAt(b, i)
  {
    var k := SpaceAt(b, i);
    var x, y := s[j..j + k], b[i..i + k];
    assert x[0] == y[0] && (k > 1 ==> x[1] == y[1]) && (k > 2 ==> x[2] == y[2]);
  }

  lemma {:induction false} EndPrefix(t: Bytes, b: Bytes, n: nat)
    requires n <= |t|
    ensures EndOf(t + b, n) == EndOf(t, n)
  {
    if SpaceBefore(t, n) > 0 { EndPrefix(t, b, n - SpaceBefore(t, n)); }
  }

  lemma TextStarts(a: Bytes, t: Bytes, b: Bytes)
    requires t != [] && SpaceAt(t, 0) == 0 && AllSpace(b)
    ensures SpaceAt(a + t + b, |a|) == 0
  {
    if b != [] { SpaceEnds(b, 0); }
    var s := a + t + b;
    assert s[|a|] == t[0] && (|t| > 1 ==> s[|a| + 1] == t[1]) && (|t| > 2 ==> s[|a| + 2] == t[2]);
    assert |t| == 1 && b != [] ==> s[|a| + 1] == b[0];
    assert |t| == 2 && b != [] ==> s[|a| + 2] == b[0];
  }

  lemma TrimStartIs(a: Bytes, t: Bytes, b: Bytes)
    requires AllSpace(a) && AllSpace(b) && SpaceAt(t, 0) == 0
    ensures TrimStart(a + t + b) == if t == [] then [] else t + b
  {
    var s := a + t + b;
    SpacesWithin([], a, t + b, 0, |a|);
    assert [] + a + (t + b) == s;
    StartSkips(s, 0, |a|);
    if t == [] {
      SpacesWithin(a, b, [], 0, |b|);
      assert a + b + [] == s;
      StartSkips(s, |a|, |s|);
    } else {
      TextStarts(a, t, b);
      assert s[|a|..] == t + b;
    }
  }

  lemma TrimEndIs(t: Bytes, b: Bytes)
    requires AllSpace(b) && SpaceBefore(t, |t|) == 0
    ensures TrimEnd(t + b) == t
  {
    SpacesWithin(t, b, [], 0, |b|);
    assert t + b + [] == t + b;
    EndSkips(t + b, |t|, |t + b|);
    EndPrefix(t, b, |t|);
  }

  /** Trimming takes white space off both ends, all of it and nothing else. */
  lemma TrimIs(a: Bytes, t: Bytes, b: Bytes)
    requires AllSpace(a) && AllSpace(b) && Tidy(t)
    ensures Trim(a + t + b) == t
  {
    TrimStartIs(a, t, b);
    if t != [] { TrimEndIs(t, b); }
  }

  lemma {:induction false} StartSpaces(s: Bytes, i: nat)
    requires i <= |s|
    ensures Spaces(s, i, StartOf(s, i)) && SpaceAt(s, StartOf(s, i)) == 0
    decreases |s| - i
  {
    if SpaceAt(s, i) > 0 { StartSpaces(s, i + SpaceAt(s, i)); }
  }

  lemma {:induction false} SpacesSnoc(s: Bytes, i: nat, j: nat)
    requires i <= j <= |s| && Spaces(s, i, j) && SpaceAt(s, j) > 0
    ensures Spaces(s, i, j + SpaceAt(s, j))
    decreases j - i
  {
    if i < j { SpacesSnoc(s, i + SpaceAt(s, i), j); }
  }

  lemma {:induction false} EndSpaces(s: Bytes, n: nat)
    requires n <= |s|
    ensures Spaces(s, EndOf(s, n), n) && SpaceBefore(s, EndOf(s, n)) == 0
  {
    var k := SpaceBefore(s, n);
    if k > 0 {
      EndSpaces(s, n - k);
      SpaceStarts(s, n);
      SpacesSnoc(s, EndOf(s, n), n - k);
    }
  }

  lemma {:induction false} SpacesSlice(s: Bytes, from: nat, i: nat, n: nat)
    requires from <= i <= n <= |s| && Spaces(s, i, n)
    ensures Spaces(s[from..n], i - from, n - from)
    decreases n - i
  {
    if i < n {
      var k := SpaceAt(s, i);
      assert s[from..n][i - from..i - from + k] == s[i..i + k];
      SpaceSame(s, i, s[from..n], i - from);
      SpacesSlice(s, from, i + SpaceAt(s, i), n);
    }
  }

  lemma TrimStartParts(s: Bytes) returns (a: Bytes)
    ensures s == a + TrimStart(s) && AllSpace(a) && SpaceAt(TrimStart(s), 0) == 0
  {
    var i := StartOf(s, 0);
    a := s[..i];
    StartSpaces(s, 0);
    SpacesSlice(s, 0, 0, i);
    assert s[0..i] == a;
    assert SpaceAt(s[i..], 0) == SpaceAt(s, i);
  }

  lemma TrimEndParts(s: Bytes) returns (b: Bytes)
    ensures s == TrimEnd(s) + b && AllSpace(b) && SpaceBefore(TrimEnd(s), |TrimEnd(s)|) == 0
  {
    var n := EndOf(s, |s|);
    b := s[n..];
    EndSpaces(s, |s|);
    SpacesSlice(s, n, n, |s|);
    assert s[n..|s|] == b;
    assert SpaceBefore(s[..n], n) == SpaceBefore(s, n);
  }

  lemma NoSpaceBefore(t: Bytes, b: Bytes)
    requires SpaceAt(t + b, 0) == 0
    ensures SpaceAt(t, 0) == 0
  {
    assert forall i :: 0 <= i < |t| ==> (t + b)[i] == t[i];
  }

  /** And there is always such a way to take the text apart. */
  lemma TrimParts(s: Bytes) returns (a: Bytes, b: Bytes)
    ensures s == a + Trim(s) + b && AllSpace(a) && AllSpace(b) && Tidy(Trim(s))
  {
    a := TrimStartParts(s);
    b := TrimEndParts(TrimStart(s));
    NoSpaceBefore(Trim(s), b);
  }

  // ----- trimming one byte

  predicate AllOf(s: Bytes, c: byte) {
    forall i :: 0 <= i < |s| ==> s[i] == c
  }

  predicate NotAtEnds(s: Bytes, c: byte) {
    s != [] ==> s[0] != c && s[|s| - 1] != c
  }

  lemma {:induction false} TrimByteStartIs(a: Bytes, t: Bytes, c: byte)
    requires AllOf(a, c) && (t != [] ==> t[0] != c)
    ensures TrimByteStart(a + t, c) == t
  {
    if a == [] {
      assert a + t == t;
    } else {
      assert (a + t)[1..] == a[1..] + t;
      TrimByteStartIs(a[1..], t, c);
    }
  }

  lemma {:induction false} TrimByteEndIs(t: Bytes, b: Bytes, c: byte)
    requires AllOf(b, c) && (t != [] ==> t[|t| - 1] != c)
    ensures TrimByteEnd(t + b, c) == t
    decreases |b|
  {
    if b == [] {
      assert t + b == t;
    } else {
      assert (t + b)[..|t + b| - 1] == t + b[..|b| - 1];
      TrimByteEndIs(t, b[..|b| - 1], c);
    }
  }

  /** All of the byte goes from both ends, and nothing else. */
  lemma TrimByteIs(a: Bytes, t: Bytes, b: Bytes, c: byte)
    requires AllOf(a, c) && AllOf(b, c) && NotAtEnds(t, c)
    ensures TrimByte(a + t + b, c) == t
  {
    if t == [] {
      assert a + t + b == (a + b) + [];
      TrimByteStartIs(a + b, [], c);
    } else {
      assert a + t + b == a + (t + b);
      TrimByteStartIs(a, t + b, c);
      TrimByteEndIs(t, b, c);
    }
  }

  /** A host name within white space and dots is normalised to its lowered letters. */
  lemma NormalizeDomainIs(a: Bytes, d: Bytes, t: Bytes, e: Bytes, b: Bytes)
    requires AllSpace(a) && AllSpace(b) && Tidy(d + t + e)
    requires AllOf(d, '.' as int) && AllOf(e, '.' as int) && NotAtEnds(t, '.' as int)
    ensures NormalizeDomain(a + (d + t + e) + b) == Lower(t)
  {
    TrimIs(a, d + t + e, b);
    TrimByteIs(d, t, e, '.' as int);
  }

  lemma NormalizeCategoryIs(a: Bytes, d: Bytes, t: Bytes, e: Bytes, b: Bytes)
    requires AllSpace(a) && AllSpace(b) && Tidy(d + t + e)
    requires AllOf(d, '/' as int) && AllOf(e, '/' as int) && NotAtEnds(t, '/' as int)
    ensures NormalizeCategory(a + (d + t + e) + b) == Lower(t)
  {
    TrimIs(a, d + t + e, b);
    TrimByteIs(d, t, e, '/' as int);
  }

  // ----- containment, domains, paths

  lemma ContainsIff(s: Bytes, sub: Bytes)
    ensures Contains(s, sub) <==> exists a, b :: s == a + sub + b
  {
    if Contains(s, sub) {
      var i :| 0 <= i <= |s| - |sub| && sub <= s[i..];
      assert s == s[..i] + sub + s[i + |sub|..];
    }
    if a, b :| s == a + sub + b { assert sub <= s[|a|..]; }
  }

  lemma UnderDomainIff(name: Bytes, d: Bytes)
    ensures UnderDomain(name, d) <==> name == d || exists a :: name == a + Ascii(".") + d
  {
    if UnderDomain(name, d) && name != d {
      var k := |name| - |d| - 1;
      assert name == name[..k] + name[k..];
      assert name == name[..k] + Ascii(".") + d;
    }
    if a :| name == a + Ascii(".") + d { assert name[|a|..] == [DOT] + d; }
  }

  lemma AncestorsIff(path: Bytes, a: Bytes)
    ensures a in Ancestors(path) <==> a == path || exists b :: path == a + Ascii("/") + b
  {
    if a in Ancestors(path) && a != path {
      var i :| 0 <= i < |path| && path[i] == SLASH && a == path[..i];
      assert path == a + Ascii("/") + path[i + 1..];
    }
    if a == path { assert path[..|path|] == path; }
    if b :| path == a + Ascii("/") + b { assert path[|a|] == SLASH && path[..|a|] == a; }
  }

  /** A byte that may stand in a category path. */
  predicate PathLetter(c: byte) {
    'a' as int <= c <= 'z' as int || '0' as int <= c <= '9' as int || c in Ascii("-_.@!")
  }

  /** Path letters and slashes, no slash at the ends and no two in a row. */
  predicate WellFormedPath(p: Bytes) {
    && p != [] && (forall i :: 0 <= i < |p| ==> PathLetter(p[i]) || p[i] == '/' as int)
    && p[0] != '/' as int && p[|p| - 1] != '/' as int
    && forall i :: 0 <= i < |p| - 1 ==> !(p[i] == '/' as int && p[i + 1] == '/' as int)
  }

  lemma PathByteIff(c: byte)
    ensures IsPathByte(c) <==> PathLetter(c)
  {
    var s := Ascii("-_.@!");
    assert s == [45, 95, 46, 64, 33];
  }

  lemma SegmentIff(seg: Bytes)
    ensures ValidSegment(seg) <==> seg != [] && forall i :: 0 <= i < |seg| ==> PathLetter(seg[i])
  {
    forall i | 0 <= i < |seg| { PathByteIff(seg[i]); }
  }

  lemma SlashIsNoLetter()
    ensures !PathLetter(SLASH)
  {
    PathByteIff(SLASH);
  }

  lemma WellFormedSplits(p: Bytes, i: nat)
    requires i < |p| && p[i] == SLASH && SLASH !in p[..i]
    ensures WellFormedPath(p) <==> ValidSegment(p[..i]) && WellFormedPath(p[i + 1..])
  {
    var x, y := p[..i], p[i + 1..];
    SegmentIff(x);
    SlashIsNoLetter();
    assert p == x + [SLASH] + y;
    assert forall k :: 0 <= k < i ==> p[k] == x[k];
    assert forall k :: 0 <= k < |y| ==> p[i + 1 + k] == y[k];
    if WellFormedPath(p) {
      assert i > 0 && y != [] && y[0] != SLASH;
      forall k | 0 <= k < |x| ensures PathLetter(x[k]) { assert p[k] in p[..i]; }
    }
    if ValidSegment(x) && WellFormedPath(y) {
      forall k | 0 <= k < |p| - 1 ensures !(p[k] == SLASH && p[k + 1] == SLASH) {
        if k > i { assert p[k] == y[k - i - 1] && p[k + 1] == y[k - i]; }
        if k < i { assert p[k] in p[..i]; }
      }
      forall k | 0 <= k < |p| ensures PathLetter(p[k]) || p[k] == SLASH {
        if k > i { assert p[k] == y[k - i - 1]; }
      }
    }
  }

  /** The paths that `add_category` admits. */
  lemma {:induction false} ValidPathIff(p: Bytes)
    ensures ValidPath(p) <==> WellFormedPath(p)
    decreases |p|
  {
    var i := IndexOf(p, SLASH);
    if i == |p| {
      assert p[..i] == p && Split(p, SLASH) == [p];
      SegmentIff(p);
      forall k | 0 <= k < |p| ensures p[k] != SLASH { assert p[k] in p; }
    } else {
      var y := p[i + 1..];
      ValidPathIff(y);
      WellFormedSplits(p, i);
      assert Split(p, SLASH) == [p[..i]] + Split(y, SLASH);
      assert forall seg :: seg in Split(p, SLASH) <==> seg == p[..i] || seg in Split(y, SLASH);
    }
  }

  lemma CategoryOfIff(path: Bytes, c: Bytes)
    ensures CategoryOf(path) == Wrappers.Some(c) <==> c == NormalizeCategory(path) && WellFormedPath(c)
  {
    ValidPathIff(NormalizeCategory(path));
  }

  lemma {:induction false} TrimByteStartShort(s: Bytes, c: byte)
    ensures |TrimByteStart(s, c)| <= |s| && (|TrimByteStart(s, c)| == |s| ==> TrimByteStart(s, c) == s)
  {
    if s != [] && s[0] == c { TrimByteStartShort(s[1..], c); }
  }

  lemma {:induction false} TrimByteEndShort(s: Bytes, c: byte)
    ensures |TrimByteEnd(s, c)| <= |s| && (|TrimByteEnd(s, c)| == |s| ==> TrimByteEnd(s, c) == s)
  {
    if s != [] && s[|s| - 1] == c { TrimByteEndShort(s[..|s| - 1], c); }
  }

  lemma TrimByteShort(s: Bytes, c: byte)
    ensures |TrimByte(s, c)| <= |s| && (|TrimByte(s, c)| == |s| ==> TrimByte(s, c) == s)
  {
    TrimByteStartShort(s, c);
    TrimByteEndShort(TrimByteStart(s, c), c);
  }

  lemma Middle(s: Bytes, a: Bytes, t: Bytes, b: Bytes)
    requires s == a + t + b
    ensures |t| <= |s| && (|t| == |s| ==> t == s)
  {
    if |t| == |s| { assert a + t + b == t; }
  }

  lemma TrimShort(s: Bytes)
    ensures |Trim(s)| <= |s| && (|Trim(s)| == |s| ==> Trim(s) == s)
  {
    var a, b := TrimParts(s);
    Middle(s, a, Trim(s), b);
  }

  /** Trimming that takes nothing off leaves the text as it is. */
  lemma TrimmedShort(s: Bytes, t: Bytes, c: byte)
    requires t == Trim(s) && |TrimByte(t, c)| == |s|
    ensures TrimByte(t, c) == s
  {
    TrimShort(s);
    TrimByteShort(t, c);
  }

  lemma LowerHasNoUpper(s: Bytes)
    ensures HasUpper(s) <==> Lower(s) != s
  {
    if i :| 0 <= i < |s| && 65 <= s[i] <= 90 { LowerIs(s, i); }
    if !HasUpper(s) {
      forall i | 0 <= i < |s| ensures Lower(s)[i] == s[i] { LowerIs(s, i); }
    }
  }

  /** The texts that validation admits are those that normalising leaves alone. */
  lemma NormalizedIff(t: Bytes)
    ensures IsNormalized(t) <==> NormalizeDomain(t) == t
  {
    var u := TrimByte(Trim(t), DOT);
    if NormalizeDomain(t) == t {
      assert |Lower(u)| == |u|;
      TrimmedShort(t, Trim(t), DOT);
    }
    LowerHasNoUpper(t);
  }
}
