/** Rust strings as their UTF-8 bytes: order, trimming, splitting, label
    reversal. */
module Text {
  import Orders

  type byte = x: int | 0 <= x < 256

  type Bytes = seq<byte>

  const DOT: byte := 46
  const SLASH: byte := 47
  const ZERO: byte := 48
  const COLON: byte := 58

  // ----- byte-wise order

  predicate Less(a: Bytes, b: Bytes) {
    if b == [] then false
    else if a == [] then true
    else a[0] < b[0] || (a[0] == b[0] && Less(a[1..], b[1..]))
  }

  lemma {:induction false} LessTransitive(a: Bytes, b: Bytes, c: Bytes)
    requires Less(a, b) && Less(b, c)
    ensures Less(a, c)
  {
    if a != [] && a[0] == b[0] == c[0] { LessTransitive(a[1..], b[1..], c[1..]); }
  }

  lemma {:induction false} LessConnected(a: Bytes, b: Bytes)
    ensures Less(a, b) || a == b || Less(b, a)
    ensures !(Less(a, b) && Less(b, a))
  {
    if a != [] && b != [] && a[0] == b[0] {
      LessConnected(a[1..], b[1..]);
      assert a == [a[0]] + a[1..] && b == [b[0]] + b[1..];
    }
  }

  lemma LessIsTotalOrder()
    ensures Orders.TotalOrder(Less)
  {
    forall a, b ensures (Less(a, b) || a == b || Less(b, a)) && !(Less(a, b) && Less(b, a)) {
      LessConnected(a, b);
    }
    forall a, b, c | Less(a, b) && Less(b, c) ensures Less(a, c) { LessTransitive(a, b, c); }
  }

  function SortedTexts(s: set<Bytes>): seq<Bytes> {
    LessIsTotalOrder();
    Orders.SortedSeq(s, Less)
  }

  ghost predicate Ascending(xs: seq<Bytes>) {
    forall i, j :: 0 <= i < j < |xs| ==> Less(xs[i], xs[j])
  }

  lemma SortedTextsSpec(s: set<Bytes>)
    ensures Ascending(SortedTexts(s)) && |SortedTexts(s)| == |s|
    ensures forall x :: x in SortedTexts(s) <==> x in s
  {
  }

  lemma {:induction false} LessWithinPrefix(p: Bytes, a: Bytes, b: Bytes)
    ensures Less(p + a, p + b) <==> Less(a, b)
  {
    if p == [] {
      assert p + a == a && p + b == b;
    } else {
      assert (p + a)[1..] == p[1..] + a && (p + b)[1..] == p[1..] + b;
      LessWithinPrefix(p[1..], a, b);
    }
  }

  /** The strings from `p + [c]` up to, not including, `p + [c + 1]` are exactly
      those that start with `p + [c]`. */
  lemma {:induction false} PrefixIsRange(p: Bytes, c: byte, x: Bytes)
    requires c < 255
    ensures !Less(x, p + [c]) && Less(x, p + [c + 1]) <==> p + [c] <= x
  {
    if p == [] {
      assert p + [c] == [c] && p + [c + 1] == [c + 1];
      if x != [] {
        assert [c][1..] == [] && [c + 1][1..] == [];
        assert [c] <= x <==> x[0] == c;
      }
    } else if x != [] {
      assert (p + [c])[1..] == p[1..] + [c] && (p + [c + 1])[1..] == p[1..] + [c + 1];
      PrefixIsRange(p[1..], c, x[1..]);
      if x[0] == p[0] {
        assert p + [c] <= x <==> p[1..] + [c] <= x[1..] by {
          if p[1..] + [c] <= x[1..] { assert x == [x[0]] + x[1..]; }
        }
      }
    }
  }

  // ----- trimming and case

  predicate IsLowerAlnum(b: byte) {
    97 <= b <= 122 || 48 <= b <= 57
  }

  function LowerByte(b: byte): byte {
    if 65 <= b <= 90 then b + 32 else b
  }

  /** `to_ascii_lowercase` */
  function Lower(s: Bytes): (r: Bytes)
    ensures |r| == |s|
  {
    seq(|s|, i requires 0 <= i < |s| => LowerByte(s[i]))
  }

  predicate HasUpper(s: Bytes) {
    exists i :: 0 <= i < |s| && 65 <= s[i] <= 90
  }

  /** The three bytes are a character with the Unicode White_Space property. */
  predicate IsWideSpace(x: byte, y: byte, z: byte) {
    || (x == 0xE1 && y == 0x9A && z == 0x80)
    || (x == 0xE2 && y == 0x80 && (0x80 <= z <= 0x8A || z == 0xA8 || z == 0xA9 || z == 0xAF))
    || (x == 0xE2 && y == 0x81 && z == 0x9F)
    || (x == 0xE3 && y == 0x80 && z == 0x80)
  }

  /** The length of the white-space character at `i`, in UTF-8; zero if there is none. */
  function SpaceAt(s: Bytes, i: nat): (k: nat)
    requires i <= |s|
    ensures i + k <= |s|
  {
    if i < |s| && (9 <= s[i] <= 13 || s[i] == 32) then 1
    else if i + 1 < |s| && s[i] == 0xC2 && (s[i + 1] == 0x85 || s[i + 1] == 0xA0) then 2
    else if i + 2 < |s| && IsWideSpace(s[i], s[i + 1], s[i + 2]) then 3
    else 0
  }

  /** The same of the character that ends before `n`. */
  function SpaceBefore(s: Bytes, n: nat): (k: nat)
    requires n <= |s|
    ensures k <= n
  {
    if n >= 1 && (9 <= s[n - 1] <= 13 || s[n - 1] == 32) then 1
    else if n >= 2 && s[n - 2] == 0xC2 && (s[n - 1] == 0x85 || s[n - 1] == 0xA0) then 2
    else if n >= 3 && IsWideSpace(s[n - 3], s[n - 2], s[n - 1]) then 3
    else 0
  }

  /** Past the white space at `i`. */
  function StartOf(s: Bytes, i: nat): (r: nat)
    requires i <= |s|
    ensures i <= r <= |s|
    decreases |s| - i
  {
    var k := SpaceAt(s, i);
    if k == 0 then i else StartOf(s, i + k)
  }

  /** Before the white space that ends at `n`. */
  function EndOf(s: Bytes, n: nat): (r: nat)
    requires n <= |s|
    ensures r <= n
  {
    var k := SpaceBefore(s, n);
    if k == 0 then n else EndOf(s, n - k)
  }

  function TrimStart(s: Bytes): Bytes {
    s[StartOf(s, 0)..]
  }

  function TrimEnd(s: Bytes): Bytes {
    s[..EndOf(s, |s|)]
  }

  /** `str::trim` */
  function Trim(s: Bytes): Bytes {
    TrimEnd(TrimStart(s))
  }

  function TrimByteStart(s: Bytes, c: byte): Bytes {
    if s != [] && s[0] == c then TrimByteStart(s[1..], c) else s
  }

  function TrimByteEnd(s: Bytes, c: byte): Bytes {
    if s != [] && s[|s| - 1] == c then TrimByteEnd(s[..|s| - 1], c) else s
  }

  /** `trim_matches(c)` */
  function TrimByte(s: Bytes, c: byte): Bytes {
    TrimByteEnd(TrimByteStart(s, c), c)
  }

  /** Text that starts and ends with a printable ASCII byte other than `c` is
      already trimmed. */
  lemma TrimNoop(s: Bytes, c: byte)
    requires s != [] && 32 < s[0] < 128 && 32 < s[|s| - 1] < 128 && s[0] != c && s[|s| - 1] != c
    ensures TrimByte(Trim(s), c) == s
  {
    TrimStartNoop(s);
    TrimEndNoop(s);
    TrimByteNoop(s, c);
  }

  lemma TrimByteNoop(s: Bytes, c: byte)
    requires s != [] && s[0] != c && s[|s| - 1] != c
    ensures TrimByte(s, c) == s
  {
    assert TrimByteStart(s, c) == s;
  }

  lemma TrimStartNoop(s: Bytes)
    requires s != [] && 32 < s[0] < 128
    ensures TrimStart(s) == s
  {
  }

  lemma TrimEndNoop(s: Bytes)
    requires s != [] && 32 < s[|s| - 1] < 128
    ensures TrimEnd(s) == s
  {
  }

  /** `normalize_domain`, also `policy::domain::normalize` */
  function NormalizeDomain(s: Bytes): Bytes {
    Lower(TrimByte(Trim(s), DOT))
  }

  /** `normalize_category` */
  function NormalizeCategory(s: Bytes): Bytes {
    Lower(TrimByte(Trim(s), SLASH))
  }

  // ----- searching and splitting

  /** `str::contains` */
  predicate Contains(s: Bytes, sub: Bytes) {
    exists i :: 0 <= i <= |s| - |sub| && sub <= s[i..]
  }

  /** Position of the first `c`, or the length when there is none. */
  function IndexOf(s: Bytes, c: byte): (i: nat)
    ensures i <= |s| && c !in s[..i] && (i < |s| ==> s[i] == c)
  {
    if s == [] || s[0] == c then 0
    else
      var i := IndexOf(s[1..], c);
      assert s[..i + 1] == [s[0]] + s[1..][..i];
      i + 1
  }

  /** `split(c)`: always at least one piece. */
  function Split(s: Bytes, c: byte): (r: seq<Bytes>)
    ensures r != [] && forall i :: 0 <= i < |r| ==> c !in r[i]
    decreases |s|
  {
    var i := IndexOf(s, c);
    if i == |s| then assert s[..i] == s; [s] else [s[..i]] + Split(s[i + 1..], c)
  }

  /** `join(c)` */
  function Join(parts: seq<Bytes>, c: byte): Bytes {
    if parts == [] then []
    else if |parts| == 1 then parts[0]
    else parts[0] + [c] + Join(parts[1..], c)
  }

  lemma {:induction false} IndexOfIn(x: Bytes, c: byte, y: Bytes)
    requires c !in x
    ensures IndexOf(x + [c] + y, c) == |x|
  {
    var s := x + [c] + y;
    assert s[|x|] == c && forall j :: 0 <= j < |x| ==> s[j] == x[j];
  }

  lemma {:induction false} JoinSplit(s: Bytes, c: byte)
    ensures Join(Split(s, c), c) == s
    decreases |s|
  {
    var i := IndexOf(s, c);
    if i < |s| {
      JoinSplit(s[i + 1..], c);
      assert ([s[..i]] + Split(s[i + 1..], c))[1..] == Split(s[i + 1..], c);
      assert s == s[..i] + [c] + s[i + 1..];
    }
  }

  lemma SplitHead(x: Bytes, y: Bytes, c: byte)
    requires c !in x
    ensures Split(x + [c] + y, c) == [x] + Split(y, c)
  {
    var s := x + [c] + y;
    IndexOfIn(x, c, y);
    assert s[..|x|] == x && s[|x| + 1..] == y;
  }

  lemma {:induction false} SplitJoin(parts: seq<Bytes>, c: byte)
    requires parts != [] && forall i :: 0 <= i < |parts| ==> c !in parts[i]
    ensures Split(Join(parts, c), c) == parts
    decreases |parts|
  {
    if |parts| > 1 {
      SplitJoin(parts[1..], c);
      SplitHead(parts[0], Join(parts[1..], c), c);
      assert parts == [parts[0]] + parts[1..];
    }
  }

  lemma {:induction false} JoinConcat(a: seq<Bytes>, b: seq<Bytes>, c: byte)
    requires a != [] && b != []
    ensures Join(a + b, c) == Join(a, c) + [c] + Join(b, c)
    decreases |a|
  {
    if |a| == 1 {
      assert (a + b)[1..] == b;
    } else {
      assert (a + b)[1..] == a[1..] + b;
      JoinConcat(a[1..], b, c);
    }
  }

  lemma SplitConcat(x: Bytes, y: Bytes, c: byte)
    ensures Split(x + [c] + y, c) == Split(x, c) + Split(y, c)
  {
    JoinSplit(x, c);
    JoinSplit(y, c);
    JoinConcat(Split(x, c), Split(y, c), c);
    SplitJoin(Split(x, c) + Split(y, c), c);
  }

  // ----- label reversal

  function Reverse<T>(xs: seq<T>): (r: seq<T>)
    ensures |r| == |xs| && forall i :: 0 <= i < |xs| ==> r[i] == xs[|xs| - 1 - i]
  {
    seq(|xs|, i requires 0 <= i < |xs| => xs[|xs| - 1 - i])
  }

  /** `reverse_labels` */
  function ReverseLabels(domain: Bytes): Bytes {
    Join(Reverse(Split(domain, DOT)), DOT)
  }

  lemma SplitReversed(d: Bytes)
    ensures Split(ReverseLabels(d), DOT) == Reverse(Split(d, DOT))
  {
    SplitJoin(Reverse(Split(d, DOT)), DOT);
  }

  /** Label reversal is its own inverse. */
  lemma ReverseLabelsInvolution(d: Bytes)
    ensures ReverseLabels(ReverseLabels(d)) == d
  {
    SplitReversed(d);
    assert Reverse(Reverse(Split(d, DOT))) == Split(d, DOT);
    JoinSplit(d, DOT);
  }

  /** Label reversal swaps the two sides of a dot. */
  lemma ReverseLabelsSwaps(x: Bytes, y: Bytes)
    ensures ReverseLabels(x + [DOT] + y) == ReverseLabels(y) + [DOT] + ReverseLabels(x)
  {
    SplitConcat(x, y, DOT);
    var a, b := Split(x, DOT), Split(y, DOT);
    assert Reverse(a + b) == Reverse(b) + Reverse(a);
    JoinConcat(Reverse(b), Reverse(a), DOT);
  }

  /** `name` is `d` or one of its subdomains. */
  predicate UnderDomain(name: Bytes, d: Bytes) {
    name == d || (|d| < |name| && name[|name| - |d| - 1..] == [DOT] + d)
  }

  /** `rev` is `t` or continues it at a label boundary. */
  predicate AtBoundary(rev: Bytes, t: Bytes) {
    rev == t || t + [DOT] <= rev
  }

  /** Reversing labels turns the suffix relation into a prefix relation. */
  lemma SuffixIsReversedPrefix(name: Bytes, d: Bytes)
    ensures UnderDomain(name, d) <==> AtBoundary(ReverseLabels(name), ReverseLabels(d))
  {
    ReverseLabelsInvolution(name);
    ReverseLabelsInvolution(d);
    if UnderDomain(name, d) { UnderIsBoundary(name, d); }
    if AtBoundary(ReverseLabels(name), ReverseLabels(d)) {
      BoundaryIsUnder(ReverseLabels(name), ReverseLabels(d));
    }
  }

  lemma UnderIsBoundary(name: Bytes, d: Bytes)
    requires UnderDomain(name, d)
    ensures AtBoundary(ReverseLabels(name), ReverseLabels(d))
  {
    if name != d {
      var p := name[..|name| - |d| - 1];
      assert name == p + [DOT] + d;
      ReverseLabelsSwaps(p, d);
    }
  }

  lemma BoundaryIsUnder(rev: Bytes, t: Bytes)
    requires AtBoundary(rev, t)
    ensures UnderDomain(ReverseLabels(rev), ReverseLabels(t))
  {
    if rev != t {
      var q := rev[|t| + 1..];
      assert rev == t + [DOT] + q;
      ReverseLabelsSwaps(t, q);
      var name, d := ReverseLabels(rev), ReverseLabels(t);
      assert name[|name| - |d| - 1..] == [DOT] + d;
    }
  }
}
