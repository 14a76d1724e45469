/** CIDR export: an inclusive range as aligned power-of-two blocks. */
module Cidr {
  import opened Words
  import Orders

  // ----- aligned blocks

  /** `n & (2^k - 1) == 0` */
  predicate Aligned(n: nat, k: nat) {
    And(n, Pow2(k) - 1) == 0
  }

  lemma {:induction false} AlignedHalves(n: nat, k: nat)
    ensures Aligned(n, k) <==> k == 0 || (n % 2 == 0 && Aligned(n / 2, k - 1))
  {
    if k == 0 {
      AndZero(n);
    } else {
      assert (Pow2(k) - 1) % 2 == 1 && (Pow2(k) - 1) / 2 == Pow2(k - 1) - 1;
    }
  }

  lemma {:induction false} AndZero(n: nat)
    ensures And(n, 0) == 0
  {
    if n > 0 { AndZero(n / 2); }
  }

  /** Aligned numbers are the multiples of the block size. */
  lemma {:induction false} AlignedMultiple(n: nat, k: nat)
    ensures Aligned(n, k) <==> n % Pow2(k) == 0
  {
    AlignedHalves(n, k);
    if k > 0 {
      AlignedMultiple(n / 2, k - 1);
      DoubledRemainder(n, Pow2(k - 1));
    }
  }

  lemma DoubledRemainder(n: nat, m: nat)
    requires m > 0
    ensures n % (2 * m) == 0 <==> n % 2 == 0 && (n / 2) % m == 0
  {
    var h := n / 2;
    var q, r := h / m, h % m;
    assert h == q * m + r;
    assert n == q * (2 * m) + (2 * r + n % 2);
    RemainderOf(n, q, 2 * m, 2 * r + n % 2);
  }

  lemma RemainderOf(n: nat, q: nat, d: nat, r: nat)
    requires n == q * d + r && r < d
    ensures n % d == r
  {
    var p, s := n / d, n % d;
    assert n == p * d + s;
    assert (q - p) * d == s - r;
    MulSmall(q - p, d, s - r);
  }

  /** `trailing_zeros` of a non-zero number. */
  function TrailingZeros(n: nat): nat
    requires n > 0
  {
    if n % 2 == 1 then 0 else 1 + TrailingZeros(n / 2)
  }

  lemma {:induction false} TrailingZerosAlign(n: nat, k: nat)
    requires n > 0
    ensures Aligned(n, k) <==> k <= TrailingZeros(n)
  {
    AlignedHalves(n, k);
    if k > 0 && n % 2 == 0 { TrailingZerosAlign(n / 2, k - 1); }
  }

  lemma ZeroAligned(k: nat)
    ensures Aligned(0, k)
  {
  }

  /** `addr/prefix` in a space of `width`-bit addresses. */
  datatype Cidr = Cidr(base: nat, prefix: nat)

  predicate IsBlock(c: Cidr, width: nat) {
    c.prefix <= width && Aligned(c.base, width - c.prefix) && c.base < Pow2(width)
  }

  function Size(c: Cidr, width: nat): nat {
    if c.prefix <= width then Pow2(width - c.prefix) else 0
  }

  predicate InBlock(c: Cidr, width: nat, a: nat) {
    c.base <= a < c.base + Size(c, width)
  }

  predicate Inside(c: Cidr, width: nat, lo: nat, hi: nat) {
    lo <= c.base && c.base + Size(c, width) <= hi + 1
  }

  /** Aligned blocks that share an address are nested. */
  lemma {:induction false} Nested(a: nat, k: nat, b: nat, m: nat, x: nat)
    requires k <= m && Aligned(a, k) && Aligned(b, m)
    requires a <= x < a + Pow2(k) && b <= x < b + Pow2(m)
    ensures b <= a && a + Pow2(k) <= b + Pow2(m)
  {
    if k > 0 {
      AlignedHalves(a, k);
      AlignedHalves(b, m);
      Nested(a / 2, k - 1, b / 2, m - 1, x / 2);
    }
  }

  /** An aligned block ends within the address space it starts in. */
  lemma StaysInSpace(a: nat, k: nat, width: nat)
    requires k <= width && Aligned(a, k) && a < Pow2(width)
    ensures a + Pow2(k) <= Pow2(width)
  {
    ZeroAligned(width);
    Nested(a, k, 0, width, a);
  }

  // ----- what the export emits

  /** A block of `k` host bits at `start` fits. */
  predicate FitsAt(start: nat, k: nat, hi: nat) {
    Aligned(start, k) && start + Pow2(k) <= hi + 1
  }

  /** The largest block at `start` with at most `width - 1` host bits. */
  ghost predicate Largest(c: Cidr, width: nat, hi: nat) {
    && 1 <= c.prefix <= width && FitsAt(c.base, width - c.prefix, hi)
    && forall k: nat :: k < width && FitsAt(c.base, k, hi) ==> k <= width - c.prefix
  }

  /** Largest blocks laid end to end from `lo` up to `next`. */
  ghost predicate Walk(out: seq<Cidr>, width: nat, lo: nat, hi: nat, next: nat) {
    && (forall i :: 0 <= i < |out| ==> Largest(out[i], width, hi))
    && (forall i :: 0 <= i < |out| - 1 ==> out[i].base + Size(out[i], width) == out[i + 1].base)
    && (out == [] ==> next == lo)
    && (out != [] ==> out[0].base == lo && out[|out| - 1].base + Size(out[|out| - 1], width) == next)
  }

  /** The whole range, greedily. */
  ghost predicate Greedy(out: seq<Cidr>, width: nat, lo: nat, hi: nat) {
    if lo > hi then out == [] else Walk(out, width, lo, hi, hi + 1)
  }

  lemma WalkStep(out: seq<Cidr>, width: nat, lo: nat, hi: nat, next: nat, c: Cidr)
    requires Walk(out, width, lo, hi, next) && c.base == next && Largest(c, width, hi)
    ensures Walk(out + [c], width, lo, hi, next + Size(c, width))
  {
  }

  /** `start.trailing_zeros().min(width - 1)` */
  function FirstGuess(start: nat, width: nat): nat
    requires width > 0
  {
    if start == 0 || TrailingZeros(start) >= width then width - 1 else TrailingZeros(start)
  }

  /** Nothing between `bits` and the cap fits. */
  ghost predicate NoneAbove(start: nat, hi: nat, width: nat, bits: nat) {
    forall k: nat :: k < width && FitsAt(start, k, hi) ==> k <= bits
  }

  lemma FirstGuessIsHigh(start: nat, hi: nat, width: nat)
    requires width > 0
    ensures NoneAbove(start, hi, width, FirstGuess(start, width))
  {
    forall k: nat | k < width && FitsAt(start, k, hi) ensures k <= FirstGuess(start, width) {
      if start > 0 { TrailingZerosAlign(start, k); }
    }
  }

  /** The inner loop of the IPv4 export, in 64-bit arithmetic. */
  method Ipv4HostBits(start: nat, hi: nat) returns (bits: nat)
    requires start <= hi
    ensures bits < 32 && Largest(Cidr(start, 32 - bits), 32, hi)
  {
    bits := FirstGuess(start, 32);
    FirstGuessIsHigh(start, hi, 32);
    while !(start + Pow2(bits) - 1 <= hi && And(start, Pow2(bits) - 1) == 0) && bits != 0
      invariant bits < 32 && NoneAbove(start, hi, 32, bits)
    {
      bits := bits - 1;
    }
    AndZero(start);
  }

  method Ipv4RangeToCidrs(lo: nat, hi: nat) returns (out: seq<Cidr>)
    requires lo <= 0xFFFF_FFFF && hi <= 0xFFFF_FFFF
    ensures Greedy(out, 32, lo, hi)
  {
    out := [];
    if lo > hi { return; }
    var start := lo;
    while start <= hi
      invariant lo <= start <= hi + 1 && Walk(out, 32, lo, hi, start)
      decreases hi + 1 - start
    {
      var bits := Ipv4HostBits(start, hi);
      var block := Cidr(start, 32 - bits);
      WalkStep(out, 32, lo, hi, start, block);
      out := out + [block];
      var next := start + Pow2(bits);
      if next > 0xFFFF_FFFF { break; }
      start := next;
    }
  }

  function SaturatingAdd(a: nat, b: nat): nat {
    if a + b > U128_MAX then U128_MAX else a + b
  }

  /** An aligned block never reaches the saturation. */
  lemma NoSaturation(start: nat, bits: nat)
    requires start <= U128_MAX && bits < 128 && Aligned(start, bits)
    ensures SaturatingAdd(start, Pow2(bits) - 1) == start + Pow2(bits) - 1
  {
    Pow2Limits();
    StaysInSpace(start, bits, 128);
  }

  method Ipv6HostBits(start: nat, hi: nat) returns (bits: nat)
    requires start <= hi <= U128_MAX
    ensures bits < 128 && Largest(Cidr(start, 128 - bits), 128, hi)
  {
    bits := FirstGuess(start, 128);
    FirstGuessIsHigh(start, hi, 128);
    while !(SaturatingAdd(start, Pow2(bits) - 1) <= hi && And(start, Pow2(bits) - 1) == 0) && bits != 0
      invariant bits < 128 && NoneAbove(start, hi, 128, bits)
    {
      bits := bits - 1;
    }
    AndZero(start);
    NoSaturation(start, bits);
  }

  method Ipv6RangeToCidrs(lo: nat, hi: nat) returns (out: seq<Cidr>)
    requires lo <= U128_MAX && hi <= U128_MAX
    ensures Greedy(out, 128, lo, hi)
  {
    out := [];
    if lo > hi { return; }
    var start := lo;
    while start <= hi
      invariant lo <= start <= hi + 1 && Walk(out, 128, lo, hi, start)
      decreases hi + 1 - start
    {
      var bits := Ipv6HostBits(start, hi);
      WalkStep(out, 128, lo, hi, start, Cidr(start, 128 - bits));
      out := out + [Cidr(start, 128 - bits)];
      if start + Pow2(bits) > U128_MAX { break; }
      start := start + Pow2(bits);
    }
  }

  // ----- exact tiling

  lemma {:induction false} WalkOrdered(out: seq<Cidr>, width: nat, lo: nat, hi: nat, next: nat, i: nat, j: nat)
    requires Walk(out, width, lo, hi, next) && i < j < |out|
    ensures out[i].base + Size(out[i], width) <= out[j].base
    decreases j
  {
    if i < j - 1 { WalkOrdered(out, width, lo, hi, next, i, j - 1); }
    assert out[j - 1].base + Size(out[j - 1], width) == out[(j - 1) + 1].base;
  }

  lemma {:induction false} WalkCovers(out: seq<Cidr>, width: nat, lo: nat, hi: nat, next: nat, a: nat) returns (i: nat)
    requires Walk(out, width, lo, hi, next) && lo <= a < next
    ensures i < |out| && InBlock(out[i], width, a)
  {
    assert out != [];
    var front, last := out[..|out| - 1], out[|out| - 1];
    if a >= last.base {
      i := |out| - 1;
    } else {
      assert Walk(front, width, lo, hi, last.base);
      i := WalkCovers(front, width, lo, hi, last.base, a);
    }
  }

  function Blocks(out: seq<Cidr>): set<Cidr> {
    set c | c in out
  }

  ghost predicate CoveredBy(blocks: set<Cidr>, width: nat, a: nat) {
    exists c :: c in blocks && InBlock(c, width, a)
  }

  /** The emitted blocks are aligned, in order and disjoint, and cover every address
      of the range and no other. */
  lemma GreedyTiles(out: seq<Cidr>, width: nat, lo: nat, hi: nat)
    requires Greedy(out, width, lo, hi) && hi < Pow2(width)
    ensures forall i :: 0 <= i < |out| ==> IsBlock(out[i], width)
    ensures forall i, j :: 0 <= i < j < |out| ==> out[i].base + Size(out[i], width) <= out[j].base
    ensures forall a: nat :: CoveredBy(Blocks(out), width, a) <==> lo <= a <= hi
  {
    if lo > hi { return; }
    forall i, j | 0 <= i < j < |out| ensures out[i].base + Size(out[i], width) <= out[j].base {
      WalkOrdered(out, width, lo, hi, hi + 1, i, j);
    }
    forall a: nat | lo <= a <= hi ensures CoveredBy(Blocks(out), width, a) {
      var i := WalkCovers(out, width, lo, hi, hi + 1, a);
      assert out[i] in out;
    }
    forall c, a: nat | c in out && InBlock(c, width, a) ensures lo <= a <= hi {
      var i :| 0 <= i < |out| && out[i] == c;
      if i > 0 { WalkOrdered(out, width, lo, hi, hi + 1, 0, i); }
      if i < |out| - 1 { WalkOrdered(out, width, lo, hi, hi + 1, i, |out| - 1); }
    }
  }

  // ----- minimality

  predicate WholeSpace(width: nat, lo: nat, hi: nat) {
    lo == 0 && hi + 1 == Pow2(width)
  }

  /** A largest block that holds the base of another block inside the range holds
      all of it, unless that is the whole address space. */
  lemma Coarsest(g: Cidr, width: nat, lo: nat, hi: nat, c: Cidr)
    requires Largest(g, width, hi) && InBlock(g, width, c.base)
    requires IsBlock(c, width) && c.prefix > 0 && Inside(c, width, lo, hi)
    ensures c.base + Size(c, width) <= g.base + Size(g, width)
  {
    var k, m := width - g.prefix, width - c.prefix;
    if m <= k {
      Nested(c.base, m, g.base, k, c.base);
    } else {
      Nested(g.base, k, c.base, m, c.base);
      assert FitsAt(g.base, m, hi);
    }
  }

  ghost predicate IsCover(cover: set<Cidr>, width: nat, lo: nat, hi: nat) {
    && (forall c :: c in cover ==> IsBlock(c, width) && Inside(c, width, lo, hi))
    && forall a: nat :: lo <= a <= hi ==> CoveredBy(cover, width, a)
  }

  /** The emitted block that holds a block's base holds the whole block. */
  lemma HeldByOne(out: seq<Cidr>, width: nat, lo: nat, hi: nat, c: Cidr, i: nat, x: nat)
    requires Greedy(out, width, lo, hi) && lo <= hi < Pow2(width) && i < |out|
    requires IsBlock(c, width) && c.prefix > 0 && Inside(c, width, lo, hi)
    requires InBlock(c, width, x) && InBlock(out[i], width, x)
    ensures out[i].base <= c.base && c.base + Size(c, width) <= out[i].base + Size(out[i], width)
  {
    var j := WalkCovers(out, width, lo, hi, hi + 1, c.base);
    Coarsest(out[j], width, lo, hi, c);
    if i < j { WalkOrdered(out, width, lo, hi, hi + 1, i, j); }
    if j < i { WalkOrdered(out, width, lo, hi, hi + 1, j, i); }
  }

  ghost predicate HoldsBase(c: Cidr, out: seq<Cidr>, width: nat, n: nat)
    requires n <= |out|
  {
    exists i :: 0 <= i < n && InBlock(c, width, out[i].base)
  }

  /** A block of the cover at one emitted base holds no other emitted base. */
  lemma HoldsOneBase(out: seq<Cidr>, width: nat, lo: nat, hi: nat, c: Cidr, n: nat)
    requires Greedy(out, width, lo, hi) && lo <= hi < Pow2(width) && n < |out|
    requires IsBlock(c, width) && c.prefix > 0 && Inside(c, width, lo, hi) && InBlock(c, width, out[n].base)
    ensures !HoldsBase(c, out, width, n)
  {
    if i :| 0 <= i < n && InBlock(c, width, out[i].base) {
      assert Largest(out[i], width, hi);
      HeldByOne(out, width, lo, hi, c, i, out[i].base);
      WalkOrdered(out, width, lo, hi, hi + 1, i, n);
    }
  }

  lemma BaseCovered(out: seq<Cidr>, width: nat, lo: nat, hi: nat, cover: set<Cidr>, n: nat) returns (c: Cidr)
    requires Greedy(out, width, lo, hi) && lo <= hi && n < |out| && IsCover(cover, width, lo, hi)
    ensures c in cover && InBlock(c, width, out[n].base)
  {
    assert Largest(out[n], width, hi);
    if n > 0 { WalkOrdered(out, width, lo, hi, hi + 1, 0, n); }
    assert CoveredBy(cover, width, out[n].base);
    c :| c in cover && InBlock(c, width, out[n].base);
  }

  /** Distinct emitted blocks need distinct blocks of any cover. */
  lemma {:induction false} PickCovers(out: seq<Cidr>, width: nat, lo: nat, hi: nat, cover: set<Cidr>, n: nat)
      returns (used: set<Cidr>)
    requires Greedy(out, width, lo, hi) && lo <= hi < Pow2(width) && n <= |out|
    requires IsCover(cover, width, lo, hi) && forall c :: c in cover ==> c.prefix > 0
    ensures used <= cover && |used| == n && forall c :: c in used ==> HoldsBase(c, out, width, n)
  {
    used := {};
    if n > 0 {
      var front := PickCovers(out, width, lo, hi, cover, n - 1);
      var c := BaseCovered(out, width, lo, hi, cover, n - 1);
      HoldsOneBase(out, width, lo, hi, c, n - 1);
      used := front + {c};
      forall x | x in front ensures HoldsBase(x, out, width, n) { assert HoldsBase(x, out, width, n - 1); }
    }
  }

  /** No cover of the range by blocks inside it has fewer blocks. */
  ghost predicate Minimal(out: seq<Cidr>, width: nat, lo: nat, hi: nat) {
    forall cover :: IsCover(cover, width, lo, hi) ==> |out| <= |cover|
  }

  lemma WholeBlock(c: Cidr, width: nat, lo: nat, hi: nat)
    requires IsBlock(c, width) && c.prefix == 0 && Inside(c, width, lo, hi) && lo <= hi < Pow2(width)
    ensures WholeSpace(width, lo, hi)
  {
  }

  lemma PartIsMinimal(out: seq<Cidr>, width: nat, lo: nat, hi: nat)
    requires Greedy(out, width, lo, hi) && hi < Pow2(width) && !WholeSpace(width, lo, hi)
    ensures Minimal(out, width, lo, hi)
  {
    forall cover: set<Cidr> | lo <= hi && IsCover(cover, width, lo, hi) ensures |out| <= |cover| {
      forall c: Cidr | c in cover ensures c.prefix > 0 {
        if c.prefix == 0 { WholeBlock(c, width, lo, hi); }
      }
      var used := PickCovers(out, width, lo, hi, cover, |out|);
      Orders.SmallerSet(used, cover);
    }
  }

  lemma LargestIsHalf(c: Cidr, width: nat, hi: nat)
    requires width > 0 && Largest(c, width, hi) && FitsAt(c.base, width - 1, hi)
    ensures c.prefix == 1 && Size(c, width) == Pow2(width - 1)
  {
  }

  lemma {:induction false} PowerAligned(k: nat)
    ensures Aligned(Pow2(k), k)
  {
    AlignedHalves(Pow2(k), k);
    if k > 0 { PowerAligned(k - 1); }
  }

  lemma HalvesFit(width: nat, hi: nat)
    requires width > 0 && WholeSpace(width, 0, hi)
    ensures FitsAt(0, width - 1, hi) && FitsAt(Pow2(width - 1), width - 1, hi)
  {
    ZeroAligned(width - 1);
    PowerAligned(width - 1);
  }

  /** A block with another after it ends before the range does. */
  lemma EndsEarly(out: seq<Cidr>, width: nat, hi: nat, i: nat)
    requires i + 1 < |out| && Largest(out[i + 1], width, hi)
    requires out[i].base + Size(out[i], width) == out[i + 1].base
    ensures out[i].base + Size(out[i], width) <= hi
  {
  }

  /** The cap of `width - 1` host bits: the whole space comes out as two halves. */
  lemma WholeSpaceHalves(out: seq<Cidr>, width: nat, hi: nat)
    requires width > 0 && Walk(out, width, 0, hi, hi + 1) && WholeSpace(width, 0, hi)
    ensures out == [Cidr(0, 1), Cidr(Pow2(width - 1), 1)]
  {
    HalvesFit(width, hi);
    LargestIsHalf(out[0], width, hi);
    assert |out| > 1 && out[1].base == out[0].base + Size(out[0], width);
    LargestIsHalf(out[1], width, hi);
    if |out| > 2 { EndsEarly(out, width, hi, 1); }
  }

  lemma WholeSpaceCover(width: nat, hi: nat)
    requires WholeSpace(width, 0, hi)
    ensures IsCover({Cidr(0, 0)}, width, 0, hi)
  {
    ZeroAligned(width);
    forall a: nat | a <= hi ensures CoveredBy({Cidr(0, 0)}, width, a) { assert InBlock(Cidr(0, 0), width, a); }
  }

  /** The export is minimal for every range but the whole address space. */
  lemma GreedyMinimal(out: seq<Cidr>, width: nat, lo: nat, hi: nat)
    requires width > 0 && Greedy(out, width, lo, hi) && hi < Pow2(width)
    ensures Minimal(out, width, lo, hi) <==> !WholeSpace(width, lo, hi)
  {
    if WholeSpace(width, lo, hi) {
      WholeSpaceHalves(out, width, hi);
      WholeSpaceCover(width, hi);
      assert !Minimal(out, width, lo, hi) by {
        assert IsCover({Cidr(0, 0)}, width, lo, hi) && |{Cidr(0, 0)}| == 1;
      }
    } else {
      PartIsMinimal(out, width, lo, hi);
    }
  }
}
