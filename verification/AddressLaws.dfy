/** Addresses, networks and category sets as numbers. */
module AddressLaws {
  import opened Words
  import opened BookFormat
  import opened Addresses
  import opened Cidr

  // ----- mapped addresses

  /** An IPv4 address and `::ffff:` before it are one address; no other is folded. */
  lemma FoldIs(n: nat)
    requires n <= 0xFFFF_FFFF
    ensures Fold(V6(0xFFFF_0000_0000 + n)) == V4(n) == Fold(V4(n))
    ensures forall m: nat :: m < 0xFFFF_0000_0000 || m > 0xFFFF_FFFF_FFFF ==> Fold(V6(m)) == V6(m)
  {
  }

  /** The addresses of a network, in either form. */
  lemma CoversIff(r: IpRange, a: IpAddr)
    requires ValidAddr(a)
    ensures Covers(r, a) <==>
            if r.v4 == a.V4? then r.lo <= a.n <= r.hi
            else if a.V4? then r.lo <= 0xFFFF_0000_0000 + a.n <= r.hi
            else r.lo <= a.n - 0xFFFF_0000_0000 <= r.hi
  {
  }

  /** A stored IPv6 range has no address with an IPv4 form. */
  lemma AvoidsMappedIff(r: Range)
    requires r.lo <= r.hi
    ensures AvoidsMapped(r) <==> forall n: nat :: r.lo <= n <= r.hi ==> Fold(V6(n)) == V6(n)
  {
    if !AvoidsMapped(r) {
      var n := if r.lo < 0xFFFF_0000_0000 then 0xFFFF_0000_0000 else r.lo;
      assert Fold(V6(n)).V4?;
    }
  }

  // ----- bits

  lemma HalfOf(w: nat, d: nat)
    requires d > 0
    ensures w / (2 * d) == (w / 2) / d
  {
    var h := w / 2;
    var q, r := h / d, h % d;
    assert h == q * d + r;
    assert w == q * (2 * d) + (2 * r + w % 2);
    QuotientOf(w, q, 2 * d, 2 * r + w % 2);
  }

  lemma QuotientOf(n: nat, q: nat, d: nat, r: nat)
    requires n == q * d + r && r < d
    ensures n / d == q
  {
    RemainderOf(n, q, d, r);
    assert n == (n / d) * d + r;
    assert (n / d - q) * d == 0;
    MulSmall(n / d - q, d, 0);
  }

  /** Bit `k` of a word. */
  lemma {:induction false} BitIs(w: nat, k: nat)
    ensures TestBit(w, k) <==> (w / Pow2(k)) % 2 == 1
  {
    if k > 0 {
      BitIs(w / 2, k - 1);
      HalfOf(w, Pow2(k - 1));
    }
  }

  /** Category `c` is bit `c % 64` of word `c / 64` of a set. */
  lemma MemberIs(m: Mask, c: nat)
    ensures c in Bits(m) <==> c / 64 < |m| && (m[c / 64] / Pow2(c % 64)) % 2 == 1
  {
    GetBitIsMembership(m, c);
    if c / 64 < |m| { BitIs(m[c / 64], c % 64); }
  }

  // ----- networks

  lemma SameQuotient(base: nat, q: nat, d: nat, a: nat)
    requires d > 0 && base == q * d
    ensures base <= a < base + d <==> a / d == q
  {
    if base <= a < base + d { QuotientOf(a, q, d, a - base); }
    assert a == (a / d) * d + a % d;
  }

  lemma MultipleOf(n: nat, d: nat, q: nat)
    requires d > 0 && n % d == 0 && q == n / d
    ensures n == q * d
  {
  }

  lemma SameBlock(base: nat, d: nat, a: nat)
    requires d > 0 && base % d == 0
    ensures base <= a < base + d <==> a / d == base / d
  {
    var q := base / d;
    MultipleOf(base, d, q);
    SameQuotient(base, q, d, a);
  }

  /** A network holds the addresses that agree with its own in the first bits. */
  lemma BlockIs(c: Cidr, width: nat, a: nat)
    requires IsBlock(c, width)
    ensures InBlock(c, width, a) <==> a / Pow2(width - c.prefix) == c.base / Pow2(width - c.prefix)
  {
    AlignedMultiple(c.base, width - c.prefix);
    SameBlock(c.base, Pow2(width - c.prefix), a);
  }
}
