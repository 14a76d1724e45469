/** IP addresses and ranges, with IPv4-mapped IPv6 addresses (section 2.5.5.2 of
    RFC 4291) folded onto IPv4. */
module Addresses {
  import opened Words
  import opened BookFormat

  const V4_MAX: nat := 0xFFFF_FFFF

  datatype IpAddr = V4(n: nat) | V6(n: nat)

  predicate ValidAddr(a: IpAddr) {
    a.n <= if a.V4? then V4_MAX else U128_MAX
  }

  datatype IpRange_ = IpRange(lo: nat, hi: nat, v4: bool)

  predicate ValidRange(r: IpRange_) {
    r.lo <= r.hi <= if r.v4 then V4_MAX else U128_MAX
  }

  /** What parsing an address or a CIDR yields: network and broadcast address. */
  type IpRange = r: IpRange_ | ValidRange(r) witness IpRange(0, 0, true)

  /** The address on the IPv6 number line; an IPv4 address by its mapped form. */
  function As6(a: IpAddr): nat {
    if a.V4? then MAPPED_START + a.n else a.n
  }

  /** The rule covers the address, an IPv4-mapped address and its IPv4 form being
      one and the same. */
  predicate Covers(r: IpRange, a: IpAddr) {
    if r.v4 then MAPPED_START + r.lo <= As6(a) <= MAPPED_START + r.hi else r.lo <= As6(a) <= r.hi
  }

  /** `to_ipv4_mapped`, as the query layer applies it. */
  function Fold(a: IpAddr): IpAddr {
    if a.V6? && MAPPED_START <= a.n <= MAPPED_END then V4(a.n - MAPPED_START) else a
  }

  function Max(a: nat, b: nat): nat { if a < b then b else a }

  function Min(a: nat, b: nat): nat { if a < b then a else b }

  /** `canonicalize_ip_range`: the mapped part of an IPv6 range moves to IPv4. */
  function Canonicalize(r: IpRange): seq<IpRange> {
    if r.v4 || r.hi < MAPPED_START || r.lo > MAPPED_END then [r]
    else
      (if r.lo < MAPPED_START then [IpRange(r.lo, MAPPED_START - 1, false)] else [])
      + [IpRange(Max(r.lo, MAPPED_START) - MAPPED_START, Min(r.hi, MAPPED_END) - MAPPED_START, true)]
      + (if r.hi > MAPPED_END then [IpRange(MAPPED_END + 1, r.hi, false)] else [])
  }

  /** Folded address inside a canonical piece of its own family. */
  predicate InPiece(piece: IpRange, a: IpAddr) {
    piece.v4 == a.V4? && piece.lo <= a.n <= piece.hi
  }

  /** Canonicalisation keeps the covered addresses exactly, and no IPv6 piece
      reaches into the mapped region. */
  lemma CanonicalizeCovers(r: IpRange, a: IpAddr)
    requires ValidAddr(a)
    ensures Covers(r, a) <==> exists piece :: piece in Canonicalize(r) && InPiece(piece, Fold(a))
    ensures forall piece :: piece in Canonicalize(r) && !piece.v4 ==> piece.hi < MAPPED_START || piece.lo > MAPPED_END
  {
    if Covers(r, a) && !r.v4 && r.hi >= MAPPED_START && r.lo <= MAPPED_END {
      var b := Fold(a);
      var low := IpRange(r.lo, MAPPED_START - 1, false);
      var mid := IpRange(Max(r.lo, MAPPED_START) - MAPPED_START, Min(r.hi, MAPPED_END) - MAPPED_START, true);
      var top := IpRange(MAPPED_END + 1, r.hi, false);
      assert mid in Canonicalize(r);
      if b.V6? && b.n < MAPPED_START {
        assert low in Canonicalize(r) && InPiece(low, b);
      } else if b.V6? {
        assert top in Canonicalize(r) && InPiece(top, b);
      } else {
        assert InPiece(mid, b);
      }
    } else if Covers(r, a) {
      assert r in Canonicalize(r) && InPiece(r, Fold(a));
    }
  }
}
