/** What may be said of a host name: that it is a name, contains one, or is under one;
    and lines with nothing to trim. */
module HostNames {
  import opened Wrappers
  import opened Text
  import opened Rules
  import opened Queries
  import opened Spelling

  /** The domain without a leading "*.". */
  function WithoutStar(d: Bytes): Bytes {
    if |d| >= 2 && d[0] == '*' as int && d[1] == '.' as int then d[2..] else d
  }

  /** The host is a name, and it contains the fragment. */
  ghost predicate NameContains(host: Bytes, fragment: Bytes, parse: ParseAddr) {
    && parse(host).None? && NormalizeDomain(host) != [] && NormalizeDomain(fragment) != []
    && exists a, b :: NormalizeDomain(host) == a + NormalizeDomain(fragment) + b
  }

  ghost predicate NameIs(host: Bytes, name: Bytes, parse: ParseAddr) {
    parse(host).None? && NormalizeDomain(host) != [] && NormalizeDomain(host) == NormalizeDomain(name)
  }

  /** The host is a name, and it is the domain or a subdomain of it. */
  ghost predicate NameUnder(host: Bytes, domain: Bytes, parse: ParseAddr) {
    var d := WithoutStar(NormalizeDomain(domain));
    && parse(host).None? && NormalizeDomain(host) != [] && d != []
    && (NormalizeDomain(host) == d || exists a :: NormalizeDomain(host) == a + Ascii(".") + d)
  }

  lemma StarIs(d: Bytes)
    ensures WithoutStar(d) == if WILDCARD_PREFIX <= d then d[2..] else d
  {
  }

  // ----- lines

  /** A printable prefix does not bring space to the end. */
  lemma TypedIsTidy(p: Bytes, h: Bytes)
    requires p != [] && (forall i :: 0 <= i < |p| ==> 32 < p[i] < 128) && SpaceBefore(h, |h|) == 0
    ensures Tidy(p + h)
  {
    var s, n := p + h, |p| + |h|;
    assert forall i :: 0 <= i < |h| ==> s[|p| + i] == h[i];
    assert |h| >= 1 ==> s[n - 1] == h[|h| - 1];
    assert |h| >= 2 ==> s[n - 2] == h[|h| - 2];
    assert |h| >= 3 ==> s[n - 3] == h[|h| - 3];
  }
}
