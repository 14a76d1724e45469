/** The query layer: binary searches, the label-boundary walk, and the category
    sets they reach, against the plain matching relations. */
module Queries {
  import opened Wrappers
  import opened Words
  import opened Text
  import opened BookFormat
  import opened Addresses

  /** IP literals are parsed by the standard library: a parameter. */
  type ParseAddr = Bytes -> Option<IpAddr>

  // ----- address ranges

  /** `partition_point(|r| r.start <= key)` */
  function RangesUpTo(rs: seq<Range>, key: nat, lo: nat, hi: nat): (k: nat)
    requires lo <= hi <= |rs|
    ensures lo <= k <= hi
    decreases hi - lo
  {
    if lo == hi then lo
    else
      var mid := (lo + hi) / 2;
      if rs[mid].lo <= key then RangesUpTo(rs, key, mid + 1, hi) else RangesUpTo(rs, key, lo, mid)
  }

  lemma {:induction false} RangesUpToSplits(rs: seq<Range>, key: nat, lo: nat, hi: nat)
    requires lo <= hi <= |rs| && forall i, j :: 0 <= i < j < |rs| ==> rs[i].lo < rs[j].lo
    requires forall i :: 0 <= i < lo ==> rs[i].lo <= key
    requires forall i :: hi <= i < |rs| ==> rs[i].lo > key
    ensures var k := RangesUpTo(rs, key, lo, hi);
            (forall i :: 0 <= i < k ==> rs[i].lo <= key) && (forall i :: k <= i < |rs| ==> rs[i].lo > key)
    decreases hi - lo
  {
    if lo < hi {
      var mid := (lo + hi) / 2;
      if rs[mid].lo <= key {
        RangesUpToSplits(rs, key, mid + 1, hi);
      } else {
        RangesUpToSplits(rs, key, lo, mid);
      }
    }
  }

  /** `lookup_range4` and `lookup_range6` */
  function LookupRange(rs: seq<Range>, key: nat): Option<nat> {
    var k := RangesUpTo(rs, key, 0, |rs|);
    if k == 0 then None
    else if key <= rs[k - 1].hi then Some(rs[k - 1].catset) else None
  }

  predicate InRange(r: Range, key: nat) {
    r.lo <= key <= r.hi
  }

  /** The search finds the range that contains the key, if any does. */
  lemma LookupRangeFinds(rs: seq<Range>, sets: nat, key: nat)
    requires ValidRanges(rs, sets)
    ensures forall i :: 0 <= i < |rs| && InRange(rs[i], key) ==> LookupRange(rs, key) == Some(rs[i].catset)
    ensures LookupRange(rs, key).Some? ==>
              exists i :: 0 <= i < |rs| && InRange(rs[i], key) && LookupRange(rs, key) == Some(rs[i].catset)
  {
    forall i, j | 0 <= i < j < |rs| ensures rs[i].lo < rs[j].lo { assert rs[i].hi < rs[j].lo; }
    RangesUpToSplits(rs, key, 0, |rs|);
    var k := RangesUpTo(rs, key, 0, |rs|);
    forall i | 0 <= i < |rs| && InRange(rs[i], key) ensures LookupRange(rs, key) == Some(rs[i].catset) {
      assert i < k;
    }
    if LookupRange(rs, key).Some? { assert InRange(rs[k - 1], key); }
  }

  // ----- texts

  /** `partition_point(|x| x < key)` over an ascending list. */
  function TextsBelow(xs: seq<Bytes>, key: Bytes, lo: nat, hi: nat): (k: nat)
    requires lo <= hi <= |xs|
    ensures lo <= k <= hi
    decreases hi - lo
  {
    if lo == hi then lo
    else
      var mid := (lo + hi) / 2;
      if Less(xs[mid], key) then TextsBelow(xs, key, mid + 1, hi) else TextsBelow(xs, key, lo, mid)
  }

  lemma {:induction false} TextsBelowSplits(xs: seq<Bytes>, key: Bytes, lo: nat, hi: nat)
    requires lo <= hi <= |xs| && Ascending(xs)
    requires forall i :: 0 <= i < lo ==> Less(xs[i], key)
    requires forall i :: hi <= i < |xs| ==> !Less(xs[i], key)
    ensures var k := TextsBelow(xs, key, lo, hi);
            (forall i :: 0 <= i < k ==> Less(xs[i], key)) && (forall i :: k <= i < |xs| ==> !Less(xs[i], key))
    decreases hi - lo
  {
    if lo < hi {
      var mid := (lo + hi) / 2;
      if Less(xs[mid], key) {
        forall i | 0 <= i < mid + 1 ensures Less(xs[i], key) {
          if i < mid { LessTransitive(xs[i], xs[mid], key); }
        }
        TextsBelowSplits(xs, key, mid + 1, hi);
      } else {
        forall i | mid <= i < |xs| ensures !Less(xs[i], key) {
          if i > mid && Less(xs[i], key) { LessTransitive(xs[mid], xs[i], key); }
        }
        TextsBelowSplits(xs, key, lo, mid);
      }
    }
  }

  /** `binary_search_by(cmp)` */
  function FindText(xs: seq<Bytes>, key: Bytes): Option<nat> {
    var k := TextsBelow(xs, key, 0, |xs|);
    if k < |xs| && xs[k] == key then Some(k) else None
  }

  lemma FindTextFinds(xs: seq<Bytes>, key: Bytes, i: nat)
    requires Ascending(xs) && i < |xs|
    ensures FindText(xs, key) == Some(i) <==> xs[i] == key
  {
    TextsBelowSplits(xs, key, 0, |xs|);
    var k := TextsBelow(xs, key, 0, |xs|);
    if xs[i] == key {
      LessConnected(key, key);
      assert k <= i;
    }
  }

  // ----- matching relations

  /** The string entry applies to the normalised name. */
  predicate ExactHit(e: StrEntry, name: Bytes) {
    e.text == name
  }

  predicate SuffixHit(e: StrEntry, name: Bytes) {
    UnderDomain(name, ReverseLabels(e.text))
  }

  predicate KeywordHit(e: StrEntry, name: Bytes) {
    Contains(name, e.text)
  }

  /** The category sets of the entries that apply to a normalised name. */
  ghost function DomainSets(b: RawBook, name: Bytes): set<nat> {
    (set e | e in b.exact && ExactHit(e, name) :: e.catset)
    + (set e | e in b.suffix && SuffixHit(e, name) :: e.catset)
    + (set e | e in b.keywords && KeywordHit(e, name) :: e.catset)
  }

  /** The category set of the range that contains a folded address. */
  ghost function AddressSets(b: RawBook, a: IpAddr): set<nat> {
    set r | r in (if a.V4? then b.ip4 else b.ip6) && InRange(r, a.n) :: r.catset
  }

  /** Everything `host` belongs to. */
  ghost function HostSets(b: RawBook, host: Bytes, parse: ParseAddr): set<nat> {
    match parse(host)
    case Some(a) => AddressSets(b, Fold(a))
    case None => if NormalizeDomain(host) == [] then {} else DomainSets(b, NormalizeDomain(host))
  }

  /** The categories that a family of sets holds. */
  ghost function CategoriesOf(b: RawBook, ids: set<nat>): set<nat> {
    set id, c | id in ids && id < SetCount(b) && c in Bits(Row(b, id)) :: c
  }

  // ----- queries

  /** `catset_intersects` */
  predicate CatsetIntersects(b: RawBook, id: nat, sel: Mask)
    requires id < SetCount(b)
  {
    b.words != 0 && Intersects(Row(b, id), sel)
  }

  ghost predicate Selects(b: RawBook, ids: set<nat>, sel: Mask) {
    CategoriesOf(b, ids) * Bits(sel) != {}
  }

  lemma IntersectsSelects(b: RawBook, id: nat, sel: Mask)
    requires id < SetCount(b) && ValidMask(b.catsets)
    ensures CatsetIntersects(b, id, sel) <==> Bits(Row(b, id)) * Bits(sel) != {}
  {
    RowValid(b, id);
    IntersectsIsCommonBit(Row(b, id), sel);
  }

  lemma SelectsIsSome(b: RawBook, ids: set<nat>, sel: Mask)
    requires ValidMask(b.catsets) && forall id :: id in ids ==> id < SetCount(b)
    ensures Selects(b, ids, sel) <==> exists id :: id in ids && CatsetIntersects(b, id, sel)
  {
    forall id | id in ids ensures CatsetIntersects(b, id, sel) <==> Bits(Row(b, id)) * Bits(sel) != {} {
      IntersectsSelects(b, id, sel);
    }
    if Selects(b, ids, sel) {
      var c :| c in CategoriesOf(b, ids) * Bits(sel);
      var id :| id in ids && id < SetCount(b) && c in Bits(Row(b, id));
      assert c in Bits(Row(b, id)) * Bits(sel);
    }
    if id :| id in ids && CatsetIntersects(b, id, sel) {
      var c :| c in Bits(Row(b, id)) * Bits(sel);
      assert c in CategoriesOf(b, ids) * Bits(sel);
    }
  }

  /** The set found for an address, folded to IPv4 when mapped. */
  function LookupAddress(b: RawBook, a: IpAddr): Option<nat> {
    match Fold(a)
    case V4(n) => LookupRange(b.ip4, n)
    case V6(n) => LookupRange(b.ip6, n)
  }

  lemma LookupAddressFinds(b: RawBook, a: IpAddr)
    requires Valid(b)
    ensures AddressSets(b, Fold(a)) == match LookupAddress(b, a) case Some(id) => {id} case None => {}
  {
    var f := Fold(a);
    var rs := if f.V4? then b.ip4 else b.ip6;
    LookupRangeFinds(rs, SetCount(b), f.n);
    forall id ensures id in AddressSets(b, f) <==> LookupRange(rs, f.n) == Some(id) {
      if id in AddressSets(b, f) {
        var r :| r in rs && InRange(r, f.n) && r.catset == id;
        var i :| 0 <= i < |rs| && rs[i] == r;
      }
      if LookupRange(rs, f.n) == Some(id) {
        var i :| 0 <= i < |rs| && InRange(rs[i], f.n) && Some(id) == Some(rs[i].catset);
        assert rs[i] in rs;
      }
    }
  }

  /** `matches_ip` */
  predicate MatchesIp(b: RawBook, a: IpAddr, sel: Mask)
    requires Valid(b)
  {
    LookupAddressFinds(b, a);
    SetsOfAddress(b, a);
    match LookupAddress(b, a)
    case Some(id) => CatsetIntersects(b, id, sel)
    case None => false
  }

  lemma SetsOfAddress(b: RawBook, a: IpAddr)
    requires Valid(b)
    ensures LookupAddress(b, a).Some? ==> LookupAddress(b, a).value < SetCount(b)
  {
    LookupAddressFinds(b, a);
    if LookupAddress(b, a).Some? {
      var id := LookupAddress(b, a).value;
      assert id in AddressSets(b, Fold(a));
    }
  }

  /** `matches_ip` is true exactly when the range containing the address carries a
      selected category. */
  lemma MatchesIpSelects(b: RawBook, a: IpAddr, sel: Mask)
    requires Valid(b) && ValidMask(b.catsets)
    ensures MatchesIp(b, a, sel) <==> Selects(b, AddressSets(b, Fold(a)), sel)
  {
    LookupAddressFinds(b, a);
    SetsOfAddress(b, a);
    var ids := AddressSets(b, Fold(a));
    SelectsIsSome(b, ids, sel);
    if LookupAddress(b, a).Some? { assert LookupAddress(b, a).value in ids; }
  }

  // ----- the boundary walk

  /** `rev[..e]` is a label-boundary prefix. */
  predicate EndsLabel(rev: Bytes, e: nat) {
    e <= |rev| && (e == |rev| || rev[e] == DOT)
  }

  /** The entry is the boundary prefix that ends before `limit`. */
  predicate ReachedBefore(rev: Bytes, t: Bytes, limit: nat) {
    |t| < limit && EndsLabel(rev, |t|) && rev[..|t|] == t
  }

  lemma ReachedIsAtBoundary(rev: Bytes, t: Bytes)
    ensures ReachedBefore(rev, t, |rev| + 1) <==> AtBoundary(rev, t)
  {
    if ReachedBefore(rev, t, |rev| + 1) && |t| < |rev| {
      assert rev[..|t| + 1] == t + [DOT];
    }
    if AtBoundary(rev, t) && rev != t {
      assert rev[|t|] == (t + [DOT])[|t|] && rev[..|t|] == (t + [DOT])[..|t|];
    }
  }

  /** One step of the walk reaches exactly the next boundary prefix. */
  lemma WalkStep(rev: Bytes, boundary: nat, end: nat, t: Bytes)
    requires boundary <= |rev| && end == boundary + IndexOf(rev[boundary..], DOT)
    ensures ReachedBefore(rev, t, end + 1) <==> ReachedBefore(rev, t, boundary) || t == rev[..end]
  {
    var tail := rev[boundary..];
    forall j | boundary <= j < end ensures rev[j] != DOT {
      assert tail[..end - boundary][j - boundary] == rev[j];
    }
    if end < |rev| { assert tail[end - boundary] == rev[end]; }
  }

  lemma SuffixHitIsReached(name: Bytes, e: StrEntry)
    ensures SuffixHit(e, name) <==> ReachedBefore(ReverseLabels(name), e.text, |ReverseLabels(name)| + 1)
  {
    ReverseLabelsInvolution(e.text);
    SuffixIsReversedPrefix(name, ReverseLabels(e.text));
    ReachedIsAtBoundary(ReverseLabels(name), e.text);
  }

  lemma FoundEntry(es: seq<StrEntry>, sets: nat, key: Bytes)
    requires ValidEntries(es, sets)
    ensures match FindText(Texts(es), key)
            case Some(i) => i < |es| && es[i].text == key && es[i].catset < sets
                            && forall e :: e in es && e.text == key ==> e == es[i]
            case None => forall e :: e in es ==> e.text != key
  {
    forall i | 0 <= i < |es| ensures FindText(Texts(es), key) == Some(i) <==> es[i].text == key {
      FindTextFinds(Texts(es), key, i);
    }
  }

  /** The suffix half of `matches_domain`. */
  method MatchesSuffix(b: RawBook, rev: Bytes, sel: Mask) returns (r: bool)
    requires Valid(b)
    ensures r <==>
            exists e :: e in b.suffix && ReachedBefore(rev, e.text, |rev| + 1) && CatsetIntersects(b, e.catset, sel)
  {
    var boundary := 0;
    while true
      invariant boundary <= |rev|
      invariant !exists e :: e in b.suffix && ReachedBefore(rev, e.text, boundary) && CatsetIntersects(b, e.catset, sel)
      decreases |rev| - boundary
    {
      var end := boundary + IndexOf(rev[boundary..], DOT);
      forall e | e in b.suffix
        ensures ReachedBefore(rev, e.text, end + 1) <==> ReachedBefore(rev, e.text, boundary) || e.text == rev[..end]
      {
        WalkStep(rev, boundary, end, e.text);
      }
      FoundEntry(b.suffix, SetCount(b), rev[..end]);
      var hit := FindText(Texts(b.suffix), rev[..end]);
      if hit.Some? && CatsetIntersects(b, b.suffix[hit.value].catset, sel) {
        ghost var e := b.suffix[hit.value];
        assert e in b.suffix && ReachedBefore(rev, e.text, |rev| + 1);
        return true;
      }
      if end == |rev| { return false; }
      boundary := end + 1;
    }
  }

  /** An entry that says `hit` and whose categories meet the selection. */
  ghost predicate HasHit(b: RawBook, es: seq<StrEntry>, hit: StrEntry -> bool, sel: Mask) {
    exists e :: e in es && hit(e) && e.catset < SetCount(b) && CatsetIntersects(b, e.catset, sel)
  }

  method MatchesKeyword(b: RawBook, name: Bytes, sel: Mask) returns (r: bool)
    requires Valid(b)
    ensures r <==> HasHit(b, b.keywords, e => KeywordHit(e, name), sel)
  {
    for i := 0 to |b.keywords|
      invariant !exists e :: e in b.keywords[..i] && KeywordHit(e, name) && CatsetIntersects(b, e.catset, sel)
    {
      var k := b.keywords[i];
      if Contains(name, k.text) && CatsetIntersects(b, k.catset, sel) { return true; }
      assert b.keywords[..i + 1] == b.keywords[..i] + [k];
    }
    assert b.keywords[..|b.keywords|] == b.keywords;
    r := false;
  }

  ghost function SetsOf(es: seq<StrEntry>, hit: StrEntry -> bool): set<nat> {
    set e | e in es && hit(e) :: e.catset
  }

  lemma HasHitIff(b: RawBook, es: seq<StrEntry>, hit: StrEntry -> bool, sel: Mask)
    requires ValidMask(b.catsets) && forall e :: e in es ==> e.catset < SetCount(b)
    ensures HasHit(b, es, hit, sel) <==> Selects(b, SetsOf(es, hit), sel)
  {
    SelectsIsSome(b, SetsOf(es, hit), sel);
    if e :| e in es && hit(e) && CatsetIntersects(b, e.catset, sel) { assert e.catset in SetsOf(es, hit); }
  }

  lemma SelectsEither(b: RawBook, x: set<nat>, y: set<nat>, sel: Mask)
    ensures Selects(b, x + y, sel) <==> Selects(b, x, sel) || Selects(b, y, sel)
  {
    assert CategoriesOf(b, x + y) == CategoriesOf(b, x) + CategoriesOf(b, y);
    assert (CategoriesOf(b, x) + CategoriesOf(b, y)) * Bits(sel) ==
           CategoriesOf(b, x) * Bits(sel) + CategoriesOf(b, y) * Bits(sel);
  }

  lemma DomainSetsOf(b: RawBook, name: Bytes)
    ensures DomainSets(b, name) ==
            SetsOf(b.exact, e => ExactHit(e, name)) + SetsOf(b.suffix, e => SuffixHit(e, name))
            + SetsOf(b.keywords, e => KeywordHit(e, name))
  {
  }

  lemma DomainSelects(b: RawBook, name: Bytes, sel: Mask)
    requires Valid(b) && ValidMask(b.catsets)
    ensures Selects(b, DomainSets(b, name), sel) <==>
            || HasHit(b, b.exact, e => ExactHit(e, name), sel)
            || HasHit(b, b.suffix, e => SuffixHit(e, name), sel)
            || HasHit(b, b.keywords, e => KeywordHit(e, name), sel)
  {
    HasHitIff(b, b.exact, e => ExactHit(e, name), sel);
    HasHitIff(b, b.suffix, e => SuffixHit(e, name), sel);
    HasHitIff(b, b.keywords, e => KeywordHit(e, name), sel);
    var x, y, z := SetsOf(b.exact, e => ExactHit(e, name)), SetsOf(b.suffix, e => SuffixHit(e, name)),
      SetsOf(b.keywords, e => KeywordHit(e, name));
    DomainSetsOf(b, name);
    SelectsEither(b, x + y, z, sel);
    SelectsEither(b, x, y, sel);
  }

  method MatchesExact(b: RawBook, name: Bytes, sel: Mask) returns (r: bool)
    requires Valid(b)
    ensures r <==> HasHit(b, b.exact, e => ExactHit(e, name), sel)
  {
    FoundEntry(b.exact, SetCount(b), name);
    var hit := FindText(Texts(b.exact), name);
    r := hit.Some? && CatsetIntersects(b, b.exact[hit.value].catset, sel);
    if r { assert b.exact[hit.value] in b.exact; }
  }

  /** The walk over reversed labels matches exactly the plain suffix relation. */
  method MatchesSubdomain(b: RawBook, name: Bytes, sel: Mask) returns (r: bool)
    requires Valid(b)
    ensures r <==> HasHit(b, b.suffix, e => SuffixHit(e, name), sel)
  {
    forall e | e in b.suffix
      ensures SuffixHit(e, name) <==> ReachedBefore(ReverseLabels(name), e.text, |ReverseLabels(name)| + 1)
    {
      SuffixHitIsReached(name, e);
    }
    r := MatchesSuffix(b, ReverseLabels(name), sel);
  }

  method MatchesDomain(b: RawBook, host: Bytes, sel: Mask) returns (r: bool)
    requires Valid(b) && ValidMask(b.catsets)
    ensures r <==> NormalizeDomain(host) != [] && Selects(b, DomainSets(b, NormalizeDomain(host)), sel)
  {
    var name := NormalizeDomain(host);
    if name == [] { return false; }
    DomainSelects(b, name, sel);
    r := MatchesExact(b, name, sel);
    if r { return; }
    r := MatchesSubdomain(b, name, sel);
    if r { return; }
    r := MatchesKeyword(b, name, sel);
  }

  method Matches(b: RawBook, host: Bytes, sel: Mask, parse: ParseAddr) returns (r: bool)
    requires Valid(b) && ValidMask(b.catsets)
    ensures r <==> Selects(b, HostSets(b, host, parse), sel)
  {
    var a := parse(host);
    if a.Some? {
      MatchesIpSelects(b, a.value, sel);
      return MatchesIp(b, a.value, sel);
    }
    r := MatchesDomain(b, host, sel);
  }
}
