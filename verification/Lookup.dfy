/** `lookup_categories`: the same relation as matching, read as a list of names. */
module Lookup {
  import opened Words
  import opened Text
  import opened BookFormat
  import opened Addresses
  import opened Queries

  /** The names of the first `n` categories whose ids are in `ids`, in order. */
  ghost function Pick(cats: seq<Category>, ids: set<nat>, n: nat): seq<Bytes>
    requires n <= |cats|
  {
    if n == 0 then []
    else Pick(cats, ids, n - 1) + (if n - 1 in ids then [cats[n - 1].name] else [])
  }

  lemma {:induction false} PickElements(cats: seq<Category>, ids: set<nat>, n: nat, name: Bytes)
    requires n <= |cats|
    ensures name in Pick(cats, ids, n) <==> exists i :: 0 <= i < n && i in ids && cats[i].name == name
  {
    if n > 0 { PickElements(cats, ids, n - 1, name); }
  }

  /** `acc` holds the categories of `ids`. */
  ghost predicate Gathers(b: RawBook, acc: Mask, ids: set<nat>) {
    && ValidMask(acc) && b.words <= |acc|
    && (forall id :: id in ids ==> id < SetCount(b))
    && Bits(acc) == CategoriesOf(b, ids)
  }

  /** `add_set` */
  method AddSet(b: RawBook, acc: Mask, id: nat, ghost ids: set<nat>) returns (acc': Mask)
    requires ValidMask(b.catsets) && Gathers(b, acc, ids) && id < SetCount(b)
    ensures Gathers(b, acc', ids + {id})
  {
    RowValid(b, id);
    OrMaskUnites(acc, Row(b, id));
    acc' := OrMask(acc, Row(b, id));
    assert CategoriesOf(b, ids + {id}) == CategoriesOf(b, ids) + Bits(Row(b, id));
  }

  ghost function SuffixSetsBefore(b: RawBook, rev: Bytes, limit: nat): set<nat> {
    set e | e in b.suffix && ReachedBefore(rev, e.text, limit) :: e.catset
  }

  method GatherSuffix(b: RawBook, rev: Bytes, acc: Mask, ghost ids: set<nat>) returns (acc': Mask)
    requires Valid(b) && ValidMask(b.catsets) && Gathers(b, acc, ids)
    ensures Gathers(b, acc', ids + SuffixSetsBefore(b, rev, |rev| + 1))
  {
    acc' := acc;
    var boundary := 0;
    ghost var seen := ids;
    while true
      invariant boundary <= |rev|
      invariant Gathers(b, acc', seen) && seen == ids + SuffixSetsBefore(b, rev, boundary)
      decreases |rev| - boundary
    {
      var end := boundary + IndexOf(rev[boundary..], DOT);
      var hit := FindText(Texts(b.suffix), rev[..end]);
      StepSets(b, rev, boundary, end, ids);
      if hit.Some? {
        acc' := AddSet(b, acc', b.suffix[hit.value].catset, seen);
        seen := seen + {b.suffix[hit.value].catset};
      }
      if end == |rev| { return; }
      boundary := end + 1;
    }
  }

  lemma StepSets(b: RawBook, rev: Bytes, boundary: nat, end: nat, ids: set<nat>)
    requires Valid(b) && boundary <= |rev| && end == boundary + IndexOf(rev[boundary..], DOT)
    ensures match FindText(Texts(b.suffix), rev[..end])
            case Some(i) =>
              && i < |b.suffix| && b.suffix[i].catset < SetCount(b)
              && ids + SuffixSetsBefore(b, rev, end + 1) ==
                 ids + SuffixSetsBefore(b, rev, boundary) + {b.suffix[i].catset}
            case None => SuffixSetsBefore(b, rev, end + 1) == SuffixSetsBefore(b, rev, boundary)
  {
    FoundEntry(b.suffix, SetCount(b), rev[..end]);
    forall e | e in b.suffix
      ensures ReachedBefore(rev, e.text, end + 1) <==> ReachedBefore(rev, e.text, boundary) || e.text == rev[..end]
    {
      WalkStep(rev, boundary, end, e.text);
    }
  }

  ghost function KeywordSets(es: seq<StrEntry>, name: Bytes): set<nat> {
    set e | e in es && KeywordHit(e, name) :: e.catset
  }

  lemma KeywordSetsSnoc(es: seq<StrEntry>, i: nat, name: Bytes, ids: set<nat>)
    requires i < |es|
    ensures ids + KeywordSets(es[..i + 1], name) ==
            ids + KeywordSets(es[..i], name) + (if KeywordHit(es[i], name) then {es[i].catset} else {})
  {
    assert es[..i + 1] == es[..i] + [es[i]];
  }

  method GatherKeywords(b: RawBook, name: Bytes, acc: Mask, ghost ids: set<nat>) returns (acc': Mask)
    requires Valid(b) && ValidMask(b.catsets) && Gathers(b, acc, ids)
    ensures Gathers(b, acc', ids + KeywordSets(b.keywords, name))
  {
    acc' := acc;
    ghost var seen := ids;
    for i := 0 to |b.keywords|
      invariant Gathers(b, acc', seen) && seen == ids + KeywordSets(b.keywords[..i], name)
    {
      KeywordSetsSnoc(b.keywords, i, name, ids);
      if Contains(name, b.keywords[i].text) {
        acc' := AddSet(b, acc', b.keywords[i].catset, seen);
        seen := seen + {b.keywords[i].catset};
      }
    }
    assert b.keywords[..|b.keywords|] == b.keywords;
  }

  ghost function ExactSets(b: RawBook, name: Bytes): set<nat> {
    set e | e in b.exact && ExactHit(e, name) :: e.catset
  }

  method GatherExact(b: RawBook, name: Bytes, acc: Mask) returns (acc': Mask)
    requires Valid(b) && ValidMask(b.catsets) && Gathers(b, acc, {})
    ensures Gathers(b, acc', ExactSets(b, name))
  {
    acc' := acc;
    FoundEntry(b.exact, SetCount(b), name);
    var hit := FindText(Texts(b.exact), name);
    if hit.Some? {
      acc' := AddSet(b, acc', b.exact[hit.value].catset, {});
      assert ExactSets(b, name) == {} + {b.exact[hit.value].catset};
    } else {
      assert ExactSets(b, name) == {};
    }
  }

  /** The walk over label boundaries meets exactly the suffix entries that apply. */
  lemma SuffixSetsAll(b: RawBook, name: Bytes, rev: Bytes)
    requires rev == ReverseLabels(name) && Valid(b)
    ensures ExactSets(b, name) + SuffixSetsBefore(b, rev, |rev| + 1) + KeywordSets(b.keywords, name) ==
            DomainSets(b, name)
  {
    forall e | e in b.suffix ensures SuffixHit(e, name) <==> ReachedBefore(rev, e.text, |rev| + 1) {
      SuffixHitIsReached(name, e);
    }
  }

  method GatherDomain(b: RawBook, name: Bytes, acc: Mask) returns (acc': Mask)
    requires Valid(b) && ValidMask(b.catsets) && Gathers(b, acc, {})
    ensures Gathers(b, acc', DomainSets(b, name))
  {
    var rev := ReverseLabels(name);
    SuffixSetsAll(b, name, rev);
    acc' := GatherExact(b, name, acc);
    acc' := GatherSuffix(b, rev, acc', ExactSets(b, name));
    acc' := GatherKeywords(b, name, acc', ExactSets(b, name) + SuffixSetsBefore(b, rev, |rev| + 1));
  }

  method GatherAddress(b: RawBook, a: IpAddr, acc: Mask) returns (acc': Mask)
    requires Valid(b) && ValidMask(b.catsets) && Gathers(b, acc, {})
    ensures Gathers(b, acc', AddressSets(b, Fold(a)))
  {
    acc' := acc;
    LookupAddressFinds(b, a);
    SetsOfAddress(b, a);
    var found := LookupAddress(b, a);
    if found.Some? {
      acc' := AddSet(b, acc, found.value, {});
      assert {} + {found.value} == AddressSets(b, Fold(a));
    } else {
      assert AddressSets(b, Fold(a)) == {};
    }
  }

  /** The names of the ids in the mask. */
  method NamesIn(cats: seq<Category>, acc: Mask) returns (out: seq<Bytes>)
    ensures out == Pick(cats, Bits(acc), |cats|)
  {
    out := [];
    for i := 0 to |cats|
      invariant out == Pick(cats, Bits(acc), i)
    {
      GetBitIsMembership(acc, i);
      if GetBit(acc, i) { out := out + [cats[i].name]; }
    }
  }

  /** All and only the categories the host belongs to, in table order. */
  method LookupCategories(b: RawBook, host: Bytes, parse: ParseAddr) returns (out: seq<Bytes>)
    requires Valid(b) && ValidMask(b.catsets)
    ensures out == Pick(b.categories, CategoriesOf(b, HostSets(b, host, parse)), |b.categories|)
  {
    var acc := Zeros(if b.words == 0 then 1 else b.words);
    ZerosEmpty(|acc|);
    assert CategoriesOf(b, {}) == {};
    var a := parse(host);
    if a.Some? {
      acc := GatherAddress(b, a.value, acc);
    } else {
      var name := NormalizeDomain(host);
      if name == [] {
        PickNone(b.categories, |b.categories|);
        return [];
      }
      acc := GatherDomain(b, name, acc);
    }
    out := NamesIn(b.categories, acc);
  }

  lemma {:induction false} PickNone(cats: seq<Category>, n: nat)
    requires n <= |cats|
    ensures Pick(cats, {}, n) == []
  {
    if n > 0 { PickNone(cats, n - 1); }
  }

  /** Matching a selector and listing categories agree: the host matches exactly
      when some listed category is selected. */
  lemma MatchesIffListed(b: RawBook, host: Bytes, sel: Mask, parse: ParseAddr)
    requires Valid(b)
    ensures Selects(b, HostSets(b, host, parse), sel) <==>
            var listed := Pick(b.categories, CategoriesOf(b, HostSets(b, host, parse)), |b.categories|);
            exists i :: 0 <= i < |b.categories| && i in Bits(sel) && b.categories[i].name in listed
  {
    var ids := HostSets(b, host, parse);
    var cats := CategoriesOf(b, ids);
    forall i | 0 <= i < |b.categories|
      ensures b.categories[i].name in Pick(b.categories, cats, |b.categories|) <==> i in cats
    {
      PickElements(b.categories, cats, |b.categories|, b.categories[i].name);
      forall j | 0 <= j < |b.categories| && b.categories[j].name == b.categories[i].name ensures j == i {
        LessConnected(b.categories[i].name, b.categories[i].name);
        assert Names(b.categories)[i] == Names(b.categories)[j];
      }
    }
    if Selects(b, ids, sel) {
      var c :| c in cats * Bits(sel);
      var id :| id in ids && id < SetCount(b) && c in Bits(Row(b, id));
      assert c < |b.categories|;
    }
    var listed := Pick(b.categories, cats, |b.categories|);
    if i :| 0 <= i < |b.categories| && i in Bits(sel) && b.categories[i].name in listed {
      assert i in cats * Bits(sel);
    }
  }
}
