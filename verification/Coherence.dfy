/** What every run of builder calls keeps: the category set is closed under
    ancestors, and everything stored refers to it. */
module Coherence {
  import opened Words
  import opened Text
  import opened BookFormat
  import opened Addresses
  import opened Rules

  ghost predicate GoodCategories(cats: set<Bytes>) {
    forall c :: c in cats ==> c != [] && ValidPath(c) && Ancestors(c) <= cats
  }

  ghost predicate GoodRanges(rs: seq<CatRange>, cats: set<Bytes>, max: nat) {
    forall x :: x in rs ==> x.lo <= x.hi <= max && x.cat in cats
  }

  ghost predicate GoodTable(m: Tagged, cats: set<Bytes>) {
    forall key :: key in m ==> key != [] && m[key] != {} && m[key] <= cats
  }

  ghost predicate Coherent(st: State) {
    && GoodCategories(st.categories)
    && GoodRanges(st.ip4, st.categories, V4_MAX) && GoodRanges(st.ip6, st.categories, U128_MAX)
    && (forall x :: x in st.ip6 ==> x.hi < MAPPED_START || x.lo > MAPPED_END)
    && forall kind :: GoodTable(Table(st, kind), st.categories)
  }

  /** An effect some call can have. */
  ghost predicate Plausible(e: Effect) {
    e.Registered? ==>
      && e.cat != [] && ValidPath(e.cat)
      && (e.rule.Suffix? || e.rule.Exact? || e.rule.Keyword? ==> e.rule.name != [])
  }

  lemma EffectsPlausible(add: Add, parse: ParseIp)
    ensures Plausible(EffectOf(add, parse))
  {
  }

  /** What precedes a slash of a valid path is a valid path. */
  lemma FrontValid(a: Bytes, rest: Bytes)
    requires ValidPath(a + [SLASH] + rest)
    ensures a != [] && ValidPath(a)
  {
    SplitConcat(a, rest, SLASH);
    var segs := Split(a + [SLASH] + rest, SLASH);
    assert forall seg :: seg in Split(a, SLASH) ==> seg in segs;
    assert Split(a, SLASH)[0] in segs;
  }

  lemma AncestorOf(a: Bytes, path: Bytes)
    requires a in Ancestors(path) && path != [] && ValidPath(path)
    ensures a != [] && ValidPath(a) && Ancestors(a) <= Ancestors(path)
  {
    var i :| 0 <= i <= |path| && (i == |path| || path[i] == SLASH) && a == path[..i];
    if i < |path| {
      assert path == a + [SLASH] + path[i + 1..];
      FrontValid(a, path[i + 1..]);
    } else {
      assert a == path;
    }
    forall b | b in Ancestors(a) ensures b in Ancestors(path) {
      var j :| 0 <= j <= |a| && (j == |a| || a[j] == SLASH) && b == a[..j];
      assert b == path[..j] && (j == |path| || path[j] == SLASH);
    }
  }

  lemma ReverseNonEmpty(name: Bytes)
    requires name != []
    ensures ReverseLabels(name) != []
  {
    ReverseLabelsInvolution(name);
    var none: Bytes := [];
    assert Split(none, DOT) == [none];
    assert Reverse([none]) == [none];
    assert ReverseLabels(none) == none;
  }

  lemma GrownCategories(cats: set<Bytes>, path: Bytes)
    requires GoodCategories(cats) && path != [] && ValidPath(path)
    ensures GoodCategories(cats + Ancestors(path)) && path in Ancestors(path)
  {
    assert path == path[..|path|];
    forall c | c in Ancestors(path) ensures c != [] && ValidPath(c) && Ancestors(c) <= Ancestors(path) {
      AncestorOf(c, path);
    }
  }

  lemma AddedRanges(e: Effect, v4: bool)
    requires e.Registered?
    ensures forall x :: x in RangesAdded(e, v4) ==>
              && x.lo <= x.hi <= (if v4 then V4_MAX else U128_MAX) && x.cat == e.cat
              && (!v4 ==> x.hi < MAPPED_START || x.lo > MAPPED_END)
  {
    if e.rule.Ip? {
      forall x | x in RangesAdded(e, v4)
        ensures x.lo <= x.hi <= (if v4 then V4_MAX else U128_MAX) && x.cat == e.cat
                && (!v4 ==> x.hi < MAPPED_START || x.lo > MAPPED_END)
      {
        PiecesOfElements(Canonicalize(e.rule.range), v4, e.cat, x);
        CanonicalizeCovers(e.rule.range, V4(0));
      }
    }
  }

  lemma PutCoherent(st: State, e: Effect)
    requires Coherent(st) && Plausible(e)
    ensures Coherent(Put(st, e))
  {
    if e.Registered? {
      var st' := Put(st, e);
      GrownCategories(st.categories, e.cat);
      AddedRanges(e, true);
      AddedRanges(e, false);
      assert st'.ip4 == st.ip4 + RangesAdded(e, true) && st'.ip6 == st.ip6 + RangesAdded(e, false);
      forall kind ensures GoodTable(Table(st', kind), st'.categories) {
        PutTable(st, e, kind);
        assert GoodTable(Table(st, kind), st.categories);
        if Belongs(e.rule, kind) && e.rule.Suffix? { ReverseNonEmpty(e.rule.name); }
      }
    }
  }

  lemma {:induction false} RunCoherent(adds: seq<Add>, epoch: nat, parse: ParseIp)
    ensures Coherent(Run(adds, epoch, parse))
  {
    if adds != [] {
      RunCoherent(adds[..|adds| - 1], epoch, parse);
      EffectsPlausible(adds[|adds| - 1], parse);
      PutCoherent(Run(adds[..|adds| - 1], epoch, parse), EffectOf(adds[|adds| - 1], parse));
    }
  }
}
