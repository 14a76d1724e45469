/** What it means for a book to be built from a builder state; such a book is
    unique, and valid exactly when the state meets two checkable conditions. */
module BuildSpec {
  import opened Words
  import opened Text
  import opened BookFormat
  import opened Rules
  import opened Sweeping
  import opened CanonicalForm
  import opened Flattening
  import opened Interning

  /** The id of a category: its index in the sorted table. */
  function IdOf(names: seq<Bytes>, c: Bytes): (id: nat)
    requires c in names
    ensures id < |names| && names[id] == c
  {
    if names[0] == c then 0 else IdOf(names[1..], c) + 1
  }

  function IdSet(names: seq<Bytes>, cats: set<Bytes>): set<nat> {
    set c | c in cats && c in names :: IdOf(names, c)
  }

  function RawOf(names: seq<Bytes>, rs: seq<CatRange>): (r: seq<RawRange>)
    requires forall x :: x in rs ==> x.cat in names
    ensures |r| == |rs|
    ensures forall i :: 0 <= i < |rs| ==> r[i] == RawRange(rs[i].lo, rs[i].hi, IdOf(names, rs[i].cat))
  {
    seq(|rs|, i requires 0 <= i < |rs| => RawRange(rs[i].lo, rs[i].hi, IdOf(names, rs[i].cat)))
  }

  lemma RawOfElement(names: seq<Bytes>, rs: seq<CatRange>, x: CatRange)
    requires (forall x :: x in rs ==> x.cat in names) && x in rs
    ensures RawRange(x.lo, x.hi, IdOf(names, x.cat)) in RawOf(names, rs)
  {
    var i :| 0 <= i < |rs| && rs[i] == x;
    assert RawOf(names, rs)[i] == RawRange(x.lo, x.hi, IdOf(names, x.cat));
  }

  // ----- the parts of a book, read back through its category sets

  ghost predicate IdsIn(b: RawBook, ids: seq<nat>) {
    forall i :: 0 <= i < |ids| ==> ids[i] < SetCount(b)
  }

  function RangeIds(rs: seq<Range>): (r: seq<nat>)
    ensures |r| == |rs| && forall i :: 0 <= i < |rs| ==> r[i] == rs[i].catset
  {
    seq(|rs|, i requires 0 <= i < |rs| => rs[i].catset)
  }

  function EntryIds(es: seq<StrEntry>): (r: seq<nat>)
    ensures |r| == |es| && forall i :: 0 <= i < |es| ==> r[i] == es[i].catset
  {
    seq(|es|, i requires 0 <= i < |es| => es[i].catset)
  }

  /** All category-set references, in interning order. */
  function AllIds(b: RawBook): seq<nat> {
    RangeIds(b.ip4) + RangeIds(b.ip6) + EntryIds(b.exact) + EntryIds(b.suffix) + EntryIds(b.keywords)
  }

  ghost function Rows(b: RawBook, ids: seq<nat>): (r: seq<Mask>)
    requires IdsIn(b, ids)
    ensures |r| == |ids| && forall i :: 0 <= i < |ids| ==> r[i] == Row(b, ids[i])
  {
    seq(|ids|, i requires 0 <= i < |ids| => Row(b, ids[i]))
  }

  ghost function Segs(b: RawBook, rs: seq<Range>): (r: seq<Segment>)
    requires IdsIn(b, RangeIds(rs))
    ensures |r| == |rs| && forall i :: 0 <= i < |rs| ==> r[i] == Segment(rs[i].lo, rs[i].hi, Row(b, rs[i].catset))
  {
    seq(|rs|, i requires 0 <= i < |rs| => Segment(rs[i].lo, rs[i].hi, Row(b, RangeIds(rs)[i])))
  }

  ghost predicate RangesFrom(b: RawBook, rs: seq<Range>, names: seq<Bytes>, src: seq<CatRange>)
    requires IdsIn(b, RangeIds(rs))
  {
    && (forall x :: x in src ==> x.cat in names)
    && Canonical(Segs(b, rs), b.words)
    && forall p: nat :: CatsIn(Segs(b, rs), p) == CatsAt(RawOf(names, src), p)
  }

  ghost predicate EntriesFrom(b: RawBook, es: seq<StrEntry>, names: seq<Bytes>, m: Tagged)
    requires IdsIn(b, EntryIds(es))
  {
    && Texts(es) == SortedTexts(m.Keys)
    && forall i :: 0 <= i < |es| ==>
         es[i].text in m && Bits(Row(b, EntryIds(es)[i])) == IdSet(names, m[es[i].text])
  }

  ghost predicate AllReferred(b: RawBook) {
    && IdsIn(b, RangeIds(b.ip4)) && IdsIn(b, RangeIds(b.ip6))
    && IdsIn(b, EntryIds(b.exact)) && IdsIn(b, EntryIds(b.suffix)) && IdsIn(b, EntryIds(b.keywords))
  }

  ghost predicate HeaderFrom(st: State, b: RawBook) {
    && b.epoch == st.epoch
    && Names(b.categories) == SortedTexts(st.categories)
    && (forall i :: 0 <= i < |b.categories| ==> ParentOk(b.categories, b.categories[i]))
    && b.words == (|b.categories| + 63) / 64
  }

  /** The category sets are the distinct masks in use, in order of first use. */
  ghost predicate SelfInterned(b: RawBook) {
    && ValidMask(b.catsets)
    && IdsIn(b, AllIds(b)) && b.catsets == Flatten(TableOf(Rows(b, AllIds(b))))
  }

  ghost predicate ContentFrom(st: State, b: RawBook) {
    var names := SortedTexts(st.categories);
    && AllReferred(b)
    && RangesFrom(b, b.ip4, names, st.ip4) && RangesFrom(b, b.ip6, names, st.ip6)
    && EntriesFrom(b, b.exact, names, st.exact)
    && EntriesFrom(b, b.suffix, names, st.suffix)
    && EntriesFrom(b, b.keywords, names, st.keywords)
  }

  /** `b` is what `build` assembles from `st`, before the final validation. */
  ghost predicate IsBookOf(st: State, b: RawBook) {
    HeaderFrom(st, b) && ContentFrom(st, b) && SelfInterned(b)
  }

  // ----- uniqueness

  lemma SameRaw(names: seq<Bytes>, xs: seq<CatRange>, ys: seq<CatRange>)
    requires forall x :: x in xs <==> x in ys
    requires forall x :: x in xs ==> x.cat in names
    ensures forall r :: r in RawOf(names, xs) <==> r in RawOf(names, ys)
  {
    forall r | r in RawOf(names, xs) ensures r in RawOf(names, ys) {
      var i :| 0 <= i < |xs| && RawOf(names, xs)[i] == r;
      assert xs[i] in ys;
      RawOfElement(names, ys, xs[i]);
    }
    forall r | r in RawOf(names, ys) ensures r in RawOf(names, xs) {
      var i :| 0 <= i < |ys| && RawOf(names, ys)[i] == r;
      assert ys[i] in xs;
      RawOfElement(names, xs, ys[i]);
    }
  }

  lemma SameRanges(a: RawBook, b: RawBook, ra: seq<Range>, rb: seq<Range>, names: seq<Bytes>,
                   xs: seq<CatRange>, ys: seq<CatRange>)
    requires a.words == b.words && (forall x :: x in xs <==> x in ys)
    requires IdsIn(a, RangeIds(ra)) && RangesFrom(a, ra, names, xs)
    requires IdsIn(b, RangeIds(rb)) && RangesFrom(b, rb, names, ys)
    ensures Segs(a, ra) == Segs(b, rb) && |ra| == |rb|
    ensures Rows(a, RangeIds(ra)) == Rows(b, RangeIds(rb))
  {
    SameRaw(names, xs, ys);
    SweepSeesASet(RawOf(names, xs), RawOf(names, ys), Segs(a, ra), Segs(b, rb), a.words);
    forall i | 0 <= i < |ra| ensures Rows(a, RangeIds(ra))[i] == Rows(b, RangeIds(rb))[i] {
      assert Segs(a, ra)[i].mask == Segs(b, rb)[i].mask;
    }
  }

  lemma SameEntries(a: RawBook, b: RawBook, ea: seq<StrEntry>, eb: seq<StrEntry>, names: seq<Bytes>, m: Tagged)
    requires a.words == b.words && ValidMask(a.catsets) && ValidMask(b.catsets)
    requires IdsIn(a, EntryIds(ea)) && EntriesFrom(a, ea, names, m)
    requires IdsIn(b, EntryIds(eb)) && EntriesFrom(b, eb, names, m)
    ensures Texts(ea) == Texts(eb) && |ea| == |eb|
    ensures Rows(a, EntryIds(ea)) == Rows(b, EntryIds(eb))
  {
    assert |Texts(ea)| == |Texts(eb)|;
    forall i | 0 <= i < |ea| ensures Rows(a, EntryIds(ea))[i] == Rows(b, EntryIds(eb))[i] {
      assert Texts(ea)[i] == Texts(eb)[i];
      RowValid(a, ea[i].catset);
      RowValid(b, eb[i].catset);
      MaskExtensional(Row(a, ea[i].catset), Row(b, eb[i].catset));
    }
  }

  lemma RowsConcat(b: RawBook, x: seq<nat>, y: seq<nat>)
    requires IdsIn(b, x) && IdsIn(b, y)
    ensures IdsIn(b, x + y) && Rows(b, x + y) == Rows(b, x) + Rows(b, y)
  {
  }

  lemma AllRows(b: RawBook)
    requires AllReferred(b)
    ensures IdsIn(b, AllIds(b))
    ensures Rows(b, AllIds(b)) == Rows(b, RangeIds(b.ip4)) + Rows(b, RangeIds(b.ip6)) + Rows(b, EntryIds(b.exact))
                                  + Rows(b, EntryIds(b.suffix)) + Rows(b, EntryIds(b.keywords))
  {
    var x := RangeIds(b.ip4);
    RowsConcat(b, x, RangeIds(b.ip6));
    x := x + RangeIds(b.ip6);
    RowsConcat(b, x, EntryIds(b.exact));
    x := x + EntryIds(b.exact);
    RowsConcat(b, x, EntryIds(b.suffix));
    x := x + EntryIds(b.suffix);
    RowsConcat(b, x, EntryIds(b.keywords));
  }

  /** In a table of distinct rows, a row determines its id. */
  lemma RowIsTableRow(b: RawBook, masks: seq<Mask>, id: nat)
    requires b.catsets == Flatten(TableOf(masks)) && Rectangular(TableOf(masks), b.words)
    requires id < SetCount(b)
    ensures id < |TableOf(masks)| && Row(b, id) == TableOf(masks)[id]
  {
    var table := TableOf(masks);
    FlattenLength(table, b.words);
    DivExact(|table|, b.words);
    FlattenRow(table, b.words, id);
  }

  lemma DivExact(n: nat, w: nat)
    requires w > 0
    ensures n * w / w == n && n * w % w == 0
  {
    var x := n * w;
    var q, r := x / w, x % w;
    assert x == q * w + r;
    assert (n - q) * w == n * w - q * w;
    MulSmall(n - q, w, r);
  }

  lemma TableRectangular(b: RawBook, ids: seq<nat>)
    requires IdsIn(b, ids)
    ensures Rectangular(TableOf(Rows(b, ids)), b.words)
  {
    var masks := Rows(b, ids);
    TableOfDistinct(masks);
    forall i | 0 <= i < |TableOf(masks)| ensures |TableOf(masks)[i]| == b.words {
      assert TableOf(masks)[i] in masks;
    }
  }

  lemma SameIds(a: RawBook, b: RawBook, ids: seq<nat>, ids': seq<nat>, masks: seq<Mask>)
    requires a.words == b.words && a.catsets == b.catsets == Flatten(TableOf(masks))
    requires Rectangular(TableOf(masks), a.words)
    requires IdsIn(a, ids) && IdsIn(b, ids') && Rows(a, ids) == Rows(b, ids')
    ensures ids == ids'
  {
    assert |ids| == |Rows(a, ids)| == |ids'|;
    TableOfDistinct(masks);
    forall i | 0 <= i < |ids| ensures ids[i] == ids'[i] {
      RowIsTableRow(a, masks, ids[i]);
      RowIsTableRow(b, masks, ids'[i]);
      assert Rows(a, ids)[i] == Rows(b, ids')[i];
    }
  }

  lemma SameParents(xs: seq<Category>, ys: seq<Category>)
    requires Names(xs) == Names(ys) && Ascending(Names(xs))
    requires forall i :: 0 <= i < |xs| ==> ParentOk(xs, xs[i])
    requires forall i :: 0 <= i < |ys| ==> ParentOk(ys, ys[i])
    ensures xs == ys
  {
    assert |xs| == |Names(xs)| == |ys|;
    forall i | 0 <= i < |xs| ensures xs[i] == ys[i] {
      assert Names(xs)[i] == Names(ys)[i];
      if LastIndexOf(xs[i].name, SLASH).Some? {
        var p, q := xs[i].parent, ys[i].parent;
        assert Names(xs)[p] == xs[p].name && Names(xs)[q] == Names(ys)[q] == ys[q].name;
        LessConnected(xs[p].name, xs[p].name);
      }
    }
  }

  /** States with the same contents build the same book, category-set ids
      included. */
  lemma BookUnique(s: State, t: State, a: RawBook, b: RawBook)
    requires SameContents(s, t) && IsBookOf(s, a) && IsBookOf(t, b)
    ensures a == b
  {
    var names := SortedTexts(s.categories);
    SortedTextsSpec(s.categories);
    SameParents(a.categories, b.categories);
    SameRanges(a, b, a.ip4, b.ip4, names, s.ip4, t.ip4);
    SameRanges(a, b, a.ip6, b.ip6, names, s.ip6, t.ip6);
    SameEntries(a, b, a.exact, b.exact, names, s.exact);
    SameEntries(a, b, a.suffix, b.suffix, names, s.suffix);
    SameEntries(a, b, a.keywords, b.keywords, names, s.keywords);
    AllRows(a);
    AllRows(b);
    SameTables(a, b);
  }

  lemma SameTables(a: RawBook, b: RawBook)
    requires a.epoch == b.epoch && a.categories == b.categories && a.words == b.words
    requires AllReferred(a) && AllReferred(b) && IdsIn(a, AllIds(a)) && IdsIn(b, AllIds(b))
    requires |a.ip4| == |b.ip4| && |a.ip6| == |b.ip6|
    requires Segs(a, a.ip4) == Segs(b, b.ip4) && Segs(a, a.ip6) == Segs(b, b.ip6)
    requires Texts(a.exact) == Texts(b.exact) && Texts(a.suffix) == Texts(b.suffix)
    requires Texts(a.keywords) == Texts(b.keywords)
    requires Rows(a, AllIds(a)) == Rows(b, AllIds(b))
    requires Rows(a, RangeIds(a.ip4)) == Rows(b, RangeIds(b.ip4))
    requires Rows(a, RangeIds(a.ip6)) == Rows(b, RangeIds(b.ip6))
    requires Rows(a, EntryIds(a.exact)) == Rows(b, EntryIds(b.exact))
    requires Rows(a, EntryIds(a.suffix)) == Rows(b, EntryIds(b.suffix))
    requires Rows(a, EntryIds(a.keywords)) == Rows(b, EntryIds(b.keywords))
    requires a.catsets == Flatten(TableOf(Rows(a, AllIds(a)))) && b.catsets == Flatten(TableOf(Rows(b, AllIds(b))))
    ensures a == b
  {
    var masks := Rows(a, AllIds(a));
    TableRectangular(a, AllIds(a));
    SameIds(a, b, RangeIds(a.ip4), RangeIds(b.ip4), masks);
    SameIds(a, b, RangeIds(a.ip6), RangeIds(b.ip6), masks);
    SameIds(a, b, EntryIds(a.exact), EntryIds(b.exact), masks);
    SameIds(a, b, EntryIds(a.suffix), EntryIds(b.suffix), masks);
    SameIds(a, b, EntryIds(a.keywords), EntryIds(b.keywords), masks);
    RangesEqual(a, b, a.ip4, b.ip4);
    RangesEqual(a, b, a.ip6, b.ip6);
    EntriesEqual(a.exact, b.exact);
    EntriesEqual(a.suffix, b.suffix);
    EntriesEqual(a.keywords, b.keywords);
  }

  lemma RangesEqual(a: RawBook, b: RawBook, ra: seq<Range>, rb: seq<Range>)
    requires IdsIn(a, RangeIds(ra)) && IdsIn(b, RangeIds(rb)) && Segs(a, ra) == Segs(b, rb)
    requires RangeIds(ra) == RangeIds(rb)
    ensures ra == rb
  {
    assert |RangeIds(ra)| == |ra| && |RangeIds(rb)| == |rb|;
    forall i | 0 <= i < |ra| ensures ra[i] == rb[i] {
      assert Segs(a, ra)[i] == Segs(b, rb)[i] && RangeIds(ra)[i] == RangeIds(rb)[i];
    }
  }

  lemma EntriesEqual(ea: seq<StrEntry>, eb: seq<StrEntry>)
    requires Texts(ea) == Texts(eb) && EntryIds(ea) == EntryIds(eb)
    ensures ea == eb
  {
    assert |Texts(ea)| == |ea| && |Texts(eb)| == |eb|;
    forall i | 0 <= i < |ea| ensures ea[i] == eb[i] {
      assert Texts(ea)[i] == Texts(eb)[i] && EntryIds(ea)[i] == EntryIds(eb)[i];
    }
  }
}
