/** Which states build: everything the final validation checks holds of every
    assembled book, but for the category limit and the shape of stored texts. */
module BuildValidity {
  import opened Words
  import opened Text
  import opened BookFormat
  import opened Rules
  import opened Coherence
  import opened Sweeping
  import opened CanonicalForm
  import opened Flattening
  import opened Interning
  import opened BuildSpec

  ghost predicate NormalizedKeys(m: Tagged) {
    forall key :: key in m ==> IsNormalized(key)
  }

  ghost predicate Buildable(st: State) {
    && |st.categories| <= MAX_CATEGORIES
    && NormalizedKeys(st.exact) && NormalizedKeys(st.suffix) && NormalizedKeys(st.keywords)
  }

  lemma CatsAtBelow(names: seq<Bytes>, src: seq<CatRange>, p: int)
    requires forall x :: x in src ==> x.cat in names
    ensures forall c :: c in CatsAt(RawOf(names, src), p) ==> c < |names|
  {
  }

  lemma EntryRowsBelow(b: RawBook, es: seq<StrEntry>, names: seq<Bytes>, tagged: Tagged, m: Mask)
    requires IdsIn(b, EntryIds(es)) && EntriesFrom(b, es, names, tagged) && m in Rows(b, EntryIds(es))
    ensures forall c :: c in Bits(m) ==> c < |names|
  {
    var i :| 0 <= i < |es| && Rows(b, EntryIds(es))[i] == m;
  }

  lemma RangeRowsBelow(b: RawBook, rs: seq<Range>, names: seq<Bytes>, src: seq<CatRange>, m: Mask)
    requires IdsIn(b, RangeIds(rs)) && RangesFrom(b, rs, names, src) && m in Rows(b, RangeIds(rs))
    ensures forall c :: c in Bits(m) ==> c < |names|
  {
    var i :| 0 <= i < |rs| && Rows(b, RangeIds(rs))[i] == m;
    var segs := Segs(b, rs);
    InSegment(segs, b.words, i, segs[i].lo);
    CatsAtBelow(names, src, segs[i].lo);
  }

  lemma RowBitsBelow(st: State, b: RawBook, id: nat)
    requires IsBookOf(st, b) && id < SetCount(b)
    ensures forall c :: c in Bits(Row(b, id)) ==> c < |b.categories|
  {
    var names := SortedTexts(st.categories);
    assert |names| == |b.categories|;
    var masks := Rows(b, AllIds(b));
    TableRectangular(b, AllIds(b));
    RowIsTableRow(b, masks, id);
    TableOfDistinct(masks);
    AllRows(b);
    var m := Row(b, id);
    assert m in masks;
    if m in Rows(b, RangeIds(b.ip4)) {
      RangeRowsBelow(b, b.ip4, names, st.ip4, m);
    } else if m in Rows(b, RangeIds(b.ip6)) {
      RangeRowsBelow(b, b.ip6, names, st.ip6, m);
    } else if m in Rows(b, EntryIds(b.exact)) {
      EntryRowsBelow(b, b.exact, names, st.exact, m);
    } else if m in Rows(b, EntryIds(b.suffix)) {
      EntryRowsBelow(b, b.suffix, names, st.suffix, m);
    } else {
      EntryRowsBelow(b, b.keywords, names, st.keywords, m);
    }
  }

  lemma BuiltSetsValid(st: State, b: RawBook)
    requires IsBookOf(st, b)
    ensures ValidSets(b)
  {
    TableRectangular(b, AllIds(b));
    FlattenLength(TableOf(Rows(b, AllIds(b))), b.words);
    if b.words > 0 { DivExact(|TableOf(Rows(b, AllIds(b)))|, b.words); }
    assert |Names(b.categories)| == |b.categories|;
    forall id: nat | id < SetCount(b) ensures forall c :: c in Bits(Row(b, id)) ==> c < |b.categories| {
      RowBitsBelow(st, b, id);
    }
  }

  lemma BuiltRangesValid(b: RawBook, rs: seq<Range>, names: seq<Bytes>, src: seq<CatRange>)
    requires IdsIn(b, RangeIds(rs)) && RangesFrom(b, rs, names, src)
    ensures ValidRanges(rs, SetCount(b))
  {
    var segs := Segs(b, rs);
    assert IdsIn(b, RangeIds(rs));
    forall i | 0 <= i < |rs| ensures rs[i].catset < SetCount(b) { assert RangeIds(rs)[i] == rs[i].catset; }
    forall i, j | 0 <= i < j < |rs| ensures rs[i].hi < rs[j].lo { assert segs[i].hi < segs[j].lo; }
    forall i | 0 <= i < |rs| ensures rs[i].lo <= rs[i].hi { assert segs[i].lo <= segs[i].hi; }
  }

  /** A point of a built range lies in some source range. */
  lemma PointHasSource(b: RawBook, rs: seq<Range>, names: seq<Bytes>, src: seq<CatRange>, i: nat, p: nat)
      returns (x: CatRange)
    requires IdsIn(b, RangeIds(rs)) && RangesFrom(b, rs, names, src) && i < |rs| && rs[i].lo <= p <= rs[i].hi
    ensures x in src && x.lo <= p <= x.hi
  {
    var segs := Segs(b, rs);
    InSegment(segs, b.words, i, p);
    assert CatsAt(RawOf(names, src), p) != {};
    var c :| c in CatsAt(RawOf(names, src), p);
    var r :| r in RawOf(names, src) && r.lo <= p <= r.hi;
    var k :| 0 <= k < |src| && RawOf(names, src)[k] == r;
    x := src[k];
  }

  lemma BuiltAvoidsMapped(b: RawBook, rs: seq<Range>, names: seq<Bytes>, src: seq<CatRange>)
    requires IdsIn(b, RangeIds(rs)) && RangesFrom(b, rs, names, src)
    requires forall x :: x in src ==> x.hi < MAPPED_START || x.lo > MAPPED_END
    ensures forall r :: r in rs ==> AvoidsMapped(r)
  {
    BuiltRangesValid(b, rs, names, src);
    forall i | 0 <= i < |rs| ensures AvoidsMapped(rs[i]) {
      if !AvoidsMapped(rs[i]) {
        var p := if rs[i].lo < MAPPED_START then MAPPED_START else rs[i].lo;
        var x := PointHasSource(b, rs, names, src, i, p);
        assert false;
      }
    }
  }

  lemma EntryFacts(b: RawBook, es: seq<StrEntry>, names: seq<Bytes>, m: Tagged, cats: set<Bytes>)
    requires IdsIn(b, EntryIds(es)) && EntriesFrom(b, es, names, m) && GoodTable(m, cats)
    ensures Ascending(Texts(es))
    ensures forall i :: 0 <= i < |es| ==> es[i].text in m && es[i].text != [] && es[i].catset < SetCount(b)
    ensures forall key :: key in m ==> exists i :: 0 <= i < |es| && es[i].text == key
  {
    SortedTextsSpec(m.Keys);
    forall i | 0 <= i < |es| ensures es[i].catset < SetCount(b) { assert EntryIds(es)[i] == es[i].catset; }
    forall key | key in m ensures exists i :: 0 <= i < |es| && es[i].text == key {
      assert key in Texts(es);
      var i :| 0 <= i < |es| && Texts(es)[i] == key;
      assert es[i].text == key;
    }
  }

  lemma BuiltEntriesValid(b: RawBook, es: seq<StrEntry>, names: seq<Bytes>, m: Tagged, cats: set<Bytes>)
    requires IdsIn(b, EntryIds(es)) && EntriesFrom(b, es, names, m) && GoodTable(m, cats)
    ensures ValidEntries(es, SetCount(b)) <==> NormalizedKeys(m)
  {
    EntryFacts(b, es, names, m, cats);
  }

  lemma TableNames(cats: set<Bytes>, table: seq<Category>)
    requires Names(table) == SortedTexts(cats)
    ensures |table| == |cats| && Ascending(Names(table)) && forall i :: 0 <= i < |table| ==> table[i].name in cats
  {
    SortedTextsSpec(cats);
    assert |Names(table)| == |table|;
    forall i | 0 <= i < |table| ensures table[i].name in cats {
      assert Names(table)[i] in SortedTexts(cats);
    }
  }

  lemma TableValid(cats: set<Bytes>, table: seq<Category>)
    requires GoodCategories(cats) && Names(table) == SortedTexts(cats)
    requires forall i :: 0 <= i < |table| ==> ParentOk(table, table[i])
    ensures ValidCategories(table) <==> |cats| <= MAX_CATEGORIES
  {
    TableNames(cats, table);
  }

  lemma BuiltCategoriesValid(st: State, b: RawBook)
    requires IsBookOf(st, b) && GoodCategories(st.categories)
    ensures ValidCategories(b.categories) <==> |st.categories| <= MAX_CATEGORIES
  {
    assert HeaderFrom(st, b);
    TableValid(st.categories, b.categories);
  }

  /** An assembled book passes validation exactly when the state is buildable. */
  lemma BuiltValid(st: State, b: RawBook)
    requires Coherent(st) && IsBookOf(st, b)
    ensures Valid(b) <==> Buildable(st)
  {
    var names := SortedTexts(st.categories);
    assert forall kind :: GoodTable(Table(st, kind), st.categories);
    assert GoodTable(Table(st, ExactTable), st.categories) && GoodTable(Table(st, SuffixTable), st.categories)
        && GoodTable(Table(st, KeywordTable), st.categories);
    BuiltCategoriesValid(st, b);
    BuiltSetsValid(st, b);
    BuiltRangesValid(b, b.ip4, names, st.ip4);
    BuiltRangesValid(b, b.ip6, names, st.ip6);
    BuiltAvoidsMapped(b, b.ip6, names, st.ip6);
    BuiltEntriesValid(b, b.exact, names, st.exact, st.categories);
    BuiltEntriesValid(b, b.suffix, names, st.suffix, st.categories);
    BuiltEntriesValid(b, b.keywords, names, st.keywords, st.categories);
  }
}
