/** The `.rab` builder: accumulates categorised entries and assembles the book. */
module Builder {
  import opened Wrappers
  import opened Words
  import opened Text
  import opened BookFormat
  import opened Addresses
  import opened Rules
  import opened Coherence
  import opened Sweeping
  import opened Flattening
  import opened Interning
  import opened BuildSpec
  import opened BuildValidity

  // ----- registering a path segment by segment

  lemma JoinPrefixIsAncestor(path: Bytes, j: nat)
    requires 1 <= j <= |Split(path, SLASH)|
    ensures Join(Split(path, SLASH)[..j], SLASH) in Ancestors(path)
  {
    var segs := Split(path, SLASH);
    var a := Join(segs[..j], SLASH);
    JoinSplit(path, SLASH);
    if j < |segs| {
      JoinConcat(segs[..j], segs[j..], SLASH);
      assert segs[..j] + segs[j..] == segs;
      assert a == path[..|a|] && path[|a|] == SLASH;
    } else {
      assert segs[..j] == segs && a == path[..|path|];
    }
  }

  lemma FrontIsJoin(a: Bytes, rest: Bytes) returns (j: nat)
    ensures var segs := Split(a + [SLASH] + rest, SLASH); 1 <= j <= |segs| && a == Join(segs[..j], SLASH)
  {
    var front := Split(a, SLASH);
    SplitConcat(a, rest, SLASH);
    JoinSplit(a, SLASH);
    j := |front|;
    assert (front + Split(rest, SLASH))[..j] == front;
  }

  lemma WholeIsJoin(path: Bytes) returns (j: nat)
    ensures var segs := Split(path, SLASH); 1 <= j <= |segs| && path == Join(segs[..j], SLASH)
  {
    var segs := Split(path, SLASH);
    j := |segs|;
    assert segs[..j] == segs;
    JoinSplit(path, SLASH);
  }

  lemma AncestorIsJoinPrefix(path: Bytes, a: Bytes) returns (j: nat)
    requires a in Ancestors(path)
    ensures 1 <= j <= |Split(path, SLASH)| && a == Join(Split(path, SLASH)[..j], SLASH)
  {
    var i :| 0 <= i <= |path| && (i == |path| || path[i] == SLASH) && a == path[..i];
    if i < |path| {
      var rest := path[i + 1..];
      assert a + [SLASH] + rest == path;
      j := FrontIsJoin(a, rest);
    } else {
      assert a == path;
      j := WholeIsJoin(path);
    }
  }

  /** The first segments joined, for every count up to `k`. */
  ghost function Prefixes(segs: seq<Bytes>, k: nat): set<Bytes>
    requires k <= |segs|
  {
    set j | 1 <= j <= k :: Join(segs[..j], SLASH)
  }

  lemma PrefixesSnoc(segs: seq<Bytes>, k: nat)
    requires k < |segs|
    ensures Prefixes(segs, k + 1) == Prefixes(segs, k) + {Join(segs[..k + 1], SLASH)}
  {
  }

  lemma JoinPrefixes(path: Bytes)
    ensures Prefixes(Split(path, SLASH), |Split(path, SLASH)|) == Ancestors(path)
  {
    forall j | 1 <= j <= |Split(path, SLASH)| ensures Join(Split(path, SLASH)[..j], SLASH) in Ancestors(path) {
      JoinPrefixIsAncestor(path, j);
    }
    forall a | a in Ancestors(path)
      ensures exists j :: 1 <= j <= |Split(path, SLASH)| && a == Join(Split(path, SLASH)[..j], SLASH)
    {
      var j := AncestorIsJoinPrefix(path, a);
    }
  }

  lemma JoinSnoc(segs: seq<Bytes>, k: nat)
    requires k < |segs|
    ensures Join(segs[..k + 1], SLASH) ==
            if k == 0 then segs[0] else Join(segs[..k], SLASH) + [SLASH] + segs[k]
  {
    if k == 0 {
      assert segs[..1] == [segs[0]];
    } else {
      assert segs[..k + 1] == segs[..k] + [segs[k]];
      JoinConcat(segs[..k], [segs[k]], SLASH);
    }
  }

  lemma {:induction false} JoinNonEmpty(segs: seq<Bytes>, k: nat)
    requires 1 <= k <= |segs| && forall i :: 0 <= i < |segs| ==> segs[i] != []
    ensures Join(segs[..k], SLASH) != []
  {
    JoinSnoc(segs, k - 1);
  }

  lemma {:induction false} PathBytes(path: Bytes)
    requires ValidPath(path) && path != []
    ensures forall i :: 0 <= i < |path| ==> IsPathByte(path[i]) || path[i] == SLASH
    ensures path[0] != SLASH && path[|path| - 1] != SLASH
    decreases |path|
  {
    var k := IndexOf(path, SLASH);
    var segs := Split(path, SLASH);
    assert segs[0] == path[..k] && segs[0] in segs;
    forall i | 0 <= i < k ensures IsPathByte(path[i]) { assert path[i] == segs[0][i]; }
    if k < |path| {
      var rest := path[k + 1..];
      assert segs == [path[..k]] + Split(rest, SLASH);
      assert forall seg :: seg in Split(rest, SLASH) ==> seg in segs;
      assert Split(rest, SLASH)[0] in segs;
      PathBytes(rest);
      forall i | k < i < |path| ensures IsPathByte(path[i]) || path[i] == SLASH { assert path[i] == rest[i - k - 1]; }
    }
  }

  lemma PathIsItsOwnNormalForm(path: Bytes)
    requires path != [] && ValidPath(path)
    ensures CategoryOf(path) == Some(path)
  {
    PathBytes(path);
    TrimNoop(path, SLASH);
    assert Lower(path) == path;
  }

  // ----- assembling

  /** The parent's index; `u32::MAX` for a root. */
  function ParentId(names: seq<Bytes>, name: Bytes): nat {
    match LastIndexOf(name, SLASH)
    case Some(k) => if name[..k] in names then IdOf(names, name[..k]) else NO_PARENT
    case None => NO_PARENT
  }

  function CategoryTable(names: seq<Bytes>): (r: seq<Category>)
    ensures Names(r) == names
  {
    seq(|names|, i requires 0 <= i < |names| => Category(names[i], ParentId(names, names[i])))
  }

  lemma ParentsPresent(cats: set<Bytes>)
    requires GoodCategories(cats) && |cats| < NO_PARENT
    ensures var t := CategoryTable(SortedTexts(cats)); forall i :: 0 <= i < |t| ==> ParentOk(t, t[i])
  {
    var names := SortedTexts(cats);
    SortedTextsSpec(cats);
    var t := CategoryTable(names);
    forall i | 0 <= i < |t| ensures ParentOk(t, t[i]) {
      var name := names[i];
      assert name in cats;
      if LastIndexOf(name, SLASH).Some? {
        var k := LastIndexOf(name, SLASH).value;
        assert name[..k] in Ancestors(name);
        assert name[..k] in names;
        assert t[IdOf(names, name[..k])].name == name[..k];
      }
    }
  }

  function SegMasks(segs: seq<Segment>): (r: seq<Mask>)
    ensures |r| == |segs| && forall i :: 0 <= i < |segs| ==> r[i] == segs[i].mask
  {
    seq(|segs|, i requires 0 <= i < |segs| => segs[i].mask)
  }

  function ZipRanges(segs: seq<Segment>, ids: seq<nat>): (r: seq<Range>)
    requires |segs| == |ids|
    ensures |r| == |segs| && forall i :: 0 <= i < |segs| ==> r[i] == Range(segs[i].lo, segs[i].hi, ids[i])
  {
    seq(|segs|, i requires 0 <= i < |segs| => Range(segs[i].lo, segs[i].hi, ids[i]))
  }

  function ZipEntries(texts: seq<Bytes>, ids: seq<nat>): (r: seq<StrEntry>)
    requires |texts| == |ids|
    ensures |r| == |texts| && forall i :: 0 <= i < |texts| ==> r[i] == StrEntry(texts[i], ids[i])
  {
    seq(|texts|, i requires 0 <= i < |texts| => StrEntry(texts[i], ids[i]))
  }

  /** `mask_of` */
  method CatsMask(names: seq<Bytes>, cats: set<Bytes>, words: nat) returns (mask: Mask)
    requires |names| <= 64 * words && cats != {} && forall c :: c in cats ==> c in names
    ensures |mask| == words && ValidMask(mask) && Bits(mask) != {} && Bits(mask) == IdSet(names, cats)
  {
    mask := MaskOf(IdSet(names, cats), words);
    ghost var c :| c in cats;
    assert IdOf(names, c) in Bits(mask);
  }

  /** The masks of one string table, in key order. */
  method TableMasks(names: seq<Bytes>, m: Tagged, words: nat, ghost cats: set<Bytes>) returns (masks: seq<Mask>)
    requires names == SortedTexts(cats) && |names| <= 64 * words && GoodTable(m, cats)
    ensures TabledFrom(SortedTexts(m.Keys), masks, names, m) && Usable(masks, words)
  {
    SortedTextsSpec(m.Keys);
    SortedTextsSpec(cats);
    var texts := SortedTexts(m.Keys);
    masks := [];
    for i := 0 to |texts|
      invariant |masks| == i && Usable(masks, words) && Tabled(texts, masks, names, m)
    {
      assert texts[i] in texts;
      var mask := CatsMask(names, m[texts[i]], words);
      UsableConcat(masks, [mask], words);
      TabledSnoc(texts, masks, mask, names, m);
      masks := masks + [mask];
    }
  }

  /** Ids that point into the table read back as the interned masks. */
  lemma IdsResolve(b: RawBook, table: seq<Mask>, ids: seq<nat>, masks: seq<Mask>)
    requires b.catsets == Flatten(table) && Rectangular(table, b.words) && Point(ids, masks, table)
    requires b.words == 0 ==> table == []
    ensures SetCount(b) == |table|
    ensures IdsIn(b, ids) && Rows(b, ids) == masks
  {
    FlattenLength(table, b.words);
    if b.words > 0 { DivExact(|table|, b.words); }
    forall i | 0 <= i < |ids| ensures ids[i] < SetCount(b) && Row(b, ids[i]) == masks[i] {
      FlattenRow(table, b.words, ids[i]);
    }
  }

  lemma PointGrows(out: seq<nat>, masks: seq<Mask>, seen: seq<Mask>, more: seq<Mask>)
    requires Point(out, masks, TableOf(seen))
    ensures Point(out, masks, TableOf(seen + more))
  {
    TableGrows(seen, more);
  }

  ghost predicate SweptFrom(segs: seq<Segment>, names: seq<Bytes>, src: seq<CatRange>, words: nat) {
    && (forall x :: x in src ==> x.cat in names)
    && Canonical(segs, words)
    && forall p: nat :: CatsIn(segs, p) == CatsAt(RawOf(names, src), p)
  }

  /** The masks so far are those of the first texts. */
  ghost predicate Tabled(texts: seq<Bytes>, masks: seq<Mask>, names: seq<Bytes>, m: Tagged) {
    && |masks| <= |texts|
    && forall i :: 0 <= i < |masks| ==> texts[i] in m && Bits(masks[i]) == IdSet(names, m[texts[i]])
  }

  lemma TabledSnoc(texts: seq<Bytes>, masks: seq<Mask>, mask: Mask, names: seq<Bytes>, m: Tagged)
    requires Tabled(texts, masks, names, m) && |masks| < |texts| && texts[|masks|] in m
    requires Bits(mask) == IdSet(names, m[texts[|masks|]])
    ensures Tabled(texts, masks + [mask], names, m)
  {
  }

  ghost predicate TabledFrom(texts: seq<Bytes>, masks: seq<Mask>, names: seq<Bytes>, m: Tagged) {
    |texts| == |masks| && texts == SortedTexts(m.Keys) && Tabled(texts, masks, names, m)
  }

  ghost predicate Usable(masks: seq<Mask>, words: nat) {
    forall m :: m in masks ==> |m| == words && ValidMask(m) && Bits(m) != {}
  }

  /** The table `b` flattens: rectangular, and empty when there are no words. */
  ghost predicate Tabulates(b: RawBook, table: seq<Mask>) {
    && b.catsets == Flatten(table) && Rectangular(table, b.words) && ValidMask(b.catsets)
    && (b.words == 0 ==> table == [])
  }

  lemma UsableTabulates(b: RawBook, masks: seq<Mask>)
    requires Usable(masks, b.words) && b.catsets == Flatten(TableOf(masks))
    ensures Tabulates(b, TableOf(masks))
  {
    var table := TableOf(masks);
    TableOfDistinct(masks);
    FlattenValid(table);
    forall i | 0 <= i < |table| ensures |table[i]| == b.words && Bits(table[i]) != {} { assert table[i] in masks; }
  }

  lemma RangesAssembled(b: RawBook, table: seq<Mask>, rs: seq<Range>, segs: seq<Segment>, names: seq<Bytes>,
                        src: seq<CatRange>)
    requires Tabulates(b, table) && SweptFrom(segs, names, src, b.words)
    requires |rs| == |segs| && Point(RangeIds(rs), SegMasks(segs), table) && rs == ZipRanges(segs, RangeIds(rs))
    ensures IdsIn(b, RangeIds(rs)) && Rows(b, RangeIds(rs)) == SegMasks(segs) && RangesFrom(b, rs, names, src)
  {
    IdsResolve(b, table, RangeIds(rs), SegMasks(segs));
    forall i | 0 <= i < |rs| ensures Segs(b, rs)[i] == segs[i] {
      assert Rows(b, RangeIds(rs))[i] == SegMasks(segs)[i];
    }
    assert Segs(b, rs) == segs;
  }

  lemma EntriesAssembled(b: RawBook, table: seq<Mask>, es: seq<StrEntry>, masks: seq<Mask>, names: seq<Bytes>,
                         m: Tagged)
    requires Tabulates(b, table) && TabledFrom(Texts(es), masks, names, m) && Point(EntryIds(es), masks, table)
    ensures IdsIn(b, EntryIds(es)) && Rows(b, EntryIds(es)) == masks && EntriesFrom(b, es, names, m)
  {
    IdsResolve(b, table, EntryIds(es), masks);
    forall i | 0 <= i < |es| ensures Bits(Row(b, EntryIds(es)[i])) == IdSet(names, m[es[i].text]) {
      assert Rows(b, EntryIds(es))[i] == masks[i];
    }
  }

  /** The five streams of masks, in interning order. */
  datatype Streams = Streams(s4: seq<Segment>, s6: seq<Segment>, exact: seq<Mask>, suffix: seq<Mask>,
                             keywords: seq<Mask>)

  ghost function AllMasks(s: Streams): seq<Mask> {
    SegMasks(s.s4) + SegMasks(s.s6) + s.exact + s.suffix + s.keywords
  }

  ghost predicate StreamsFrom(st: State, words: nat, s: Streams) {
    var names := SortedTexts(st.categories);
    && SweptFrom(s.s4, names, st.ip4, words) && SweptFrom(s.s6, names, st.ip6, words)
    && TabledFrom(SortedTexts(st.exact.Keys), s.exact, names, st.exact)
    && TabledFrom(SortedTexts(st.suffix.Keys), s.suffix, names, st.suffix)
    && TabledFrom(SortedTexts(st.keywords.Keys), s.keywords, names, st.keywords)
  }

  /** The ids of a book point at its streams' masks in `table`. */
  ghost predicate PointsAt(b: RawBook, s: Streams, table: seq<Mask>) {
    && |b.ip4| == |s.s4| && b.ip4 == ZipRanges(s.s4, RangeIds(b.ip4)) && Point(RangeIds(b.ip4), SegMasks(s.s4), table)
    && |b.ip6| == |s.s6| && b.ip6 == ZipRanges(s.s6, RangeIds(b.ip6)) && Point(RangeIds(b.ip6), SegMasks(s.s6), table)
    && Point(EntryIds(b.exact), s.exact, table)
    && Point(EntryIds(b.suffix), s.suffix, table)
    && Point(EntryIds(b.keywords), s.keywords, table)
  }

  ghost predicate TextsFrom(st: State, b: RawBook) {
    && Texts(b.exact) == SortedTexts(st.exact.Keys)
    && Texts(b.suffix) == SortedTexts(st.suffix.Keys)
    && Texts(b.keywords) == SortedTexts(st.keywords.Keys)
  }

  lemma ContentAssembled(st: State, b: RawBook, s: Streams, table: seq<Mask>)
    requires Tabulates(b, table) && StreamsFrom(st, b.words, s) && PointsAt(b, s, table) && TextsFrom(st, b)
    ensures ContentFrom(st, b)
  {
    var names := SortedTexts(st.categories);
    RangesAssembled(b, table, b.ip4, s.s4, names, st.ip4);
    RangesAssembled(b, table, b.ip6, s.s6, names, st.ip6);
    EntriesAssembled(b, table, b.exact, s.exact, names, st.exact);
    EntriesAssembled(b, table, b.suffix, s.suffix, names, st.suffix);
    EntriesAssembled(b, table, b.keywords, s.keywords, names, st.keywords);
  }

  lemma TableAssembled(b: RawBook, s: Streams)
    requires Tabulates(b, TableOf(AllMasks(s))) && PointsAt(b, s, TableOf(AllMasks(s)))
    ensures SelfInterned(b)
  {
    var table := TableOf(AllMasks(s));
    IdsResolve(b, table, RangeIds(b.ip4), SegMasks(s.s4));
    IdsResolve(b, table, RangeIds(b.ip6), SegMasks(s.s6));
    IdsResolve(b, table, EntryIds(b.exact), s.exact);
    IdsResolve(b, table, EntryIds(b.suffix), s.suffix);
    IdsResolve(b, table, EntryIds(b.keywords), s.keywords);
    AllRows(b);
  }

  method CheckSegments(norm: Bytes) returns (ok: bool)
    ensures ok <==> ValidPath(norm)
  {
    var segs := Split(norm, SLASH);
    for k := 0 to |segs|
      invariant forall i :: 0 <= i < k ==> ValidSegment(segs[i])
    {
      if !ValidSegment(segs[k]) { return false; }
    }
    ok := true;
  }

  /** Words of a mask with one bit per category. */
  function WordsFor(cats: set<Bytes>): nat {
    (|SortedTexts(cats)| + 63) / 64
  }

  lemma HeaderBuilt(st: State, b: RawBook)
    requires GoodCategories(st.categories) && |st.categories| < NO_PARENT
    requires b.epoch == st.epoch && b.categories == CategoryTable(SortedTexts(st.categories))
    requires b.words == (|b.categories| + 63) / 64
    ensures HeaderFrom(st, b)
  {
    ParentsPresent(st.categories);
    assert Names(b.categories) == SortedTexts(st.categories);
  }

  class BookBuilder {
    const epoch: nat
    var categories: set<Bytes>
    var ip4: seq<CatRange>
    var ip6: seq<CatRange>
    var exact: Tagged
    var suffix: Tagged
    var keywords: Tagged

    function Contents(): State
      reads this
    {
      State(epoch, categories, ip4, ip6, exact, suffix, keywords)
    }

    ghost predicate Valid()
      reads this
    {
      Coherent(Contents())
    }

    constructor (epoch: nat)
      ensures Contents() == Empty(epoch) && Valid()
    {
      this.epoch := epoch;
      categories, ip4, ip6, exact, suffix, keywords := {}, [], [], map[], map[], map[];
    }

    method AddCategory(path: Bytes) returns (r: Result<Bytes>)
      requires Valid()
      modifies `categories
      ensures Contents() == Put(old(Contents()), Register(path, Nothing)) && Valid()
      ensures r == match CategoryOf(path) case Some(c) => Ok(c) case None => Err
    {
      var norm := NormalizeCategory(path);
      if norm == [] { return Err; }
      var ok := CheckSegments(norm);
      if !ok { return Err; }
      PutCoherent(Contents(), Registered(norm, Nothing));
      InsertAncestors(norm);
      return Ok(norm);
    }

    /** Insert the path grown segment by segment. */
    method InsertAncestors(norm: Bytes)
      requires norm != [] && ValidPath(norm)
      modifies `categories
      ensures categories == old(categories) + Ancestors(norm)
    {
      var segs := Split(norm, SLASH);
      assert forall i :: 0 <= i < |segs| ==> segs[i] in segs;
      var acc: Bytes := [];
      for k := 0 to |segs|
        invariant acc == Join(segs[..k], SLASH)
        invariant categories == old(categories) + Prefixes(segs, k)
      {
        JoinSnoc(segs, k);
        if k > 0 { JoinNonEmpty(segs, k); }
        PrefixesSnoc(segs, k);
        if acc != [] { acc := acc + [SLASH]; }
        acc := acc + segs[k];
        categories := categories + {acc};
      }
      JoinPrefixes(norm);
    }

    /** A category that is in the table, with its ancestors. */
    ghost predicate Known(cat: Bytes)
      reads this
    {
      cat != [] && ValidPath(cat) && Ancestors(cat) <= categories
    }

    method TagSuffix(cat: Bytes, name: Bytes)
      requires Valid() && Known(cat) && name != []
      modifies `suffix
      ensures Contents() == Put(old(Contents()), Registered(cat, Suffix(name))) && Valid()
    {
      PutCoherent(Contents(), Registered(cat, Suffix(name)));
      assert categories + Ancestors(cat) == categories;
      suffix := Tag(suffix, ReverseLabels(name), cat);
    }

    method TagExact(cat: Bytes, name: Bytes)
      requires Valid() && Known(cat) && name != []
      modifies `exact
      ensures Contents() == Put(old(Contents()), Registered(cat, Exact(name))) && Valid()
    {
      PutCoherent(Contents(), Registered(cat, Exact(name)));
      assert categories + Ancestors(cat) == categories;
      exact := Tag(exact, name, cat);
    }

    method TagKeyword(cat: Bytes, name: Bytes)
      requires Valid() && Known(cat) && name != []
      modifies `keywords
      ensures Contents() == Put(old(Contents()), Registered(cat, Keyword(name))) && Valid()
    {
      PutCoherent(Contents(), Registered(cat, Keyword(name)));
      assert categories + Ancestors(cat) == categories;
      keywords := Tag(keywords, name, cat);
    }

    method TagRange(cat: Bytes, range: IpRange)
      requires Valid() && Known(cat)
      modifies `ip4, `ip6
      ensures Contents() == Put(old(Contents()), Registered(cat, Ip(range))) && Valid()
    {
      PutCoherent(Contents(), Registered(cat, Ip(range)));
      assert categories + Ancestors(cat) == categories;
      var pieces := Canonicalize(range);
      ip4 := ip4 + PiecesOf(pieces, true, cat);
      ip6 := ip6 + PiecesOf(pieces, false, cat);
    }

    /** `add_category`, and what the callers know of the result. */
    method EnterCategory(category: Bytes, ghost rule: Rule) returns (c: Option<Bytes>)
      requires Valid()
      modifies `categories
      ensures Valid() && c == CategoryOf(category)
      ensures Contents() == Put(old(Contents()), Register(category, Nothing))
      ensures c.Some? ==> Known(c.value)
      ensures c.Some? ==> Put(Contents(), Registered(c.value, rule)) == Put(old(Contents()), Register(category, rule))
      ensures c.None? || rule == Nothing ==> Contents() == Put(old(Contents()), Register(category, rule))
    {
      PutOnceRegistered(Contents(), category, rule);
      var r := AddCategory(category);
      c := if r.Ok? then Some(r.value) else None;
    }

    method AddDomainSuffix(category: Bytes, host: Bytes) returns (r: Result<()>)
      requires Valid()
      modifies this
      ensures Contents() == Put(old(Contents()), Register(category, SuffixRule(host))) && Valid()
      ensures r.Ok? <==> CategoryOf(category).Some? && SuffixRule(host) != Nothing
    {
      var c := EnterCategory(category, SuffixRule(host));
      if c.None? { return Err; }
      var name := NormalizeDomain(host);
      name := if WILDCARD_PREFIX <= name then name[2..] else name;
      if name == [] { return Err; }
      TagSuffix(c.value, name);
      return Ok(());
    }

    method AddDomainExact(category: Bytes, host: Bytes) returns (r: Result<()>)
      requires Valid()
      modifies this
      ensures Contents() == Put(old(Contents()), Register(category, ExactRule(host))) && Valid()
      ensures r.Ok? <==> CategoryOf(category).Some? && ExactRule(host) != Nothing
    {
      var c := EnterCategory(category, ExactRule(host));
      if c.None? { return Err; }
      var name := NormalizeDomain(host);
      if name == [] { return Err; }
      TagExact(c.value, name);
      return Ok(());
    }

    method AddKeywordFragment(category: Bytes, fragment: Bytes) returns (r: Result<()>)
      requires Valid()
      modifies this
      ensures Contents() == Put(old(Contents()), Register(category, KeywordRule(fragment))) && Valid()
      ensures r.Ok? <==> CategoryOf(category).Some? && KeywordRule(fragment) != Nothing
    {
      var c := EnterCategory(category, KeywordRule(fragment));
      if c.None? { return Err; }
      var name := NormalizeDomain(fragment);
      if name == [] { return Err; }
      TagKeyword(c.value, name);
      return Ok(());
    }

    method AddUntyped(cat: Bytes, t: Bytes, parse: ParseIp) returns (r: Result<()>)
      requires Valid() && Known(cat) && CategoryOf(cat) == Some(cat)
      modifies this
      ensures Contents() == Put(old(Contents()), Registered(cat, UntypedRule(t, parse))) && Valid()
      ensures r.Ok? <==> UntypedRule(t, parse) != Nothing
    {
      if parse(t).Some? {
        TagRange(cat, parse(t).value);
        r := Ok(());
      } else {
        var i := IndexOf(t, COLON);
        var name := if i == |t| then t else t[i + 1..];
        assert UntypedRule(t, parse) == SuffixRule(name);
        r := AddDomainSuffix(cat, name);
      }
    }

    /** The rule of a trimmed line, for a category that is in the table. */
    method AddTrimmed(cat: Bytes, t: Bytes, parse: ParseIp) returns (r: Result<()>)
      requires Valid() && Known(cat) && CategoryOf(cat) == Some(cat)
      modifies this
      ensures Contents() == Put(old(Contents()), Registered(cat, LineRule(t, parse))) && Valid()
      ensures r.Ok? <==> LineRule(t, parse) != Nothing
    {
      if t == [] {
        assert categories + Ancestors(cat) == categories;
        r := Err;
      } else if FULL_PREFIX <= t {
        r := AddDomainExact(cat, t[|FULL_PREFIX|..]);
      } else if KEYWORD_PREFIX <= t {
        r := AddKeywordFragment(cat, t[|KEYWORD_PREFIX|..]);
      } else if DOMAIN_PREFIX <= t {
        r := AddDomainSuffix(cat, t[|DOMAIN_PREFIX|..]);
      } else {
        r := AddUntyped(cat, t, parse);
      }
    }

    /** `add_rule` */
    method AddLine(category: Bytes, rule: Bytes, parse: ParseIp) returns (r: Result<()>)
      requires Valid()
      modifies this
      ensures Contents() == Put(old(Contents()), EffectOf(AddRule(category, rule), parse)) && Valid()
      ensures r.Ok? <==> Succeeds(AddRule(category, rule), parse)
    {
      var c := EnterCategory(category, RuleOf(rule, parse));
      if c.None? { return Err; }
      PathIsItsOwnNormalForm(c.value);
      r := AddTrimmed(c.value, Trim(rule), parse);
    }

    /** The mask streams of the five sections. */
    method ComputeStreams(names: seq<Bytes>, words: nat) returns (s: Streams)
      requires Valid() && names == SortedTexts(categories) && words == WordsFor(categories)
      ensures StreamsFrom(Contents(), words, s) && Usable(AllMasks(s), words)
    {
      ghost var st := Contents();
      SortedTextsSpec(categories);
      var s4 := SweepTagged(names, ip4, words, V4_MAX, categories);
      var s6 := SweepTagged(names, ip6, words, U128_MAX, categories);
      assert GoodTable(Table(st, ExactTable), categories) && GoodTable(Table(st, SuffixTable), categories)
          && GoodTable(Table(st, KeywordTable), categories);
      var m1 := TableMasks(names, exact, words, categories);
      var m2 := TableMasks(names, suffix, words, categories);
      var m3 := TableMasks(names, keywords, words, categories);
      s := Streams(s4, s6, m1, m2, m3);
      StreamsUsable(words, s4, s6, m1, m2, m3);
    }

    /** Assemble the book, before validation. */
    method Assemble() returns (b: RawBook)
      requires Valid()
      ensures ValidMask(b.catsets) && |b.categories| == |categories|
      ensures |categories| < NO_PARENT ==> IsBookOf(Contents(), b)
    {
      var st := Contents();
      var words := WordsFor(st.categories);
      var s := ComputeStreams(SortedTexts(categories), words);
      b := LayOut(st, words, s);
    }

    /** A book comes out exactly when the state is buildable; it is the one book
        of the state, and valid. */
    method Build() returns (r: Result<RawBook>)
      requires Valid()
      ensures r.Ok? <==> Buildable(Contents())
      ensures r.Ok? ==> IsBookOf(Contents(), r.value) && BookFormat.Valid(r.value)
    {
      var b := Assemble();
      var ok := Validate(b);
      if |categories| < NO_PARENT { BuiltValid(Contents(), b); }
      return if ok then Ok(b) else Err;
    }
  }

  lemma ZipParts(segs: seq<Segment>, ids: seq<nat>)
    requires |segs| == |ids|
    ensures RangeIds(ZipRanges(segs, ids)) == ids
  {
  }

  lemma ZipEntryParts(texts: seq<Bytes>, ids: seq<nat>)
    requires |texts| == |ids|
    ensures Texts(ZipEntries(texts, ids)) == texts && EntryIds(ZipEntries(texts, ids)) == ids
  {
  }

  lemma UsableConcat(x: seq<Mask>, y: seq<Mask>, words: nat)
    requires Usable(x, words) && Usable(y, words)
    ensures Usable(x + y, words)
  {
  }

  lemma SegmentsUsable(segs: seq<Segment>, words: nat)
    requires Canonical(segs, words)
    ensures Usable(SegMasks(segs), words)
  {
    forall m | m in SegMasks(segs) ensures |m| == words && ValidMask(m) && Bits(m) != {} {
      var i :| 0 <= i < |segs| && SegMasks(segs)[i] == m;
    }
  }

  lemma StreamsUsable(words: nat, s4: seq<Segment>, s6: seq<Segment>, m1: seq<Mask>, m2: seq<Mask>, m3: seq<Mask>)
    requires Canonical(s4, words) && Canonical(s6, words)
    requires Usable(m1, words) && Usable(m2, words) && Usable(m3, words)
    ensures Usable(SegMasks(s4) + SegMasks(s6) + m1 + m2 + m3, words)
  {
    SegmentsUsable(s4, words);
    SegmentsUsable(s6, words);
    UsableConcat(SegMasks(s4), SegMasks(s6), words);
    UsableConcat(SegMasks(s4) + SegMasks(s6), m1, words);
    UsableConcat(SegMasks(s4) + SegMasks(s6) + m1, m2, words);
    UsableConcat(SegMasks(s4) + SegMasks(s6) + m1 + m2, m3, words);
  }

  /** Intern the streams and lay out the book. */
  method InternStreams(st: State, names: seq<Bytes>, words: nat, s: Streams) returns (b: RawBook)
    requires StreamsFrom(st, words, s) && Usable(AllMasks(s), words)
    ensures b.epoch == st.epoch && b.categories == CategoryTable(names) && b.words == words
    ensures ContentFrom(st, b) && SelfInterned(b)
  {
    var catsets, i4, i6, i1, i2, i3 := InternAll(SegMasks(s.s4), SegMasks(s.s6), s.exact, s.suffix, s.keywords);
    b := RawBook(st.epoch, CategoryTable(names), words, catsets, ZipRanges(s.s4, i4), ZipRanges(s.s6, i6),
                 ZipEntries(SortedTexts(st.exact.Keys), i1),
                 ZipEntries(SortedTexts(st.suffix.Keys), i2),
                 ZipEntries(SortedTexts(st.keywords.Keys), i3));
    ZipParts(s.s4, i4);
    ZipParts(s.s6, i6);
    ZipEntryParts(SortedTexts(st.exact.Keys), i1);
    ZipEntryParts(SortedTexts(st.suffix.Keys), i2);
    ZipEntryParts(SortedTexts(st.keywords.Keys), i3);
    UsableTabulates(b, AllMasks(s));
    ContentAssembled(st, b, s, TableOf(AllMasks(s)));
    TableAssembled(b, s);
  }

  /** The whole book of a state, given its streams. */
  method LayOut(st: State, words: nat, s: Streams) returns (b: RawBook)
    requires Coherent(st) && words == WordsFor(st.categories) && StreamsFrom(st, words, s) && Usable(AllMasks(s), words)
    ensures ValidMask(b.catsets) && |b.categories| == |st.categories|
    ensures |st.categories| < NO_PARENT ==> IsBookOf(st, b)
  {
    SortedTextsSpec(st.categories);
    var names := SortedTexts(st.categories);
    b := InternStreams(st, names, words, s);
    assert |b.categories| == |names|;
    if |st.categories| < NO_PARENT { HeaderBuilt(st, b); }
  }

  /** The sweep of one address family. */
  method SweepTagged(names: seq<Bytes>, rs: seq<CatRange>, words: nat, max: nat, ghost cats: set<Bytes>)
      returns (segs: seq<Segment>)
    requires |names| <= 64 * words && max <= U128_MAX && GoodRanges(rs, cats, max)
    requires forall c :: c in cats ==> c in names
    ensures SweptFrom(segs, names, rs, words)
  {
    var raw := RawOf(names, rs);
    forall r | r in raw ensures r.lo <= r.hi <= U128_MAX && r.cat < 64 * words {
      var i :| 0 <= i < |raw| && raw[i] == r;
      assert rs[i] in rs;
    }
    segs := Sweep(raw, words);
  }

  /** Intern the five streams in their fixed order. */
  method InternAll(a: seq<Mask>, b: seq<Mask>, c: seq<Mask>, d: seq<Mask>, e: seq<Mask>)
      returns (catsets: Mask, ia: seq<nat>, ib: seq<nat>, ic: seq<nat>, id: seq<nat>, ie: seq<nat>)
    ensures var table := TableOf(a + b + c + d + e);
            && catsets == Flatten(table)
            && Point(ia, a, table) && Point(ib, b, table) && Point(ic, c, table)
            && Point(id, d, table) && Point(ie, e, table)
  {
    var ids: map<Mask, nat>;
    ids, catsets, ia := InternStream(map[], [], a, []);
    assert [] + a == a;
    ids, catsets, ib := InternStream(ids, catsets, b, a);
    ids, catsets, ic := InternStream(ids, catsets, c, a + b);
    ids, catsets, id := InternStream(ids, catsets, d, a + b + c);
    ids, catsets, ie := InternStream(ids, catsets, e, a + b + c + d);
    PointGrows(ia, a, a, b);
    PointGrows(ia, a, a + b, c);
    PointGrows(ia, a, a + b + c, d);
    PointGrows(ia, a, a + b + c + d, e);
    PointGrows(ib, b, a + b, c);
    PointGrows(ib, b, a + b + c, d);
    PointGrows(ib, b, a + b + c + d, e);
    PointGrows(ic, c, a + b + c, d);
    PointGrows(ic, c, a + b + c + d, e);
    PointGrows(id, d, a + b + c + d, e);
  }

  /** Registering a category first changes nothing: the entry's own call
      registers it again. */
  lemma PutOnceRegistered(st: State, category: Bytes, rule: Rule)
    ensures Put(Put(st, Register(category, Nothing)), Register(category, rule)) == Put(st, Register(category, rule))
  {
    if CategoryOf(category).Some? {
      var a := Ancestors(CategoryOf(category).value);
      assert st.categories + a + a == st.categories + a;
    }
  }
}
