/** From builder calls, through the artifact's bytes, to a decision: the book that
    is built, encoded, decoded and queried answers as the calls read. */
module Pipeline {
  import opened Wrappers
  import opened Words
  import opened Text
  import opened BookFormat
  import opened Addresses
  import opened Rules
  import opened Coherence
  import opened Sweeping
  import opened CanonicalForm
  import opened BuildSpec
  import opened BuildValidity
  import opened Builder
  import opened Queries
  import opened Resolution
  import opened SelectorCache
  import opened EndToEnd
  import opened Sections
  import opened Encoder
  import opened Unicode

  // ----- the built book fits the Rust types

  lemma RangesTyped(b: RawBook, rs: seq<Range>, names: seq<Bytes>, src: seq<CatRange>, cats: set<Bytes>, max: nat)
    requires IdsIn(b, RangeIds(rs)) && RangesFrom(b, rs, names, src) && GoodRanges(src, cats, max)
    requires SetCount(b) <= U32_LIMIT
    ensures TypedRanges(rs, max + 1)
  {
    var segs := Segs(b, rs);
    forall r | r in rs ensures r.lo <= max && r.hi <= max && r.catset < U32_LIMIT {
      var i :| 0 <= i < |rs| && rs[i] == r;
      assert RangeIds(rs)[i] < SetCount(b);
      InSegment(segs, b.words, i, r.hi);
      var c :| c in Bits(segs[i].mask);
      assert c in CatsAt(RawOf(names, src), r.hi);
      SourceCategories(names, src, r.hi, c);
    }
  }

  lemma EntriesTyped(b: RawBook, es: seq<StrEntry>)
    requires IdsIn(b, EntryIds(es)) && SetCount(b) <= U32_LIMIT
    ensures TypedEntries(es)
  {
    forall e | e in es ensures e.catset < U32_LIMIT {
      var i :| 0 <= i < |es| && es[i] == e;
      assert EntryIds(es)[i] < SetCount(b);
    }
  }

  lemma CategoriesTyped(cats: seq<Category>)
    requires |cats| <= MAX_CATEGORIES && forall i :: 0 <= i < |cats| ==> ParentOk(cats, cats[i])
    ensures forall c :: c in cats ==> c.parent < U32_LIMIT
  {
    forall c | c in cats ensures c.parent < U32_LIMIT {
      var i :| 0 <= i < |cats| && cats[i] == c;
      assert ParentOk(cats, cats[i]);
    }
  }

  /** Category set ids fit 32 bits (the builder stops otherwise), and then every
      field of the built book fits its type. */
  lemma BuiltTyped(st: State, b: RawBook)
    requires Coherent(st) && IsBookOf(st, b) && Buildable(st) && st.epoch < WORD_LIMIT && SetCount(b) <= U32_LIMIT
    ensures Typed(b)
  {
    var names := SortedTexts(st.categories);
    SortedTextsSpec(st.categories);
    assert |Names(b.categories)| == |b.categories|;
    CategoriesTyped(b.categories);
    RangesTyped(b, b.ip4, names, st.ip4, st.categories, V4_MAX);
    RangesTyped(b, b.ip6, names, st.ip6, st.categories, U128_MAX);
    EntriesTyped(b, b.exact);
    EntriesTyped(b, b.suffix);
    EntriesTyped(b, b.keywords);
  }

  // ----- running the builder

  method Apply(builder: BookBuilder, add: Add, parse: ParseIp) returns (ok: bool)
    requires builder.Valid()
    modifies builder
    ensures builder.Valid() && builder.Contents() == Put(old(builder.Contents()), EffectOf(add, parse))
    ensures ok <==> Succeeds(add, parse)
  {
    match add {
      case AddCategory(path) =>
        var r := builder.AddCategory(path);
        ok := r.Ok?;
      case AddRule(category, rule) =>
        var r := builder.AddLine(category, rule, parse);
        ok := r.Ok?;
      case AddSuffix(category, host) =>
        var r := builder.AddDomainSuffix(category, host);
        ok := r.Ok?;
      case AddExact(category, host) =>
        var r := builder.AddDomainExact(category, host);
        ok := r.Ok?;
      case AddKeyword(category, fragment) =>
        var r := builder.AddKeywordFragment(category, fragment);
        ok := r.Ok?;
    }
  }

  /** What the call stores, if it stores a text, is normalised: a test of one call. */
  predicate StoresNormalized(add: Add, parse: ParseIp) {
    EffectNormalized(EffectOf(add, parse))
  }

  predicate EffectNormalized(e: Effect) {
    e.Registered? && (e.rule.Exact? || e.rule.Suffix? || e.rule.Keyword?) ==> IsNormalized(KeyOf(e.rule))
  }

  /** The paths the calls register, with their ancestors. */
  ghost function Paths(adds: seq<Add>, parse: ParseIp): set<Bytes> {
    set add, c | add in adds && EffectOf(add, parse).Registered? && c in Ancestors(EffectOf(add, parse).cat) :: c
  }

  lemma KeysNormalizedIff(m: Tagged, es: set<Effect>, kind: Kind)
    requires HoldsTags(m, es, kind)
    ensures NormalizedKeys(m) <==> forall e :: e in es && e.Registered? && Belongs(e.rule, kind) ==> EffectNormalized(e)
  {
    if NormalizedKeys(m) {
      forall e | e in es && e.Registered? && Belongs(e.rule, kind) ensures EffectNormalized(e) {
        RuleOfKey(e.rule, kind, KeyOf(e.rule));
        assert TaggedWith(m, KeyOf(e.rule), e.cat);
      }
    } else {
      var key :| key in m && !IsNormalized(key);
      var cat :| cat in m[key];
      assert TaggedWith(m, key, cat);
      RuleOfKey(RuleFor(kind, key), kind, key);
      assert !EffectNormalized(Registered(cat, RuleFor(kind, key)));
    }
  }

  lemma PathsAreCategories(adds: seq<Add>, parse: ParseIp, st: State)
    requires Represents(st, Effects(adds, parse))
    ensures st.categories == Paths(adds, parse)
  {
    forall c ensures c in st.categories <==> c in Paths(adds, parse) {
      if c in st.categories {
        var e :| e in Effects(adds, parse) && e.Registered? && c in Ancestors(e.cat);
        var add :| add in adds && EffectOf(add, parse) == e;
      }
      if c in Paths(adds, parse) {
        var add :| add in adds && EffectOf(add, parse).Registered? && c in Ancestors(EffectOf(add, parse).cat);
        assert EffectOf(add, parse) in Effects(adds, parse);
      }
    }
  }

  lemma TablesNormalizedIff(st: State, es: set<Effect>)
    requires Represents(st, es)
    ensures NormalizedKeys(st.exact) && NormalizedKeys(st.suffix) && NormalizedKeys(st.keywords) <==>
            forall e :: e in es ==> EffectNormalized(e)
  {
    forall kind ensures NormalizedKeys(Table(st, kind)) <==>
                        forall e :: e in es && e.Registered? && Belongs(e.rule, kind) ==> EffectNormalized(e)
    {
      KeysNormalizedIff(Table(st, kind), es, kind);
    }
    assert Table(st, ExactTable) == st.exact && Table(st, SuffixTable) == st.suffix;
    assert Table(st, KeywordTable) == st.keywords;
  }

  /** A run is buildable exactly when its paths are within the limit and each call by
      itself stores a normalised text. */
  lemma BuildableIff(adds: seq<Add>, epoch: nat, parse: ParseIp)
    ensures Buildable(Run(adds, epoch, parse)) <==>
            |Paths(adds, parse)| <= MAX_CATEGORIES && forall add :: add in adds ==> StoresNormalized(add, parse)
  {
    var st, es := Run(adds, epoch, parse), Effects(adds, parse);
    RunRepresents(adds, epoch, parse);
    PathsAreCategories(adds, parse, st);
    TablesNormalizedIff(st, es);
    assert forall add :: add in adds ==> EffectOf(add, parse) in es;
  }

  /** Any run of calls, then `build`. */
  method BuildBook(adds: seq<Add>, epoch: nat, parse: ParseIp) returns (r: Result<RawBook>)
    ensures r.Ok? <==> Buildable(Run(adds, epoch, parse))
    ensures r.Ok? <==>
            |Paths(adds, parse)| <= MAX_CATEGORIES && forall add :: add in adds ==> StoresNormalized(add, parse)
    ensures r.Ok? ==> IsBookOf(Run(adds, epoch, parse), r.value) && BookFormat.Valid(r.value)
  {
    var builder := new BookBuilder(epoch);
    for i := 0 to |adds|
      invariant builder.Valid() && fresh(builder) && builder.Contents() == Run(adds[..i], epoch, parse)
    {
      assert adds[..i + 1][..i] == adds[..i];
      var ok := Apply(builder, adds[i], parse);
    }
    assert adds[..|adds|] == adds;
    BuildableIff(adds, epoch, parse);
    r := builder.Build();
  }

  const DOT_SPACE_A: Bytes := [46, 32, 97]

  lemma DotSpaceStored()
    ensures NormalizeDomain(DOT_SPACE_A) == [32, 97] && !IsNormalized([32, 97])
  {
    var s := DOT_SPACE_A;
    TrimStartNoop(s);
    TrimEndNoop(s);
    assert s[1..] == [32, 97];
    assert TrimByteStart([32, 97], DOT) == [32, 97];
    assert TrimByte(s, DOT) == [32, 97];
    assert Lower([32, 97]) == [32, 97];
    TrimStartsClean([32, 97]);
  }

  lemma TrimStartsClean(t: Bytes)
    requires t == [32, 97]
    ensures TrimByte(Trim(t), DOT) != t
  {
    assert StartOf(t, 0) == StartOf(t, 1) == 1;
    assert TrimStart(t) == [97];
    TrimEndNoop([97]);
    assert TrimByte([97], DOT) == [97];
  }

  /** A call may succeed and the book still fail to build: the stored name of the
      host ". a" keeps its space. */
  lemma BuildCanFail(parse: ParseIp)
    ensures var add := AddExact([97], DOT_SPACE_A);
            Succeeds(add, parse) && !Buildable(Run([add], 0, parse))
  {
    DotSpaceStored();
    OneLetterCategory();
    FailsOn([97], DOT_SPACE_A, [32, 97], parse);
  }

  /** A name that is stored as it is not normalised. */
  lemma FailsOn(cat: Bytes, host: Bytes, name: Bytes, parse: ParseIp)
    requires CategoryOf(cat) == Some(cat) && NormalizeDomain(host) == name && name != [] && !IsNormalized(name)
    ensures var add := AddExact(cat, host); Succeeds(add, parse) && !Buildable(Run([add], 0, parse))
  {
    var add := AddExact(cat, host);
    assert EffectOf(add, parse) == Registered(cat, Exact(name));
    assert [add][..0] == [];
    assert Run([add], 0, parse) == Put(Empty(0), EffectOf(add, parse));
    assert name in Run([add], 0, parse).exact;
  }

  lemma OneLetterCategory()
    ensures CategoryOf([97]) == Some([97])
  {
    assert IndexOf([97], SLASH) == 1;
    assert Split([97], SLASH) == [[97]];
    PathIsItsOwnNormalForm([97]);
  }

  // ----- patterns

  /** Some call registered a category equal to or below the name. */
  ghost predicate Mentioned(es: set<Effect>, name: Bytes) {
    exists e :: e in es && e.Registered? && Under(e.cat, name)
  }

  lemma UnderAncestor(cat: Bytes, a: Bytes, name: Bytes)
    requires a in Ancestors(cat) && Under(a, name)
    ensures Under(cat, name)
  {
  }

  lemma NamedIffMentioned(cats: set<Bytes>, es: set<Effect>, table: seq<Category>, name: Bytes)
    requires forall c :: c in cats <==> exists e :: e in es && e.Registered? && c in Ancestors(e.cat)
    requires Names(table) == SortedTexts(cats)
    ensures (exists i :: 0 <= i < |table| && Under(table[i].name, name)) <==> Mentioned(es, name)
  {
    SortedTextsSpec(cats);
    if i :| 0 <= i < |table| && Under(table[i].name, name) {
      assert Names(table)[i] in cats;
      var e :| e in es && e.Registered? && table[i].name in Ancestors(e.cat);
      UnderAncestor(e.cat, table[i].name, name);
    }
    if e :| e in es && e.Registered? && Under(e.cat, name) {
      assert e.cat[..|e.cat|] == e.cat;
      assert e.cat in Ancestors(e.cat) && e.cat in cats;
      assert e.cat in Names(table);
      var i :| 0 <= i < |Names(table)| && Names(table)[i] == e.cat;
      assert Under(table[i].name, name);
    }
  }

  /** A pattern names a category of the book exactly when some call mentioned it. */
  lemma KnownIffMentioned(st: State, es: set<Effect>, b: RawBook, name: Bytes)
    requires Represents(st, es) && IsBookOf(st, b)
    ensures Known(b, name) <==> Mentioned(es, name)
  {
    assert HeaderFrom(st, b);
    NamedIffMentioned(st.categories, es, b.categories, name);
  }

  ghost predicate AllMentioned(es: set<Effect>, patterns: set<Bytes>) {
    forall n :: n in patterns ==> n != [] && Mentioned(es, n)
  }

  lemma ResolvesIffMentioned(adds: seq<Add>, epoch: nat, parseIp: ParseIp, b: RawBook, patterns: set<Bytes>,
                             r: Result<Mask>)
    requires IsBookOf(Run(adds, epoch, parseIp), b) && ResolvesTo(b, patterns, r)
    ensures r.Ok? <==> AllMentioned(Effects(adds, parseIp), patterns)
  {
    RunRepresents(adds, epoch, parseIp);
    forall n { KnownIffMentioned(Run(adds, epoch, parseIp), Effects(adds, parseIp), b, n); }
  }

  // ----- the whole path

  /** Resolve the patterns and match. */
  method Consult(b: RawBook, patterns: seq<Bytes>, host: Bytes, parse: ParseAddr)
      returns (r: Option<bool>, ghost sel: Result<Mask>)
    requires BookFormat.Valid(b) && ValidMask(b.catsets)
    ensures ResolvesTo(b, Normalized(patterns), sel) && (r.Some? <==> sel.Ok?)
    ensures r.Some? ==> (r.value <==> Selects(b, HostSets(b, host, parse), sel.value))
  {
    var book := new AddrBook(b);
    var shared := book.Resolve(patterns);
    sel := SelectorCache.MaskOf(shared);
    if shared.Err? { return None, sel; }
    var found := Matches(b, host, shared.value.mask, parse);
    r := Some(found);
  }

  /** A built book answers exactly when every pattern was mentioned, and then as the
      calls say. */
  method Answer(adds: seq<Add>, epoch: nat, parseIp: ParseIp, b: RawBook, patterns: seq<Bytes>, host: Bytes,
                parse: ParseAddr)
      returns (r: Option<bool>)
    requires IsBookOf(Run(adds, epoch, parseIp), b) && GoodParse(parse)
    requires BookFormat.Valid(b) && ValidMask(b.catsets)
    ensures r.Some? <==> AllMentioned(Effects(adds, parseIp), Normalized(patterns))
    ensures r.Some? ==> (r.value <==> Covered(Effects(adds, parseIp), host, parse, Normalized(patterns)))
  {
    ghost var sel;
    r, sel := Consult(b, patterns, host, parse);
    ResolvesIffMentioned(adds, epoch, parseIp, b, Normalized(patterns), sel);
    if r.Some? { BuiltBookAnswers(adds, epoch, parseIp, b, host, parse, patterns, sel.value); }
  }

  // ----- the strings of a built book

  /** The effects register text only. */
  ghost predicate TextEffects(es: set<Effect>, utf8: Utf8) {
    forall e :: e in es && e.Registered? ==> utf8(e.cat) && RuleText(e.rule, utf8)
  }

  lemma CallsMakeText(adds: seq<Add>, parse: ParseIp, utf8: Utf8)
    requires TextLaws(utf8) && forall add :: add in adds ==> CallText(add, utf8)
    ensures TextEffects(Effects(adds, parse), utf8)
  {
    forall e | e in Effects(adds, parse) && e.Registered? ensures utf8(e.cat) && RuleText(e.rule, utf8) {
      var add :| add in adds && EffectOf(add, parse) == e;
      EffectText(add, parse, utf8);
    }
  }

  lemma KeyText(m: Tagged, es: set<Effect>, kind: Kind, key: Bytes, utf8: Utf8)
    requires HoldsTags(m, es, kind) && TextLaws(utf8) && TextEffects(es, utf8) && key in m
    ensures utf8(key)
  {
    var cat :| cat in m[key];
    assert TaggedWith(m, key, cat);
    assert RuleText(RuleFor(kind, key), utf8);
    if kind == SuffixTable {
      ReverseLabelsText(ReverseLabels(key), utf8);
      ReverseLabelsInvolution(key);
    }
  }

  lemma EntryTexts(b: RawBook, es: seq<StrEntry>, names: seq<Bytes>, m: Tagged, effects: set<Effect>, kind: Kind,
                   utf8: Utf8)
    requires IdsIn(b, EntryIds(es)) && EntriesFrom(b, es, names, m)
    requires HoldsTags(m, effects, kind) && TextLaws(utf8) && TextEffects(effects, utf8)
    ensures TextsAre(es, utf8)
  {
    forall i | 0 <= i < |es| ensures utf8(es[i].text) { KeyText(m, effects, kind, es[i].text, utf8); }
  }

  lemma CategoryTexts(cats: seq<Category>, paths: set<Bytes>, es: set<Effect>, utf8: Utf8)
    requires Names(cats) == SortedTexts(paths) && HoldsCategories(paths, es)
    requires TextLaws(utf8) && TextEffects(es, utf8)
    ensures TextsAre(AsEntries(cats), utf8)
  {
    SortedTextsSpec(paths);
    forall i | 0 <= i < |cats| ensures utf8(AsEntries(cats)[i].text) {
      assert Names(cats)[i] in paths;
      var e :| e in es && e.Registered? && cats[i].name in Ancestors(e.cat);
      AncestorText(e.cat, cats[i].name, utf8);
    }
  }

  lemma TablesHold(st: State, es: set<Effect>)
    requires Represents(st, es)
    ensures HoldsTags(st.exact, es, ExactTable) && HoldsTags(st.suffix, es, SuffixTable)
    ensures HoldsTags(st.keywords, es, KeywordTable) && HoldsCategories(st.categories, es)
  {
    assert HoldsTags(Table(st, ExactTable), es, ExactTable) && HoldsTags(Table(st, SuffixTable), es, SuffixTable);
    assert HoldsTags(Table(st, KeywordTable), es, KeywordTable);
  }

  lemma StateTexts(st: State, es: set<Effect>, b: RawBook, utf8: Utf8)
    requires IsBookOf(st, b) && Represents(st, es) && TextLaws(utf8) && TextEffects(es, utf8)
    ensures BookTextsAre(b, utf8)
  {
    var names := SortedTexts(st.categories);
    TablesHold(st, es);
    assert HeaderFrom(st, b) && ContentFrom(st, b);
    CategoryTexts(b.categories, st.categories, es, utf8);
    EntryTexts(b, b.exact, names, st.exact, es, ExactTable, utf8);
    EntryTexts(b, b.suffix, names, st.suffix, es, SuffixTable, utf8);
    EntryTexts(b, b.keywords, names, st.keywords, es, KeywordTable, utf8);
  }

  /** If the strings of the calls are text, so are those of the book. */
  lemma BookTexts(adds: seq<Add>, epoch: nat, parse: ParseIp, b: RawBook, utf8: Utf8)
    requires IsBookOf(Run(adds, epoch, parse), b) && TextLaws(utf8)
    requires forall add :: add in adds ==> CallText(add, utf8)
    ensures BookTextsAre(b, utf8)
  {
    RunRepresents(adds, epoch, parse);
    CallsMakeText(adds, parse, utf8);
    StateTexts(Run(adds, epoch, parse), Effects(adds, parse), b, utf8);
  }

  /** Encode the built book, decode the bytes, resolve the patterns, and match. The
      decision is there exactly when the book fits the wire and the decoder's limits
      and every pattern was mentioned; and then it is what the calls say. */
  method Serve(adds: seq<Add>, epoch: nat, parseIp: ParseIp, b: RawBook, sha: Sha, utf8: Utf8,
               patterns: seq<Bytes>, host: Bytes, parse: ParseAddr)
      returns (r: Option<bool>)
    requires IsBookOf(Run(adds, epoch, parseIp), b) && GoodParse(parse)
    requires Typed(b) && BookTextsAre(b, utf8)
    ensures r.Some? <==>
            Encodable(b) && Readable(b) && AllMentioned(Effects(adds, parseIp), Normalized(patterns))
    ensures r.Some? ==> (r.value <==> Covered(Effects(adds, parseIp), host, parse, Normalized(patterns)))
  {
    var decoded := RoundTrip(b, sha, utf8);
    if decoded.Err? { return None; }
    r := Answer(adds, epoch, parseIp, decoded.value, patterns, host, parse);
  }

  /** Every book of the state fits the wire and the decoder's limits; there is one at
      most. */
  ghost predicate FitsWire(st: State) {
    forall b :: IsBookOf(st, b) ==> Encodable(b) && Readable(b)
  }

  lemma FitsWireAt(st: State, b: RawBook)
    requires IsBookOf(st, b)
    ensures FitsWire(st) <==> Encodable(b) && Readable(b)
  {
    if Encodable(b) && Readable(b) {
      forall b' | IsBookOf(st, b') ensures Encodable(b') && Readable(b') { BookUnique(st, st, b, b'); }
    }
  }

  lemma RunTyped(adds: seq<Add>, epoch: nat, parseIp: ParseIp, b: RawBook)
    requires IsBookOf(Run(adds, epoch, parseIp), b) && Buildable(Run(adds, epoch, parseIp)) && epoch < WORD_LIMIT
    requires SetCount(b) <= U32_LIMIT
    ensures Typed(b)
  {
    RunRepresents(adds, epoch, parseIp);
    RunCoherent(adds, epoch, parseIp);
    BuiltTyped(Run(adds, epoch, parseIp), b);
  }

  /** The whole path: run the calls, build, encode, decode, resolve, match. There is a
      decision exactly when the run is buildable, its book fits, and every pattern was
      mentioned; and it is whether some call registered a covering rule under one. */
  method BuildAndServe(adds: seq<Add>, epoch: nat, parseIp: ParseIp, sha: Sha, utf8: Utf8, patterns: seq<Bytes>,
                       host: Bytes, parse: ParseAddr)
      returns (r: Option<bool>)
    requires GoodParse(parse) && epoch < WORD_LIMIT && TextLaws(utf8)
    requires forall add :: add in adds ==> CallText(add, utf8)
    requires forall b :: IsBookOf(Run(adds, epoch, parseIp), b) ==> SetCount(b) <= U32_LIMIT
    ensures r.Some? <==>
            && Buildable(Run(adds, epoch, parseIp)) && FitsWire(Run(adds, epoch, parseIp))
            && AllMentioned(Effects(adds, parseIp), Normalized(patterns))
    ensures r.Some? ==> (r.value <==> Covered(Effects(adds, parseIp), host, parse, Normalized(patterns)))
  {
    var built := BuildBook(adds, epoch, parseIp);
    if built.Err? { return None; }
    RunTyped(adds, epoch, parseIp, built.value);
    BookTexts(adds, epoch, parseIp, built.value, utf8);
    FitsWireAt(Run(adds, epoch, parseIp), built.value);
    r := Serve(adds, epoch, parseIp, built.value, sha, utf8, patterns, host, parse);
  }
}
