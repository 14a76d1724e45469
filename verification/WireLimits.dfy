/** The encoder accepts more than the decoder: a run of builder calls whose book is
    written and cannot be read back. */
module WireLimits {
  import Orders
  import opened Wrappers
  import opened Words
  import opened Flattening
  import opened Text
  import opened Unicode
  import opened BookFormat
  import opened Rules
  import opened Coherence
  import opened Sweeping
  import opened CanonicalForm
  import Interning
  import opened BuildSpec
  import opened BuildValidity
  import opened Sections
  import opened PartEncoding
  import opened Decoder
  import opened Encoder
  import opened Pipeline

  // ----- many names

  /** A number in base sixteen, written with the letters a to p. */
  function Letters(n: nat, k: nat): (s: Bytes)
    ensures |s| == k && forall i :: 0 <= i < k ==> 97 <= s[i] < 113
  {
    if k == 0 then [] else [97 + n % 16] + Letters(n / 16, k - 1)
  }

  function Power16(k: nat): nat {
    if k == 0 then 1 else 16 * Power16(k - 1)
  }

  lemma {:induction false} LettersDiffer(m: nat, n: nat, k: nat)
    requires m < Power16(k) && n < Power16(k) && Letters(m, k) == Letters(n, k)
    ensures m == n
  {
    if k > 0 {
      var s, t := Letters(m, k), Letters(n, k);
      assert s[0] == t[0] && s[1..] == Letters(m / 16, k - 1) && t[1..] == Letters(n / 16, k - 1);
      LettersDiffer(m / 16, n / 16, k - 1);
    }
  }

  const CATEGORY: Bytes := [97]

  const NAMES: nat := MAX_ENTRIES + 1

  function Name(i: nat): Bytes {
    Letters(i, 6)
  }

  /** One name more than the decoder admits in a section. */
  function ManyNames(): (adds: seq<Add>)
    ensures |adds| == NAMES && forall i :: 0 <= i < NAMES ==> adds[i] == AddExact(CATEGORY, Name(i))
  {
    seq(NAMES, i requires 0 <= i < NAMES => AddExact(CATEGORY, Name(i)))
  }

  function NameSet(n: nat): set<Bytes> {
    set i | 0 <= i < n :: Name(i)
  }

  lemma {:induction false} CountNames(n: nat)
    requires n <= NAMES
    ensures |NameSet(n)| == n
  {
    if n > 0 {
      CountNames(n - 1);
      assert Power16(6) == 0x100_0000;
      if Name(n - 1) in NameSet(n - 1) {
        var i :| 0 <= i < n - 1 && Name(i) == Name(n - 1);
        LettersDiffer(i, n - 1, 6);
      }
      assert NameSet(n) == NameSet(n - 1) + {Name(n - 1)};
    }
  }

  lemma NameIsNormal(i: nat)
    ensures NormalizeDomain(Name(i)) == Name(i) && IsNormalized(Name(i)) && Name(i) != []
  {
    TrimNoop(Name(i), DOT);
    assert Lower(Name(i)) == Name(i);
  }

  lemma ExactEffect(cat: Bytes, host: Bytes, parse: ParseIp)
    requires CategoryOf(cat) == Some(cat) && NormalizeDomain(host) == host && host != []
    ensures EffectOf(AddExact(cat, host), parse) == Registered(cat, Exact(host))
  {
  }

  lemma NameEffect(i: nat, parse: ParseIp)
    ensures EffectOf(AddExact(CATEGORY, Name(i)), parse) == Registered(CATEGORY, Exact(Name(i)))
  {
    OneLetterCategory();
    NameIsNormal(i);
    ExactEffect([97], Name(i), parse);
  }

  /** Every call registers a name, and no two the same. */
  lemma ManyEffects(parse: ParseIp)
    ensures forall e :: e in Effects(ManyNames(), parse) <==> e.Registered? && e.cat == CATEGORY && e.rule.Exact? &&
                                                              e.rule.name in NameSet(NAMES)
  {
    var adds := ManyNames();
    forall i { NameEffect(i, parse); }
    forall e ensures e in Effects(adds, parse) <==>
                     e.Registered? && e.cat == CATEGORY && e.rule.Exact? && e.rule.name in NameSet(NAMES)
    {
      if e in Effects(adds, parse) {
        var i :| 0 <= i < NAMES && EffectOf(adds[i], parse) == e;
      }
      if e.Registered? && e.cat == CATEGORY && e.rule.Exact? && e.rule.name in NameSet(NAMES) {
        var i :| 0 <= i < NAMES && e.rule.name == Name(i);
        assert adds[i] in adds && EffectOf(adds[i], parse) == e;
      }
    }
  }

  lemma ManyBuildable(epoch: nat, parse: ParseIp)
    ensures Buildable(Run(ManyNames(), epoch, parse))
  {
    var adds := ManyNames();
    forall i { NameEffect(i, parse); }
    forall add | add in adds ensures StoresNormalized(add, parse) {
      var i :| 0 <= i < NAMES && adds[i] == add;
      NameIsNormal(i);
    }
    assert Paths(adds, parse) <= Ancestors(CATEGORY);
    OnePath();
    Orders.SmallerSet(Paths(adds, parse), {CATEGORY});
    BuildableIff(adds, epoch, parse);
  }

  lemma OnePath()
    ensures Ancestors(CATEGORY) == {CATEGORY}
  {
    assert CATEGORY[..1] == CATEGORY;
  }

  // ----- their book

  /** The state holds these names and nothing else. */
  ghost predicate HoldsNames(st: State) {
    && st.categories == {CATEGORY} && st.exact.Keys == NameSet(NAMES)
    && st.suffix.Keys == {} && st.keywords.Keys == {} && st.ip4 == [] && st.ip6 == []
  }

  lemma ManyKeys(m: Tagged, kind: Kind, parse: ParseIp)
    requires HoldsTags(m, Effects(ManyNames(), parse), kind)
    ensures m.Keys == if kind == ExactTable then NameSet(NAMES) else {}
  {
    ManyEffects(parse);
    var es := Effects(ManyNames(), parse);
    forall key ensures key in m <==> kind == ExactTable && key in NameSet(NAMES) {
      if key in m {
        var cat :| cat in m[key];
        assert TaggedWith(m, key, cat);
      }
      if kind == ExactTable && key in NameSet(NAMES) {
        assert Registered(CATEGORY, RuleFor(kind, key)) in es;
        assert TaggedWith(m, key, CATEGORY);
      }
    }
  }

  lemma ManyRanges(rs: seq<CatRange>, v4: bool, parse: ParseIp)
    requires HoldsRanges(rs, Effects(ManyNames(), parse), v4)
    ensures rs == []
  {
    assert |rs| > 0 ==> rs[0] in rs;
    ManyEffects(parse);
    assert forall x :: x !in rs;
  }

  lemma ManyState(epoch: nat, parse: ParseIp)
    ensures HoldsNames(Run(ManyNames(), epoch, parse))
  {
    var adds := ManyNames();
    var st, es := Run(adds, epoch, parse), Effects(adds, parse);
    RunRepresents(adds, epoch, parse);
    ManyKeys(Table(st, ExactTable), ExactTable, parse);
    ManyKeys(Table(st, SuffixTable), SuffixTable, parse);
    ManyKeys(Table(st, KeywordTable), KeywordTable, parse);
    ManyRanges(st.ip4, true, parse);
    ManyRanges(st.ip6, false, parse);
    ManyCategories(st.categories, parse);
  }

  lemma ManyCategories(cats: set<Bytes>, parse: ParseIp)
    requires HoldsCategories(cats, Effects(ManyNames(), parse))
    ensures cats == {CATEGORY}
  {
    ManyEffects(parse);
    OnePath();
    assert Name(0) in NameSet(NAMES);
    assert Registered(CATEGORY, Exact(Name(0))) in Effects(ManyNames(), parse);
  }

  lemma NoRanges(b: RawBook, rs: seq<Range>, names: seq<Bytes>)
    requires IdsIn(b, RangeIds(rs)) && RangesFrom(b, rs, names, [])
    ensures rs == []
  {
    var segs := Segs(b, rs);
    if rs != [] {
      InSegment(segs, b.words, 0, segs[0].lo);
    }
  }

  lemma EntryCount(b: RawBook, es: seq<StrEntry>, names: seq<Bytes>, m: Tagged)
    requires IdsIn(b, EntryIds(es)) && EntriesFrom(b, es, names, m)
    ensures |es| == |m.Keys|
  {
    SortedTextsSpec(m.Keys);
    assert |Texts(es)| == |es|;
  }

  lemma OneWordTable(rows: seq<Mask>)
    requires forall i :: 0 <= i < |rows| ==> |rows[i]| == 1
    ensures |Flatten(Interning.TableOf(rows))| <= |rows|
  {
    var table := Interning.TableOf(rows);
    Interning.TableOfDistinct(rows);
    Interning.TableSmall(rows);
    forall i | 0 <= i < |table| ensures |table[i]| == 1 { assert table[i] in rows; }
    FlattenLength(table, 1);
  }

  /** One word for each set, and no more sets than entries. */
  lemma ManySets(b: RawBook)
    requires SelfInterned(b) && b.words == 1 && |AllIds(b)| == NAMES
    ensures |b.catsets| <= NAMES
  {
    OneWordTable(Rows(b, AllIds(b)));
  }

  /** All the book has is one category and the names. */
  ghost predicate ManyShape(b: RawBook) {
    && b.ip4 == [] && b.ip6 == [] && b.suffix == [] && b.keywords == []
    && |b.categories| == 1 && |b.categories[0].name| == 1 && b.words == 1 && |b.catsets| <= NAMES
    && |b.exact| == NAMES && forall i :: 0 <= i < NAMES ==> |b.exact[i].text| == 6
  }

  lemma ExactNames(b: RawBook, es: seq<StrEntry>, names: seq<Bytes>, m: Tagged)
    requires IdsIn(b, EntryIds(es)) && EntriesFrom(b, es, names, m) && m.Keys == NameSet(NAMES)
    ensures |es| == NAMES && forall i :: 0 <= i < NAMES ==> |es[i].text| == 6
  {
    EntryCount(b, es, names, m);
    CountNames(NAMES);
    forall i | 0 <= i < |es| ensures |es[i].text| == 6 { assert es[i].text in NameSet(NAMES); }
  }

  lemma OneCategory(cats: seq<Category>)
    requires Names(cats) == SortedTexts({CATEGORY})
    ensures |cats| == 1 && cats[0].name == CATEGORY
  {
    SortedTextsSpec({CATEGORY});
    assert |Names(cats)| == |cats| && Names(cats)[0] in {CATEGORY};
  }

  lemma ManyBook(st: State, b: RawBook)
    requires HoldsNames(st) && IsBookOf(st, b)
    ensures ManyShape(b)
  {
    var names := SortedTexts(st.categories);
    OneCategory(b.categories);
    NoRanges(b, b.ip4, names);
    NoRanges(b, b.ip6, names);
    ExactNames(b, b.exact, names, st.exact);
    EntryCount(b, b.suffix, names, st.suffix);
    EntryCount(b, b.keywords, names, st.keywords);
    assert |AllIds(b)| == NAMES;
    ManySets(b);
  }

  lemma FixedTexts(es: seq<StrEntry>, width: nat)
    requires |es| <= NAMES && width < 0x100 && forall i :: 0 <= i < |es| ==> |es[i].text| == width
    ensures StringsEncodable(es)
  {
    FlattenLength(Texts(es), width);
    ProductBound(|es|, width, NAMES, 0x100);
  }

  lemma ShapeEncodable(b: RawBook, k: nat)
    requires ManyShape(b) && k in ALL_KINDS
    ensures PartEncodable(PartOf(b, k))
  {
    match k
    case 1 => FixedTexts(AsEntries(b.categories), 1);
    case 2 =>
    case 3 =>
    case 4 =>
    case 5 => FixedTexts(b.exact, 6);
    case 6 => FixedTexts(b.suffix, 0);
    case 7 => FixedTexts(b.keywords, 0);
  }

  lemma ShapeParts(b: RawBook)
    requires ManyShape(b)
    ensures forall i :: 0 <= i < 7 ==> PartEncodable(PartsOf(b)[i])
  {
    var p := (k: nat, part: Part) => PartEncodable(part);
    forall k | k in ALL_KINDS ensures p(k, PartOf(b, k)) { ShapeEncodable(b, k); }
    ByIndex(b, p);
    forall i | 0 <= i < 7 ensures PartEncodable(PartsOf(b)[i]) { assert p(i + 1, PartsOf(b)[i]); }
  }

  lemma ShapeUnreadable(b: RawBook)
    requires ManyShape(b)
    ensures !Readable(b) && SetCount(b) <= U32_LIMIT
  {
    var k := SEC_DOMAIN_EXACT;
    assert k in ALL_KINDS && PartOf(b, k) == Strings(b.exact) && !PartReadable(k, PartOf(b, k));
  }

  lemma ManyValid(epoch: nat, parse: ParseIp, b: RawBook)
    requires IsBookOf(Run(ManyNames(), epoch, parse), b)
    ensures BookFormat.Valid(b)
  {
    ManyBuildable(epoch, parse);
    RunCoherent(ManyNames(), epoch, parse);
    BuiltValid(Run(ManyNames(), epoch, parse), b);
  }

  /** The book of these calls can be encoded, and is beyond the decoder's limits. */
  lemma EncodableUnreadable(epoch: nat, parse: ParseIp, b: RawBook)
    requires IsBookOf(Run(ManyNames(), epoch, parse), b)
    ensures Encodable(b) && !Readable(b) && SetCount(b) <= U32_LIMIT
  {
    ManyState(epoch, parse);
    ManyBook(Run(ManyNames(), epoch, parse), b);
    ManyValid(epoch, parse, b);
    ShapeParts(b);
    ShapeUnreadable(b);
  }

  lemma NameCallText(i: nat, utf8: Utf8)
    requires TextLaws(utf8)
    ensures CallText(AddExact(CATEGORY, Name(i)), utf8)
  {
    AsciiIsText(CATEGORY, utf8);
    AsciiIsText(Name(i), utf8);
  }

  lemma ManyCallTexts(utf8: Utf8)
    requires TextLaws(utf8)
    ensures forall add :: add in ManyNames() ==> CallText(add, utf8)
  {
    forall i { NameCallText(i, utf8); }
  }

  lemma ManySucceed(parse: ParseIp)
    ensures forall add :: add in ManyNames() ==> Succeeds(add, parse)
  {
    forall i { NameEffect(i, parse); }
  }

  /** Write a book that is beyond the decoder's limits, and read it. */
  method WriteUnreadable(b: RawBook, sha: Sha, utf8: Utf8) returns (written: Result<Bytes>, read: Result<RawBook>)
    requires Typed(b) && BookTextsAre(b, utf8) && Encodable(b) && !Readable(b)
    ensures written == Ok(Encoded(b, sha)) && read.Err?
  {
    written := Encode(b, sha);
    EncodedIsArtifact(b, sha, utf8);
    read := Decode(written.value, sha, utf8);
    if read.Ok? { EncodedUnique(b, read.value, sha, utf8); }
  }

  /** So there are calls that succeed one by one, a book that builds from them, and an
      artifact that is written for it, and the decoder refuses the artifact. */
  method WrittenAndRefused(epoch: nat, parse: ParseIp, sha: Sha, utf8: Utf8)
      returns (built: Result<RawBook>, written: Result<Bytes>, read: Result<RawBook>)
    requires epoch < WORD_LIMIT && TextLaws(utf8)
    ensures forall add :: add in ManyNames() ==> Succeeds(add, parse)
    ensures built.Ok? && IsBookOf(Run(ManyNames(), epoch, parse), built.value)
    ensures written == Ok(Encoded(built.value, sha)) && read.Err?
  {
    ManySucceed(parse);
    ManyBuildable(epoch, parse);
    built := BuildBook(ManyNames(), epoch, parse);
    EncodableUnreadable(epoch, parse, built.value);
    RunTyped(ManyNames(), epoch, parse, built.value);
    ManyCallTexts(utf8);
    BookTexts(ManyNames(), epoch, parse, built.value, utf8);
    written, read := WriteUnreadable(built.value, sha, utf8);
  }
}
