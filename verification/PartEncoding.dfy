/** `encode`'s section payloads: which parts fit the wire and what bytes they become. */
module PartEncoding {
  import opened Wrappers
  import opened Words
  import opened Text
  import opened BookFormat
  import opened Flattening
  import opened LittleEndian
  import opened Sections
  import opened StringDecoding
  import opened FixedDecoding
  import opened BuildSpec

  predicate StringsEncodable(es: seq<StrEntry>) {
    && |es| < U32_LIMIT && |Pool(es)| < U32_LIMIT
    && forall i :: 0 <= i < |es| ==> |es[i].text| < 0x1_0000
  }

  /** Whole sets in a table of `words`-word sets. */
  function Sets64(words: nat, catsets: seq<nat>): nat {
    if words == 0 then 0 else |catsets| / words
  }

  predicate PartEncodable(part: Part) {
    match part
    case Strings(es) => StringsEncodable(es)
    case Sets(words, catsets) => Sets64(words, catsets) < U32_LIMIT
    case Ranges(rs) => |rs| < U32_LIMIT
  }

  function PartPayload(kind: nat, part: Part): Bytes {
    match part
    case Strings(es) => StringPayload(es)
    case Sets(words, catsets) => CatsetPayload(words, Sets64(words, catsets), catsets)
    case Ranges(rs) => RangePayload(rs, kind == SEC_IP6)
  }

  // ----- string sections

  /** The count and the first `i` header rows. */
  function HeadPart(es: seq<StrEntry>, i: nat): Bytes
    requires i <= |es|
  {
    LE(|es|, 4) + Flatten(HeadRows(HeadsOf(es[..i])))
  }

  lemma HeadStep(es: seq<StrEntry>, i: nat)
    requires i < |es|
    ensures HeadPart(es, i + 1) == HeadPart(es, i) + HeadRow(HeadAt(es, i))
  {
    var front, head := es[..i], HeadAt(es, i);
    assert es[..i + 1] == front + [es[i]];
    HeadsSnoc(front, es[i]);
    assert HeadRows(HeadsOf(front) + [head]) == HeadRows(HeadsOf(front)) + [HeadRow(head)];
    FlattenSnoc(HeadRows(HeadsOf(front)), HeadRow(head));
  }

  lemma HeadsDone(es: seq<StrEntry>)
    ensures es[..|es|] == es && StringPayload(es) == HeadPart(es, |es|) + LE(|Pool(es)|, 4) + Pool(es)
  {
    assert es[..|es|] == es;
  }

  /** Write the header rows and gather the pool. */
  method EncodeHeads(es: seq<StrEntry>) returns (r: Option<(Bytes, Bytes)>)
    ensures r.Some? ==>
              r.value == (HeadPart(es, |es|), Pool(es)) && forall i :: 0 <= i < |es| ==> |es[i].text| < 0x1_0000
    ensures r.None? ==> !StringsEncodable(es)
  {
    var payload, pool: Bytes := LE(|es|, 4), [];
    for i := 0 to |es|
      invariant payload == HeadPart(es, i) && pool == Pool(es[..i])
      invariant forall k :: 0 <= k < i ==> |es[k].text| < 0x1_0000
    {
      HeadStep(es, i);
      PoolPrefix(es, i);
      if |pool| >= U32_LIMIT || |es[i].text| >= 0x1_0000 { return None; }
      payload := payload + HeadRow(Head(|pool|, |es[i].text|, es[i].catset));
      pool := pool + es[i].text;
    }
    HeadsDone(es);
    r := Some((payload, pool));
  }

  method EncodeStrings(es: seq<StrEntry>) returns (r: Option<Bytes>)
    ensures r.Some? <==> StringsEncodable(es)
    ensures r.Some? ==> r.value == StringPayload(es)
  {
    r := None;
    if |es| >= U32_LIMIT { return; }
    var parts := EncodeHeads(es);
    if parts.None? { return; }
    var (payload, pool) := parts.value;
    if |pool| >= U32_LIMIT { return; }
    HeadsDone(es);
    r := Some(payload + LE(|pool|, 4) + pool);
  }

  // ----- category sets and ranges

  lemma WordsNext(start: Bytes, r: Bytes, ws: seq<nat>, i: nat)
    requires i < |ws| && r == start + Flatten(WordRows(ws[..i]))
    ensures r + LE(ws[i], 8) == start + Flatten(WordRows(ws[..i + 1]))
  {
    assert ws[..i + 1] == ws[..i] + [ws[i]];
    WordRowsSnoc(ws[..i], ws[i]);
    assert start + (Flatten(WordRows(ws[..i])) + LE(ws[i], 8)) == r + LE(ws[i], 8);
  }

  /** Append the words. */
  method AppendWords(start: Bytes, ws: seq<nat>) returns (r: Bytes)
    ensures r == start + Flatten(WordRows(ws))
  {
    r := start;
    for i := 0 to |ws|
      invariant r == start + Flatten(WordRows(ws[..i]))
    {
      WordsNext(start, r, ws, i);
      r := r + LE(ws[i], 8);
    }
    assert ws[..|ws|] == ws;
  }

  method EncodeCatsets(words: nat, catsets: seq<nat>) returns (r: Option<Bytes>)
    ensures r.Some? <==> Sets64(words, catsets) < U32_LIMIT
    ensures r.Some? ==> r.value == CatsetPayload(words, Sets64(words, catsets), catsets)
  {
    var n := Sets64(words, catsets);
    if n >= U32_LIMIT { return None; }
    var payload := AppendWords(LE(words, 4) + LE(n, 4), catsets);
    r := Some(payload);
  }

  lemma RangesNext(start: Bytes, r: Bytes, rs: seq<Range>, i: nat, v6: bool)
    requires i < |rs| && r == start + Flatten(RangeRows(rs[..i], v6))
    ensures r + RangeRow(rs[i], v6) == start + Flatten(RangeRows(rs[..i + 1], v6))
  {
    assert rs[..i + 1] == rs[..i] + [rs[i]];
    RangeRowsSnoc(rs[..i], rs[i], v6);
    assert start + (Flatten(RangeRows(rs[..i], v6)) + RangeRow(rs[i], v6)) == r + RangeRow(rs[i], v6);
  }

  /** Append the range records. */
  method AppendRanges(start: Bytes, rs: seq<Range>, v6: bool) returns (r: Bytes)
    ensures r == start + Flatten(RangeRows(rs, v6))
  {
    r := start;
    for i := 0 to |rs|
      invariant r == start + Flatten(RangeRows(rs[..i], v6))
    {
      RangesNext(start, r, rs, i, v6);
      r := r + RangeRow(rs[i], v6);
    }
    assert rs[..|rs|] == rs;
  }

  method EncodeRanges(rs: seq<Range>, v6: bool) returns (r: Option<Bytes>)
    ensures r.Some? <==> |rs| < U32_LIMIT
    ensures r.Some? ==> r.value == RangePayload(rs, v6)
  {
    if |rs| >= U32_LIMIT { return None; }
    var payload := AppendRanges(LE(|rs|, 4), rs, v6);
    r := Some(payload);
  }

  method EncodePart(kind: nat, part: Part) returns (r: Option<Bytes>)
    ensures r.Some? <==> PartEncodable(part)
    ensures r.Some? ==> r.value == PartPayload(kind, part)
  {
    match part {
      case Strings(es) => r := EncodeStrings(es);
      case Sets(words, catsets) => r := EncodeCatsets(words, catsets);
      case Ranges(rs) => r := EncodeRanges(rs, kind == SEC_IP6);
    }
  }

  // ----- against the decoder's reading

  /** The decoder's count limits. */
  predicate PartReadable(kind: nat, part: Part) {
    match part
    case Strings(es) => |es| <= if kind == SEC_CATEGORIES then MAX_CATEGORIES else MAX_ENTRIES
    case Sets(_, catsets) => |catsets| <= MAX_ENTRIES
    case Ranges(rs) => |rs| <= MAX_ENTRIES
  }

  /** What the Rust types of a section's fields guarantee. */
  ghost predicate PartTyped(kind: nat, part: Part, utf8: Utf8) {
    match part
    case Strings(es) =>
      kind in {1, 5, 6, 7} && forall i :: 0 <= i < |es| ==> es[i].catset < U32_LIMIT && utf8(es[i].text)
    case Sets(words, catsets) => kind == 2 && words < U32_LIMIT && ValidMask(catsets)
    case Ranges(rs) => kind in {3, 4} && TypedRanges(rs, AddressLimit(kind == SEC_IP6))
  }

  /** Whole sets only, and none without words. */
  predicate WholeSets(part: Part) {
    part.Sets? ==> if part.words == 0 then part.catsets == [] else |part.catsets| % part.words == 0
  }

  lemma WholeCount(words: nat, catsets: seq<nat>)
    requires WholeSets(Sets(words, catsets))
    ensures TotalWords(words, Sets64(words, catsets)) == |catsets|
  {
  }

  /** The payload `encode` writes is one the decoder reads back as the same part
      exactly when the part is within the decoder's limits. */
  lemma PayloadEncodes(kind: nat, part: Part, utf8: Utf8)
    requires PartTyped(kind, part, utf8) && PartEncodable(part) && WholeSets(part)
    ensures Encodes(kind, part, PartPayload(kind, part), utf8) <==> PartReadable(kind, part)
  {
    match part
    case Strings(es) =>
    case Sets(words, catsets) =>
      WholeCount(words, catsets);
      if PartReadable(kind, part) {
        assert CatsetLayout(PartPayload(kind, part), words, Sets64(words, catsets), catsets);
      }
    case Ranges(rs) =>
  }

  /** A written payload can be read as nothing but the part it was written for. */
  lemma PayloadDetermines(kind: nat, part: Part, part': Part, utf8: Utf8)
    requires PartTyped(kind, part, utf8) && PartEncodable(part) && WholeSets(part)
    requires Encodes(kind, part', PartPayload(kind, part), utf8)
    ensures part == part'
  {
    var payload := PartPayload(kind, part);
    match part
    case Strings(es) =>
      var max := U32_LIMIT;
      assert StringSection(payload, es, max, utf8) && StringSection(payload, part'.entries, max, utf8);
      SectionUnique(payload, es, part'.entries, max, utf8);
    case Sets(words, catsets) => CatsetDetermines(payload, words, catsets, part'.words, part'.catsets);
    case Ranges(rs) => RangeDetermines(payload, rs, part'.ranges, kind == SEC_IP6);
  }

  lemma CatsetDetermines(payload: Bytes, words: nat, catsets: seq<nat>, w: nat, xs: seq<nat>)
    requires WholeSets(Sets(words, catsets)) && words < U32_LIMIT && ValidMask(catsets)
    requires Sets64(words, catsets) < U32_LIMIT && payload == CatsetPayload(words, Sets64(words, catsets), catsets)
    requires CatsetSection(payload, w, xs)
    ensures words == w && catsets == xs
  {
    WholeCount(words, catsets);
    FlattenLength(WordRows(catsets), 8);
    FlattenLength(WordRows(xs), 8);
    assert CatsetLayout(payload, words, Sets64(words, catsets), catsets);
    CatsetUnique(payload, words, catsets, w, xs);
  }

  lemma RangeDetermines(payload: Bytes, rs: seq<Range>, ss: seq<Range>, v6: bool)
    requires |rs| < U32_LIMIT && TypedRanges(rs, AddressLimit(v6)) && payload == RangePayload(rs, v6)
    requires RangeSection(payload, ss, v6)
    ensures rs == ss
  {
    Widths();
    RangeSlices(rs, v6);
    RangeSlices(ss, v6);
    LEInjective(|rs|, |ss|, 4);
    RangeUnique(payload, rs, ss, v6);
  }

  /** The count field is zero where there are no words to count by. */
  predicate CanonicalCount(part: Part, payload: Bytes) {
    part.Sets? && part.words == 0 ==> |payload| == 8 && payload[4..8] == LE(0, 4)
  }

  /** Re-encoding what was read gives the payload back exactly when its count is
      canonical: only the count of zero-word sets is free. */
  lemma Reencoded(kind: nat, part: Part, payload: Bytes, utf8: Utf8)
    requires Encodes(kind, part, payload, utf8)
    ensures payload == PartPayload(kind, part) <==> CanonicalCount(part, payload)
    ensures part.Sets? && part.words == 0 ==>
              part.catsets == [] && |payload| == 8 && payload[..4] == PartPayload(kind, part)[..4]
  {
    if part.Sets? {
      var n: nat :| CatsetLayout(payload, part.words, n, part.catsets);
      if part.words != 0 {
        CountFromTotal(part.words, n, |part.catsets|);
      } else {
        CatsetSlices(0, n, []);
        CatsetSlices(0, 0, []);
        assert payload == payload[..4] + payload[4..8];
      }
    }
  }

  lemma CountFromTotal(words: nat, n: nat, total: nat)
    requires words > 0 && TotalWords(words, n) == total
    ensures total / words == n
  {
    DivExact(n, words);
    assert words * n == n * words;
  }

  /** With no categories the count field is not canonical: 0 and 5 both read back
      as the empty table. */
  lemma ZeroWordCountIsFree(utf8: Utf8)
    ensures var none := Sets(0, []);
            && Encodes(2, none, CatsetPayload(0, 0, []), utf8)
            && Encodes(2, none, CatsetPayload(0, 5, []), utf8)
            && CatsetPayload(0, 0, []) != CatsetPayload(0, 5, [])
  {
    assert CatsetLayout(CatsetPayload(0, 0, []), 0, 0, []);
    assert CatsetLayout(CatsetPayload(0, 5, []), 0, 5, []);
    Widths();
    ReadBack(0, 4);
    ReadBack(5, 4);
    assert CatsetPayload(0, 0, [])[4..8] == LE(0, 4) && CatsetPayload(0, 5, [])[4..8] == LE(5, 4);
  }
}
