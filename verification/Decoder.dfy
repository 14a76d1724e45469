/** The strict decoder: it accepts a byte string exactly when it is the artifact
    of some book, and returns that book. */
module Decoder {
  import opened Wrappers
  import opened Words
  import opened Text
  import opened BookFormat
  import opened Sections
  import opened StringDecoding
  import opened FixedDecoding
  import opened Container

  const EMPTY_BOOK: RawBook := RawBook(0, [], 0, [], [], [], [], [], [])

  // ----- one section

  /** A payload encodes at most one part. */
  lemma PartUnique(kind: nat, a: Part, b: Part, payload: Bytes, utf8: Utf8)
    requires Encodes(kind, a, payload, utf8) && Encodes(kind, b, payload, utf8)
    ensures a == b
  {
    match (a, b)
    case (Strings(es), Strings(fs)) =>
      SectionUnique(payload, es, fs, if kind == 1 then MAX_CATEGORIES else MAX_ENTRIES, utf8);
    case (Sets(w, xs), Sets(v, ys)) => CatsetUnique(payload, w, xs, v, ys);
    case (Ranges(rs), Ranges(ss)) => RangeUnique(payload, rs, ss, kind == 4);
    case (_, _) =>
  }

  /** The part and what is left of the heap budget. */
  ghost predicate Affordable(kind: nat, part: Part, payload: Bytes, utf8: Utf8, heap: nat) {
    Encodes(kind, part, payload, utf8) && heap + PartHeap(kind, part) <= MAX_DECODED_HEAP_BYTES
  }

  predicate IsStrings(kind: nat) {
    kind == SEC_CATEGORIES || kind == SEC_DOMAIN_EXACT || kind == SEC_DOMAIN_SUFFIX || kind == SEC_KEYWORD
  }

  method DecodeStringPart(kind: nat, payload: Bytes, heap: nat, utf8: Utf8) returns (r: Option<Part>, heap': nat)
    requires IsStrings(kind)
    ensures r.Some? ==> Affordable(kind, r.value, payload, utf8, heap) && heap' == heap + PartHeap(kind, r.value)
    ensures r.None? ==> forall part :: !Affordable(kind, part, payload, utf8, heap)
  {
    var max := if kind == SEC_CATEGORIES then MAX_CATEGORIES else MAX_ENTRIES;
    var es;
    es, heap' := DecodeStrings(payload, max, heap, utf8);
    if es.Some? { return Some(Strings(es.value)), heap'; }
    r := None;
    forall part ensures !Affordable(kind, part, payload, utf8, heap) {
      if part.Strings? && StringSection(payload, part.entries, max, utf8) {
        assert heap + StringHeap(part.entries) > MAX_DECODED_HEAP_BYTES;
      }
    }
  }

  method DecodeSetPart(kind: nat, payload: Bytes, heap: nat, utf8: Utf8) returns (r: Option<Part>, heap': nat)
    requires kind == SEC_CATSETS
    ensures r.Some? ==> Affordable(kind, r.value, payload, utf8, heap) && heap' == heap + PartHeap(kind, r.value)
    ensures r.None? ==> forall part :: !Affordable(kind, part, payload, utf8, heap)
  {
    var sets;
    sets, heap' := DecodeCatsets(payload, heap);
    if sets.Some? { return Some(Sets(sets.value.0, sets.value.1)), heap'; }
    r := None;
    forall part ensures !Affordable(kind, part, payload, utf8, heap) {
      if part.Sets? { assert !CatsetsAffordable(payload, part.words, part.catsets, heap); }
    }
  }

  method DecodeRangePart(kind: nat, payload: Bytes, heap: nat, utf8: Utf8) returns (r: Option<Part>, heap': nat)
    requires kind == SEC_IP4 || kind == SEC_IP6
    ensures r.Some? ==> Affordable(kind, r.value, payload, utf8, heap) && heap' == heap + PartHeap(kind, r.value)
    ensures r.None? ==> forall part :: !Affordable(kind, part, payload, utf8, heap)
  {
    var rs;
    rs, heap' := DecodeRanges(payload, kind == SEC_IP6, heap);
    if rs.Some? { return Some(Ranges(rs.value)), heap'; }
    r := None;
    forall part ensures !Affordable(kind, part, payload, utf8, heap) {
      if part.Ranges? { assert !RangesAffordable(payload, part.ranges, kind == SEC_IP6, heap); }
    }
  }

  lemma UnknownKind(kind: nat, payload: Bytes, utf8: Utf8, heap: nat)
    requires kind !in ALL_KINDS
    ensures forall part :: !Affordable(kind, part, payload, utf8, heap)
  {
  }

  method DecodePart(kind: nat, payload: Bytes, heap: nat, utf8: Utf8) returns (r: Option<Part>, heap': nat)
    ensures r.Some? ==> Affordable(kind, r.value, payload, utf8, heap) && heap' == heap + PartHeap(kind, r.value)
    ensures r.None? ==> forall part :: !Affordable(kind, part, payload, utf8, heap)
  {
    if IsStrings(kind) {
      r, heap' := DecodeStringPart(kind, payload, heap, utf8);
    } else if kind == SEC_CATSETS {
      r, heap' := DecodeSetPart(kind, payload, heap, utf8);
    } else if kind == SEC_IP4 || kind == SEC_IP6 {
      r, heap' := DecodeRangePart(kind, payload, heap, utf8);
    } else {
      UnknownKind(kind, payload, utf8, heap);
      r, heap' := None, heap;
    }
  }

  // ----- filling the book

  /** Store a part in its field. */
  function SetPart(b: RawBook, kind: nat, part: Part): RawBook {
    match part
    case Strings(es) =>
      if kind == 1 then b.(categories := AsCategories(es))
      else if kind == 5 then b.(exact := es)
      else if kind == 6 then b.(suffix := es)
      else if kind == 7 then b.(keywords := es) else b
    case Sets(words, catsets) => b.(words := words, catsets := catsets)
    case Ranges(rs) => if kind == 3 then b.(ip4 := rs) else if kind == 4 then b.(ip6 := rs) else b
  }

  predicate RightShape(kind: nat, part: Part) {
    match part
    case Strings(_) => kind in {1, 5, 6, 7}
    case Sets(_, _) => kind == 2
    case Ranges(_) => kind in {3, 4}
  }

  lemma SetPartGets(b: RawBook, kind: nat, part: Part)
    requires RightShape(kind, part)
    ensures PartOf(SetPart(b, kind, part), kind) == part && SetPart(b, kind, part).epoch == b.epoch
    ensures forall k :: k != kind ==> PartOf(SetPart(b, kind, part), k) == PartOf(b, k)
  {
    if part.Strings? { CategoriesAreEntries(AsCategories(part.entries), part.entries); }
  }

  ghost predicate AgreesOn(a: RawBook, b: RawBook, kinds: set<nat>) {
    forall k :: k in kinds ==> PartOf(a, k) == PartOf(b, k)
  }

  lemma PartsDetermine(a: RawBook, b: RawBook)
    requires a.epoch == b.epoch && AgreesOn(a, b, ALL_KINDS)
    ensures a == b
  {
    assert PartOf(a, 1) == PartOf(b, 1) && PartOf(a, 2) == PartOf(b, 2) && PartOf(a, 3) == PartOf(b, 3)
        && PartOf(a, 4) == PartOf(b, 4) && PartOf(a, 5) == PartOf(b, 5) && PartOf(a, 6) == PartOf(b, 6)
        && PartOf(a, 7) == PartOf(b, 7);
    CategoriesAreEntries(a.categories, AsEntries(b.categories));
    CategoriesAreEntries(b.categories, AsEntries(b.categories));
  }

  lemma HeapAgrees(a: RawBook, b: RawBook, kinds: set<nat>)
    requires AgreesOn(a, b, kinds)
    ensures HeapOf(a, kinds) == HeapOf(b, kinds)
  {
    forall k ensures HeapIf(a, k, kinds) == HeapIf(b, k, kinds) {}
  }

  lemma HeapAdds(b: RawBook, kinds: set<nat>, kind: nat)
    requires kind in ALL_KINDS && kind !in kinds
    ensures HeapOf(b, kinds + {kind}) == HeapOf(b, kinds) + PartHeap(kind, PartOf(b, kind))
  {
    forall k | k != kind ensures HeapIf(b, k, kinds + {kind}) == HeapIf(b, k, kinds) {}
    assert HeapIf(b, kind, kinds) == 0;
  }

  lemma HeapBounded(b: RawBook, kinds: set<nat>, kind: nat)
    requires kind in ALL_KINDS && kind !in kinds
    ensures HeapOf(b, kinds) + PartHeap(kind, PartOf(b, kind)) <= HeapOf(b, ALL_KINDS)
  {
    HeapAdds(b, kinds, kind);
    forall k ensures HeapIf(b, k, kinds + {kind}) <= PartHeap(k, PartOf(b, k)) {}
  }

  // ----- all sections

  /** Which payloads encode which parts; kept abstract while the table is walked. */
  type Coding = (nat, Part, Bytes) -> bool

  ghost function Encoding(utf8: Utf8): Coding {
    (kind: nat, part, payload) => Encodes(kind, part, payload, utf8)
  }

  /** The first `n` sections, of kinds `seen`, are decoded into `book`. */
  ghost predicate DecodedTo(book: RawBook, body: Bytes, t: seq<TableEntry>, n: nat, seen: set<nat>, coding: Coding)
    requires n <= |t|
  {
    && (forall i :: 0 <= i < n ==> t[i].kind in seen && coding(t[i].kind, PartOf(book, t[i].kind), Payload(body, t[i])))
    && (forall i, j :: 0 <= i < j < n ==> t[i].kind != t[j].kind)
    && (forall k :: k in seen ==> HasKind(t, n, k))
  }

  ghost predicate HasKind(t: seq<TableEntry>, n: nat, k: nat)
    requires n <= |t|
  {
    exists i :: 0 <= i < n && t[i].kind == k
  }

  lemma DecodedStep(a: RawBook, b: RawBook, body: Bytes, t: seq<TableEntry>, n: nat, seen: set<nat>, coding: Coding)
    requires n < |t| && DecodedTo(a, body, t, n, seen, coding) && AgreesOn(a, b, seen) && t[n].kind !in seen
    requires coding(t[n].kind, PartOf(b, t[n].kind), Payload(body, t[n]))
    ensures DecodedTo(b, body, t, n + 1, seen + {t[n].kind}, coding)
  {
    forall k | k in seen ensures HasKind(t, n + 1, k) {
      assert HasKind(t, n, k);
    }
  }

  /** A book whose sections these are, within budget. */
  ghost predicate Fits(b: RawBook, body: Bytes, t: seq<TableEntry>, coding: Coding) {
    && KindsOnce(t) && HeapOf(b, ALL_KINDS) <= MAX_DECODED_HEAP_BYTES
    && forall i :: 0 <= i < |t| ==> coding(t[i].kind, PartOf(b, t[i].kind), Payload(body, t[i]))
  }

  /** The next section of a book that fits is new and affordable. */
  lemma FitsAffords(w: RawBook, a: RawBook, body: Bytes, t: seq<TableEntry>, n: nat, seen: set<nat>, coding: Coding)
    requires n < |t| && Fits(w, body, t, coding) && DecodedTo(a, body, t, n, seen, coding) && AgreesOn(a, w, seen)
    ensures t[n].kind !in seen && coding(t[n].kind, PartOf(w, t[n].kind), Payload(body, t[n]))
    ensures HeapOf(a, seen) + PartHeap(t[n].kind, PartOf(w, t[n].kind)) <= MAX_DECODED_HEAP_BYTES
  {
    assert !(t[n].kind in seen && HasKind(t, n, t[n].kind));
    HeapAgrees(a, w, seen);
    HeapBounded(w, seen, t[n].kind);
  }

  /** The one part this payload encodes, if the budget allows it. */
  method DecodeCoded(kind: nat, payload: Bytes, heap: nat, utf8: Utf8, ghost coding: Coding)
      returns (r: Option<Part>, heap': nat)
    requires coding == Encoding(utf8)
    ensures r.Some? ==> RightShape(kind, r.value) && coding(kind, r.value, payload)
    ensures r.Some? ==> heap' == heap + PartHeap(kind, r.value) <= MAX_DECODED_HEAP_BYTES
    ensures forall part ::
              coding(kind, part, payload) && heap + PartHeap(kind, part) <= MAX_DECODED_HEAP_BYTES ==> r == Some(part)
  {
    r, heap' := DecodePart(kind, payload, heap, utf8);
    forall part | Affordable(kind, part, payload, utf8, heap) ensures r == Some(part) {
      if r.Some? { PartUnique(kind, r.value, part, payload, utf8); }
    }
  }

  /** Storing a newly decoded part keeps what was decoded before. */
  lemma Stored(book: RawBook, part: Part, body: Bytes, t: seq<TableEntry>, n: nat, seen: set<nat>, coding: Coding)
    requires n < |t| && DecodedTo(book, body, t, n, seen, coding)
    requires t[n].kind !in seen && RightShape(t[n].kind, part) && coding(t[n].kind, part, Payload(body, t[n]))
    ensures var next := SetPart(book, t[n].kind, part);
            && DecodedTo(next, body, t, n + 1, seen + {t[n].kind}, coding) && next.epoch == book.epoch
            && HeapOf(next, seen + {t[n].kind}) == HeapOf(book, seen) + PartHeap(t[n].kind, part)
            && PartOf(next, t[n].kind) == part && AgreesOn(book, next, seen)
  {
    var next := SetPart(book, t[n].kind, part);
    SetPartGets(book, t[n].kind, part);
    DecodedStep(book, next, body, t, n, seen, coding);
    HeapAgrees(book, next, seen);
    HeapAdds(next, seen, t[n].kind);
  }

  /** Where the walk over the table stands: `w` is any book that fits. */
  ghost predicate Walking(book: RawBook, body: Bytes, t: seq<TableEntry>, n: nat, heap: nat, seen: set<nat>,
                          w: RawBook, coding: Coding)
    requires n <= |t|
  {
    && seen <= ALL_KINDS && |seen| == n && DecodedTo(book, body, t, n, seen, coding)
    && heap == HeapOf(book, seen) <= MAX_DECODED_HEAP_BYTES && (Fits(w, body, t, coding) ==> AgreesOn(book, w, seen))
  }

  lemma WalkStarts(book: RawBook, body: Bytes, t: seq<TableEntry>, w: RawBook, coding: Coding)
    ensures Walking(book, body, t, 0, 0, {}, w, coding)
  {
  }

  lemma WalkStep(book: RawBook, part: Part, body: Bytes, t: seq<TableEntry>, n: nat, heap: nat, heap': nat,
                 seen: set<nat>, w: RawBook,
                 coding: Coding)
    requires n < |t| && Walking(book, body, t, n, heap, seen, w, coding)
    requires t[n].kind !in seen && RightShape(t[n].kind, part) && coding(t[n].kind, part, Payload(body, t[n]))
    requires heap' == heap + PartHeap(t[n].kind, part) <= MAX_DECODED_HEAP_BYTES
    requires Fits(w, body, t, coding) ==> part == PartOf(w, t[n].kind)
    ensures var next := SetPart(book, t[n].kind, part);
            Walking(next, body, t, n + 1, heap', seen + {t[n].kind}, w, coding) && next.epoch == book.epoch
  {
    Stored(book, part, body, t, n, seen, coding);
  }

  lemma WalkEnds(book: RawBook, body: Bytes, t: seq<TableEntry>, heap: nat, seen: set<nat>, w: RawBook, coding: Coding)
    requires |t| == SECTION_COUNT && Walking(book, body, t, |t|, heap, seen, w, coding)
    ensures Fits(book, body, t, coding) && forall k :: k in ALL_KINDS ==> HasKind(t, |t|, k)
  {
    AllSeen(seen);
  }

  /** Decode the next section into the book. */
  method DecodeNext(book: RawBook, body: Bytes, t: seq<TableEntry>, n: nat, heap: nat, seen: set<nat>, utf8: Utf8,
                    ghost w: RawBook, ghost coding: Coding)
      returns (r: Option<RawBook>, heap': nat)
    requires n < |t| && Walking(book, body, t, n, heap, seen, w, coding) && coding == Encoding(utf8)
    ensures r.Some? ==>
              r.value.epoch == book.epoch && Walking(r.value, body, t, n + 1, heap', seen + {t[n].kind}, w, coding)
    ensures r.None? ==> !Fits(w, body, t, coding)
  {
    var kind := t[n].kind;
    if Fits(w, body, t, coding) { FitsAffords(w, book, body, t, n, seen, coding); }
    if kind in seen { return None, heap; }
    var part;
    part, heap' := DecodeCoded(kind, Payload(body, t[n]), heap, utf8, coding);
    if part.None? { return None, heap; }
    WalkStep(book, part.value, body, t, n, heap, heap', seen, w, coding);
    r := Some(SetPart(book, kind, part.value));
  }

  method DecodeSections(epoch: nat, body: Bytes, t: seq<TableEntry>, utf8: Utf8, ghost coding: Coding)
      returns (r: Option<RawBook>)
    requires |t| == SECTION_COUNT && coding == Encoding(utf8)
    ensures r.Some? ==> r.value.epoch == epoch && Fits(r.value, body, t, coding)
    ensures r.Some? ==> forall k :: k in ALL_KINDS ==> HasKind(t, |t|, k)
    ensures r.None? ==> forall w :: !Fits(w, body, t, coding)
  {
    ghost var w := EMPTY_BOOK;
    if v :| Fits(v, body, t, coding) { w := v; }
    var book := EMPTY_BOOK.(epoch := epoch);
    var heap: nat := 0;
    var seen: set<nat> := {};
    WalkStarts(book, body, t, w, coding);
    for n := 0 to |t|
      invariant book.epoch == epoch && Walking(book, body, t, n, heap, seen, w, coding)
    {
      var next, heap' := DecodeNext(book, body, t, n, heap, seen, utf8, w, coding);
      if next.None? { return None; }
      book, heap, seen := next.value, heap', seen + {t[n].kind};
    }
    WalkEnds(book, body, t, heap, seen, w, coding);
    r := Some(book);
  }

  lemma AllSeen(seen: set<nat>)
    requires seen <= ALL_KINDS && |seen| == 7
    ensures seen == ALL_KINDS
  {
    assert |ALL_KINDS - seen| == |ALL_KINDS| - |seen|;
  }

  // ----- the whole artifact

  /** The body is laid out as this table and this book. */
  ghost predicate Laid(body: Bytes, t: seq<TableEntry>, b: RawBook, coding: Coding) {
    HeaderOf(body, b.epoch, t) && Tiles(t, PAYLOAD_START, |body|) && Fits(b, body, t, coding)
  }

  /** Sections that cover every kind determine the book. */
  lemma FitsUnique(a: RawBook, b: RawBook, body: Bytes, t: seq<TableEntry>, utf8: Utf8)
    requires Fits(a, body, t, Encoding(utf8)) && Fits(b, body, t, Encoding(utf8)) && a.epoch == b.epoch
    requires forall k :: k in ALL_KINDS ==> HasKind(t, |t|, k)
    ensures a == b
  {
    forall k | k in ALL_KINDS ensures PartOf(a, k) == PartOf(b, k) {
      assert HasKind(t, |t|, k);
      var i :| 0 <= i < |t| && t[i].kind == k;
      PartUnique(k, PartOf(a, k), PartOf(b, k), Payload(body, t[i]), utf8);
    }
    PartsDetermine(a, b);
  }

  lemma PayloadNonEmpty(kind: nat, part: Part, payload: Bytes, utf8: Utf8)
    requires Encodes(kind, part, payload, utf8)
    ensures payload != []
  {
  }

  lemma PayloadsNonEmpty(b: RawBook, body: Bytes, t: seq<TableEntry>, utf8: Utf8)
    requires Fits(b, body, t, Encoding(utf8))
    ensures NoneEmpty(t)
  {
    forall i | 0 <= i < |t| ensures t[i].len > 0 {
      PayloadNonEmpty(t[i].kind, PartOf(b, t[i].kind), Payload(body, t[i]), utf8);
    }
  }

  lemma SetsTyped(b: RawBook, body: Bytes, t: seq<TableEntry>, utf8: Utf8)
    requires Fits(b, body, t, Encoding(utf8)) && HasKind(t, |t|, SEC_CATSETS)
    ensures ValidMask(b.catsets)
  {
    var i :| 0 <= i < |t| && t[i].kind == SEC_CATSETS;
    assert Encodes(SEC_CATSETS, PartOf(b, SEC_CATSETS), Payload(body, t[i]), utf8);
  }

  method DecodeBody(body: Bytes, utf8: Utf8, ghost coding: Coding) returns (r: Option<RawBook>)
    requires |body| >= HEADER_LEN && coding == Encoding(utf8)
    ensures r.Some? ==> ValidMask(r.value.catsets) && exists t :: Laid(body, t, r.value, coding)
    ensures forall t, b :: Laid(body, t, b, coding) ==> r == Some(b)
  {
    var header := ReadHeader(body);
    if header.None? { return None; }
    var (epoch, t) := header.value;
    forall s, b | Laid(body, s, b, coding) ensures s == t && b.epoch == epoch && NoneEmpty(t) {
      HeaderUnique(body, b.epoch, s, epoch, t);
      PayloadsNonEmpty(b, body, s, utf8);
    }
    var tiled := CheckTiling(t, PAYLOAD_START, |body|);
    if !tiled { return None; }
    r := DecodeSections(epoch, body, t, utf8, coding);
    if r.None? { return; }
    assert Laid(body, t, r.value, coding);
    forall s, b | Laid(body, s, b, coding) ensures b == r.value { FitsUnique(r.value, b, body, t, utf8); }
    SetsTyped(r.value, body, t, utf8);
  }

  ghost predicate Sealed(bytes: Bytes, sha: Sha) {
    |bytes| >= CHECKSUM_LEN && bytes == BodyBytes(bytes) + sha(BodyBytes(bytes))
  }

  lemma LaidIsBody(body: Bytes, t: seq<TableEntry>, b: RawBook, utf8: Utf8)
    ensures Laid(body, t, b, Encoding(utf8)) <==>
            BodyOf(body, t, b, utf8) && HeapOf(b, ALL_KINDS) <= MAX_DECODED_HEAP_BYTES
  {
  }

  /** An artifact is a sealed, laid out, valid book. */
  lemma ArtifactLaid(bytes: Bytes, b: RawBook, sha: Sha, utf8: Utf8)
    ensures Artifact(bytes, b, sha, utf8) <==>
            && Valid(b) && Sealed(bytes, sha)
            && exists t :: Laid(BodyBytes(bytes), t, b, Encoding(utf8))
  {
    forall t { LaidIsBody(BodyBytes(bytes), t, b, utf8); }
  }

  /** Accepts exactly the artifacts, and returns the one book each stands for. */
  method Decode(bytes: Bytes, sha: Sha, utf8: Utf8) returns (r: Result<RawBook>)
    ensures r.Ok? ==> Artifact(bytes, r.value, sha, utf8)
    ensures forall b :: Artifact(bytes, b, sha, utf8) ==> r == Ok(b)
  {
    r := Err;
    forall b { ArtifactLaid(bytes, b, sha, utf8); }
    if |bytes| < HEADER_LEN + CHECKSUM_LEN { return; }
    var body := BodyBytes(bytes);
    assert bytes == body + bytes[|body|..];
    if sha(body) != bytes[|body|..] { return; }
    var book := DecodeBody(body, utf8, Encoding(utf8));
    if book.None? { return; }
    var ok := Validate(book.value);
    if ok { r := Ok(book.value); }
  }
}
