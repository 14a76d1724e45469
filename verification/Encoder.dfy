/** `encode`: the sections appended one by one, the section table back-patched,
    the whole sealed by its digest; and the round trip through the decoder. */
module Encoder {
  import opened Wrappers
  import opened Words
  import opened Text
  import opened BookFormat
  import opened Flattening
  import opened LittleEndian
  import opened Sections
  import opened PartEncoding
  import opened FixedDecoding
  import opened Container
  import opened Decoder

  function PartsOf(b: RawBook): (r: seq<Part>)
    ensures |r| == SECTION_COUNT && forall i :: 0 <= i < 7 ==> r[i] == PartOf(b, i + 1)
  {
    seq(7, i requires 0 <= i < 7 => PartOf(b, i + 1))
  }

  /** What `encode` accepts: a valid book whose counts, text lengths and pools fit
      their fields. */
  ghost predicate Encodable(b: RawBook) {
    Valid(b) && forall i :: 0 <= i < 7 ==> PartEncodable(PartsOf(b)[i])
  }

  /** The sections in the order `encode` writes them. */
  function Payloads(b: RawBook): (r: seq<Bytes>)
    ensures |r| == SECTION_COUNT && forall i :: 0 <= i < 7 ==> r[i] == PayloadOf(PartsOf(b), i)
  {
    seq(7, i requires 0 <= i < 7 => PayloadOf(PartsOf(b), i))
  }

  function PayloadOf(parts: seq<Part>, i: nat): Bytes
    requires i < |parts|
  {
    PartPayload(i + 1, parts[i])
  }

  /** Where section `i` starts. */
  function Offset(ps: seq<Bytes>, i: nat): nat
    requires i <= |ps|
  {
    PAYLOAD_START + |Flatten(ps[..i])|
  }

  function EntryAt(ps: seq<Bytes>, i: nat): TableEntry
    requires i < |ps|
  {
    TableEntry(i + 1, Offset(ps, i), |ps[i]|)
  }

  function TableOf(ps: seq<Bytes>): (t: seq<TableEntry>)
    ensures |t| == |ps| && forall i :: 0 <= i < |ps| ==> t[i] == EntryAt(ps, i)
  {
    seq(|ps|, i requires 0 <= i < |ps| => EntryAt(ps, i))
  }

  function BodyWith(epoch: nat, ps: seq<Bytes>): Bytes {
    Header(epoch) + Flatten(TableRows(TableOf(ps))) + Flatten(ps)
  }

  /** The artifact `encode` writes. */
  function Encoded(b: RawBook, sha: Sha): Bytes {
    var body := BodyWith(b.epoch, Payloads(b));
    body + sha(body)
  }

  // ----- back-patching

  function Overwrite(out: Bytes, at: nat, bs: Bytes): Bytes
    requires at + |bs| <= |out|
  {
    out[..at] + bs + out[at + |bs|..]
  }

  lemma OverwriteMiddle(a: Bytes, old': Bytes, z: Bytes, bs: Bytes)
    requires |old'| == |bs|
    ensures Overwrite(a + old' + z, |a|, bs) == a + bs + z
  {
  }

  function ZeroBytes(n: nat): (r: Bytes)
    ensures |r| == n
  {
    seq(n, _ => 0)
  }

  /** A buffer whose table still ends in `blank` zero bytes. */
  function Buffer(head: Bytes, rows: Bytes, blank: nat, data: Bytes): Bytes {
    head + rows + ZeroBytes(blank) + data
  }

  /** The buffer once `i` sections are written. */
  function Written(head: Bytes, ps: seq<Bytes>, i: nat): Bytes
    requires i <= |ps|
  {
    Buffer(head, Flatten(TableRows(TableOf(ps)[..i])), 20 * (|ps| - i), Flatten(ps[..i]))
  }

  lemma WrittenSize(head: Bytes, ps: seq<Bytes>, i: nat)
    requires i <= |ps| == SECTION_COUNT && |head| == HEADER_LEN
    ensures |head + Flatten(TableRows(TableOf(ps)[..i]))| == HEADER_LEN + 20 * i
    ensures |Written(head, ps, i)| == Offset(ps, i)
  {
    FlattenLength(TableRows(TableOf(ps)[..i]), 20);
  }

  lemma TableStep(ps: seq<Bytes>, i: nat)
    requires i < |ps|
    ensures Flatten(TableRows(TableOf(ps)[..i + 1])) == Flatten(TableRows(TableOf(ps)[..i])) + TableRow(EntryAt(ps, i))
    ensures Flatten(ps[..i + 1]) == Flatten(ps[..i]) + ps[i]
  {
    var t := TableOf(ps);
    assert TableRows(t[..i + 1]) == TableRows(t[..i]) + [TableRow(t[i])];
    FlattenSnoc(TableRows(t[..i]), TableRow(t[i]));
    assert ps[..i + 1] == ps[..i] + [ps[i]];
    FlattenSnoc(ps[..i], ps[i]);
  }

  /** Appending a payload and filling the next 20 bytes of the table. */
  lemma Patched(head: Bytes, rows: Bytes, blank: nat, data: Bytes, payload: Bytes, row: Bytes)
    requires |row| == 20
    ensures |head| + |rows| + 20 <= |Buffer(head, rows, 20 + blank, data) + payload|
    ensures Overwrite(Buffer(head, rows, 20 + blank, data) + payload, |head| + |rows|, row)
         == Buffer(head, rows + row, blank, data + payload)
  {
    var front, back := head + rows, ZeroBytes(blank) + (data + payload);
    assert ZeroBytes(20 + blank) == ZeroBytes(20) + ZeroBytes(blank);
    assert Buffer(head, rows, 20 + blank, data) + payload == front + ZeroBytes(20) + back;
    OverwriteMiddle(front, ZeroBytes(20), back, row);
    assert front + row == head + (rows + row);
  }

  lemma PatchStep(head: Bytes, ps: seq<Bytes>, i: nat, row: Bytes)
    requires i < |ps| == SECTION_COUNT && |head| == HEADER_LEN && row == TableRow(EntryAt(ps, i))
    ensures HEADER_LEN + 20 * i + 20 <= |Written(head, ps, i) + ps[i]|
    ensures Overwrite(Written(head, ps, i) + ps[i], HEADER_LEN + 20 * i, row) == Written(head, ps, i + 1)
  {
    var rows, data, blank := Flatten(TableRows(TableOf(ps)[..i])), Flatten(ps[..i]), 20 * (|ps| - (i + 1));
    assert |head| + |rows| == HEADER_LEN + 20 * i by { WrittenSize(head, ps, i); }
    Patched(head, rows, blank, data, ps[i], row);
    assert Written(head, ps, i) == Buffer(head, rows, 20 + blank, data);
    assert Written(head, ps, i + 1) == Buffer(head, rows + row, blank, data + ps[i]) by { TableStep(ps, i); }
  }

  /** A row written field by field is the row written at once. */
  lemma FieldByField(out: Bytes, at: nat, a: Bytes, b: Bytes, c: Bytes)
    requires |a| == 4 && |b| == 8 && |c| == 8 && at + 20 <= |out|
    ensures Overwrite(Overwrite(Overwrite(out, at, a), at + 4, b), at + 12, c) == Overwrite(out, at, a + b + c)
  {
  }

  method PatchRow(out: Bytes, at: nat, e: TableEntry) returns (r: Bytes)
    requires at + 20 <= |out|
    ensures r == Overwrite(out, at, TableRow(e))
  {
    var kind, off, len := LE(e.kind, 4), LE(e.off, 8), LE(e.len, 8);
    FieldByField(out, at, kind, off, len);
    r := Overwrite(out, at, kind);
    r := Overwrite(r, at + 4, off);
    r := Overwrite(r, at + 12, len);
  }

  /** Append section `i` and fill in its row of the table. */
  method AppendSection(out: Bytes, head: Bytes, ps: seq<Bytes>, i: nat) returns (r: Bytes)
    requires i < |ps| == SECTION_COUNT && |head| == HEADER_LEN && out == Written(head, ps, i)
    ensures r == Written(head, ps, i + 1)
  {
    WrittenSize(head, ps, i);
    PatchStep(head, ps, i, TableRow(EntryAt(ps, i)));
    r := PatchRow(out + ps[i], HEADER_LEN + 20 * i, TableEntry(i + 1, |out|, |ps[i]|));
  }

  lemma BufferEnds(head: Bytes, rows: Bytes, blank: nat, data: Bytes)
    ensures Buffer(head, [], blank, []) == head + ZeroBytes(blank)
    ensures Buffer(head, rows, 0, data) == head + rows + data
  {
  }

  lemma WrittenStarts(head: Bytes, ps: seq<Bytes>)
    ensures Written(head, ps, 0) == head + ZeroBytes(20 * |ps|)
  {
    BufferEnds(head, [], 20 * |ps|, []);
    assert ps[..0] == [] && TableRows(TableOf(ps)[..0]) == [];
  }

  lemma FullTable(ps: seq<Bytes>)
    ensures TableOf(ps)[..|ps|] == TableOf(ps) && ps[..|ps|] == ps
  {
  }

  lemma WrittenEnds(head: Bytes, ps: seq<Bytes>)
    ensures Written(head, ps, |ps|) == head + Flatten(TableRows(TableOf(ps))) + Flatten(ps)
  {
    FullTable(ps);
    BufferEnds(head, Flatten(TableRows(TableOf(ps))), 0, Flatten(ps));
  }

  method AppendSections(head: Bytes, ps: seq<Bytes>) returns (out: Bytes)
    requires |ps| == SECTION_COUNT && |head| == HEADER_LEN
    ensures out == head + Flatten(TableRows(TableOf(ps))) + Flatten(ps)
  {
    WrittenStarts(head, ps);
    WrittenEnds(head, ps);
    out := head + ZeroBytes(20 * |ps|);
    for i := 0 to |ps|
      invariant out == Written(head, ps, i)
    {
      out := AppendSection(out, head, ps, i);
    }
  }

  /** The payloads of the first parts. */
  ghost predicate EncodedTo(parts: seq<Part>, ps: seq<Bytes>, n: nat)
    requires n <= |parts|
  {
    |ps| == n && forall i :: 0 <= i < n ==> PartEncodable(parts[i]) && ps[i] == PartPayload(i + 1, parts[i])
  }

  lemma EncodedStep(parts: seq<Part>, ps: seq<Bytes>, n: nat, payload: Bytes)
    requires n < |parts| && EncodedTo(parts, ps, n) && PartEncodable(parts[n])
    requires payload == PartPayload(n + 1, parts[n])
    ensures EncodedTo(parts, ps + [payload], n + 1)
  {
  }

  method EncodeParts(parts: seq<Part>) returns (r: Option<seq<Bytes>>)
    ensures r.None? ==> exists i :: 0 <= i < |parts| && !PartEncodable(parts[i])
    ensures r.Some? ==> EncodedTo(parts, r.value, |parts|)
  {
    var ps: seq<Bytes> := [];
    for i := 0 to |parts|
      invariant EncodedTo(parts, ps, i)
    {
      var payload := EncodePart(i + 1, parts[i]);
      if payload.None? { return None; }
      EncodedStep(parts, ps, i, payload.value);
      ps := ps + [payload.value];
    }
    r := Some(ps);
  }

  /** Succeeds exactly on encodable books. */
  method Encode(b: RawBook, sha: Sha) returns (r: Result<Bytes>)
    requires Typed(b)
    ensures r.Ok? <==> Encodable(b)
    ensures r.Ok? ==> r.value == Encoded(b, sha)
  {
    var ok := Validate(b);
    if !ok { return Err; }
    var ps := EncodeParts(PartsOf(b));
    if ps.None? { return Err; }
    assert ps.value == Payloads(b);
    var out := AppendSections(Header(b.epoch), ps.value);
    r := Ok(out + sha(out));
  }

  // ----- the layout of what was written

  lemma {:induction false} OffsetsGrow(ps: seq<Bytes>, i: nat, j: nat)
    requires i < j <= |ps|
    ensures Offset(ps, i) + |ps[i]| <= Offset(ps, j)
    decreases j
  {
    TableStep(ps, j - 1);
    if i < j - 1 { OffsetsGrow(ps, i, j - 1); }
  }

  /** Every byte of the first `n` sections lies in one of them. */
  lemma {:induction false} OffsetsCover(ps: seq<Bytes>, n: nat, p: nat)
    requires n <= |ps| && PAYLOAD_START <= p < Offset(ps, n)
    ensures InSomeSection(TableOf(ps), p)
  {
    assert n > 0;
    TableStep(ps, n - 1);
    if p < Offset(ps, n - 1) {
      OffsetsCover(ps, n - 1, p);
    } else {
      assert HasByte(TableOf(ps)[n - 1], p);
    }
  }

  lemma TableTiles(ps: seq<Bytes>)
    ensures Tiles(TableOf(ps), PAYLOAD_START, Offset(ps, |ps|))
  {
    forall i | 0 <= i < |ps| ensures Offset(ps, i) + |ps[i]| <= Offset(ps, |ps|) { OffsetsGrow(ps, i, |ps|); }
    forall p: nat | PAYLOAD_START <= p < Offset(ps, |ps|) ensures InSomeSection(TableOf(ps), p) {
      OffsetsCover(ps, |ps|, p);
    }
    forall i, j, p | 0 <= i < j < |ps| ensures !(HasByte(TableOf(ps)[i], p) && HasByte(TableOf(ps)[j], p)) {
      OffsetsGrow(ps, i, j);
    }
  }

  lemma {:induction false} FlattenAt<T>(rows: seq<seq<T>>, i: nat)
    requires i < |rows|
    ensures |Flatten(rows[..i])| + |rows[i]| <= |Flatten(rows)|
    ensures Flatten(rows)[|Flatten(rows[..i])|..|Flatten(rows[..i])| + |rows[i]|] == rows[i]
  {
    var front := rows[..|rows| - 1];
    if i < |front| {
      FlattenAt(front, i);
      assert front[..i] == rows[..i];
    }
  }

  lemma TailSlice(head: Bytes, data: Bytes, from: nat, to: nat)
    requires from <= to <= |data|
    ensures (head + data)[|head| + from..|head| + to] == data[from..to]
  {
  }

  lemma SectionAt(epoch: nat, ps: seq<Bytes>, i: nat)
    requires i < |ps| && |ps| == SECTION_COUNT
    ensures |BodyWith(epoch, ps)| == Offset(ps, |ps|)
    ensures Payload(BodyWith(epoch, ps), EntryAt(ps, i)) == ps[i]
  {
    var head, from, data := Header(epoch) + Flatten(TableRows(TableOf(ps))), |Flatten(ps[..i])|, Flatten(ps);
    FlattenLength(TableRows(TableOf(ps)), 20);
    assert ps[..|ps|] == ps;
    FlattenAt(ps, i);
    TailSlice(head, data, from, from + |ps[i]|);
  }

  /** Offsets and lengths that fit their fields. */
  lemma {:induction false} OffsetsFit(ps: seq<Bytes>, i: nat, limit: nat)
    requires i <= |ps| && forall k :: 0 <= k < |ps| ==> |ps[k]| <= limit
    ensures Offset(ps, i) <= PAYLOAD_START + i * limit
  {
    if i > 0 {
      TableStep(ps, i - 1);
      OffsetsFit(ps, i - 1, limit);
      assert (i - 1) * limit + limit == i * limit;
    }
  }

  lemma HeaderWritten(epoch: nat, ps: seq<Bytes>)
    requires |ps| == SECTION_COUNT && epoch < WORD_LIMIT && Offset(ps, |ps|) < WORD_LIMIT
    ensures HeaderOf(BodyWith(epoch, ps), epoch, TableOf(ps))
  {
    FlattenLength(TableRows(TableOf(ps)), 20);
    forall i | 0 <= i < |ps| ensures WideEntry(TableOf(ps)[i]) { OffsetsGrow(ps, i, |ps|); }
    assert BodyWith(epoch, ps)[..PAYLOAD_START] == Header(epoch) + Flatten(TableRows(TableOf(ps)));
  }

  lemma WrittenFits(b: RawBook, body: Bytes, ps: seq<Bytes>, coding: Coding)
    requires |ps| == SECTION_COUNT && HeapOf(b, ALL_KINDS) <= MAX_DECODED_HEAP_BYTES
    requires forall i :: 0 <= i < 7 ==> Payload(body, TableOf(ps)[i]) == ps[i] && coding(i + 1, PartsOf(b)[i], ps[i])
    ensures Fits(b, body, TableOf(ps), coding)
  {
    var t := TableOf(ps);
    TableKinds(ps);
    forall i | 0 <= i < |t| ensures coding(t[i].kind, PartOf(b, t[i].kind), Payload(body, t[i])) {
      assert PartsOf(b)[i] == PartOf(b, t[i].kind);
    }
  }

  lemma TableKinds(ps: seq<Bytes>)
    requires |ps| == SECTION_COUNT
    ensures KindsOnce(TableOf(ps)) && forall i :: 0 <= i < 7 ==> TableOf(ps)[i].kind == i + 1
  {
  }

  /** What the encoder writes is laid out as the book it came from. */
  lemma WrittenIsLaid(b: RawBook, ps: seq<Bytes>, coding: Coding)
    requires |ps| == SECTION_COUNT && b.epoch < WORD_LIMIT && Offset(ps, |ps|) < WORD_LIMIT
    requires HeapOf(b, ALL_KINDS) <= MAX_DECODED_HEAP_BYTES
    requires forall i :: 0 <= i < 7 ==> coding(i + 1, PartsOf(b)[i], ps[i])
    ensures Laid(BodyWith(b.epoch, ps), TableOf(ps), b, coding)
  {
    var body := BodyWith(b.epoch, ps);
    forall i | 0 <= i < 7 ensures Payload(body, TableOf(ps)[i]) == ps[i] { SectionAt(b.epoch, ps, i); }
    WrittenFits(b, body, ps, coding);
    HeaderWritten(b.epoch, ps);
    SectionAt(b.epoch, ps, 0);
    TableTiles(ps);
  }

  // ----- round trip

  /** `coding` is the encoding, unfolded only where an encoding is asked for. */
  ghost predicate IsEncoding(coding: Coding, utf8: Utf8) {
    forall kind: nat, part, payload {:trigger Encodes(kind, part, payload, utf8)} ::
      Encodes(kind, part, payload, utf8) <==> coding(kind, part, payload)
  }

  /** The limits the decoder adds to what the encoder accepts. */
  ghost predicate Readable(b: RawBook) {
    && (forall k :: k in ALL_KINDS ==> PartReadable(k, PartOf(b, k)))
    && HeapOf(b, ALL_KINDS) <= MAX_DECODED_HEAP_BYTES
  }

  /** Rust strings are UTF-8. */
  ghost predicate TextsAre(es: seq<StrEntry>, utf8: Utf8) {
    forall i :: 0 <= i < |es| ==> utf8(es[i].text)
  }

  ghost predicate BookTextsAre(b: RawBook, utf8: Utf8) {
    && TextsAre(AsEntries(b.categories), utf8) && TextsAre(b.exact, utf8)
    && TextsAre(b.suffix, utf8) && TextsAre(b.keywords, utf8)
  }

  lemma PartIsTyped(b: RawBook, kind: nat, utf8: Utf8)
    requires Typed(b) && BookTextsAre(b, utf8) && kind in ALL_KINDS
    ensures PartTyped(kind, PartOf(b, kind), utf8)
  {
    if kind == SEC_CATEGORIES {
      var es := AsEntries(b.categories);
      forall i | 0 <= i < |es| ensures es[i].catset < U32_LIMIT { assert b.categories[i] in b.categories; }
    }
  }

  lemma PartIsWhole(b: RawBook, kind: nat)
    requires Valid(b) && kind in ALL_KINDS
    ensures WholeSets(PartOf(b, kind))
  {
    assert ValidSets(b);
  }

  const PAYLOAD_LIMIT: nat := 0x10_0000_0000_0000

  lemma StringPayloadLength(es: seq<StrEntry>)
    ensures |StringPayload(es)| == 8 + 10 * |es| + |Pool(es)|
  {
    FlattenLength(HeadRows(HeadsOf(es)), 10);
  }

  lemma ProductBound(a: nat, b: nat, c: nat, d: nat)
    requires a <= c && b <= d
    ensures a * b <= c * d
  {
    MulMonotone(a, c, b);
    MulMonotone(b, d, c);
  }

  lemma SetsSmall(words: nat, catsets: seq<nat>)
    requires WholeSets(Sets(words, catsets)) && words <= MAX_CATEGORIES && Sets64(words, catsets) < U32_LIMIT
    ensures |catsets| <= MAX_CATEGORIES * U32_LIMIT
  {
    WholeCount(words, catsets);
    ProductBound(words, Sets64(words, catsets), MAX_CATEGORIES, U32_LIMIT);
  }

  lemma PayloadSmall(kind: nat, part: Part)
    requires PartEncodable(part) && WholeSets(part) && (part.Sets? ==> part.words <= MAX_CATEGORIES)
    ensures |PartPayload(kind, part)| <= PAYLOAD_LIMIT
  {
    match part
    case Strings(es) => StringPayloadLength(es);
    case Sets(words, catsets) =>
      SetsSmall(words, catsets);
      FlattenLength(WordRows(catsets), 8);
    case Ranges(rs) => RangeSlices(rs, kind == SEC_IP6);
  }

  /** Whatever the encoder accepts can be addressed in 64 bits. */
  lemma EncodableSmall(b: RawBook)
    requires Encodable(b)
    ensures Offset(Payloads(b), SECTION_COUNT) < WORD_LIMIT
  {
    var ps := Payloads(b);
    forall i | 0 <= i < 7 ensures |ps[i]| <= PAYLOAD_LIMIT {
      PartIsWhole(b, i + 1);
      assert PartsOf(b)[i] == PartOf(b, i + 1) && PartEncodable(PartsOf(b)[i]);
      assert b.words <= MAX_CATEGORIES;
      PayloadSmall(i + 1, PartsOf(b)[i]);
    }
    OffsetsFit(ps, SECTION_COUNT, PAYLOAD_LIMIT);
  }

  ghost predicate PartReady(kind: nat, part: Part, utf8: Utf8) {
    PartTyped(kind, part, utf8) && PartEncodable(part) && WholeSets(part)
  }

  lemma PartIsReady(b: RawBook, i: nat, utf8: Utf8)
    requires Typed(b) && BookTextsAre(b, utf8) && Encodable(b) && i < 7
    ensures PartReady(i + 1, PartsOf(b)[i], utf8)
  {
    PartIsTyped(b, i + 1, utf8);
    PartIsWhole(b, i + 1);
  }

  /** What holds kind by kind holds part by part. */
  lemma ByIndex(b: RawBook, p: (nat, Part) -> bool)
    requires forall k :: k in ALL_KINDS ==> p(k, PartOf(b, k))
    ensures forall i :: 0 <= i < 7 ==> p(i + 1, PartsOf(b)[i])
  {
    forall i | 0 <= i < 7 ensures p(i + 1, PartsOf(b)[i]) { assert i + 1 in ALL_KINDS; }
  }

  lemma PartsAreReadable(b: RawBook)
    requires Readable(b)
    ensures forall i :: 0 <= i < 7 ==> PartReadable(i + 1, PartsOf(b)[i])
  {
    var p := (k: nat, part: Part) => PartReadable(k, part);
    ByIndex(b, p);
    forall i | 0 <= i < 7 ensures PartReadable(i + 1, PartsOf(b)[i]) { assert p(i + 1, PartsOf(b)[i]); }
  }

  /** A readable book's section, read back. */
  lemma SectionCoded(b: RawBook, i: nat, utf8: Utf8, coding: Coding)
    requires Typed(b) && BookTextsAre(b, utf8) && Encodable(b) && Readable(b) && i < 7 && IsEncoding(coding, utf8)
    ensures coding(i + 1, PartsOf(b)[i], Payloads(b)[i])
  {
    PartIsReady(b, i, utf8);
    PartsAreReadable(b);
    ReadBackPart(i + 1, PartsOf(b)[i], Payloads(b)[i], utf8, coding);
  }

  lemma ReadBackPart(kind: nat, part: Part, payload: Bytes, utf8: Utf8, coding: Coding)
    requires PartReady(kind, part, utf8) && PartReadable(kind, part) && payload == PartPayload(kind, part)
    requires IsEncoding(coding, utf8)
    ensures coding(kind, part, payload)
  {
    PayloadEncodes(kind, part, utf8);
  }

  lemma ReadableIsLaid(b: RawBook, utf8: Utf8, coding: Coding)
    requires Typed(b) && BookTextsAre(b, utf8) && Encodable(b) && Readable(b) && IsEncoding(coding, utf8)
    ensures Laid(BodyWith(b.epoch, Payloads(b)), TableOf(Payloads(b)), b, coding)
  {
    forall i | 0 <= i < 7 ensures coding(i + 1, PartsOf(b)[i], Payloads(b)[i]) { SectionCoded(b, i, utf8, coding); }
    EncodableSmall(b);
    WrittenIsLaid(b, Payloads(b), coding);
  }

  lemma {:induction false} KindsSeen(t: seq<TableEntry>, n: nat) returns (kinds: set<nat>)
    requires n <= |t| && KindsOnce(t)
    ensures kinds <= ALL_KINDS && |kinds| == n && forall k :: k in kinds ==> HasKind(t, n, k)
    ensures forall i :: 0 <= i < n ==> t[i].kind in kinds
  {
    kinds := {};
    if n > 0 {
      var front := KindsSeen(t, n - 1);
      kinds := front + {t[n - 1].kind};
      forall k | k in front ensures HasKind(t, n, k) { assert HasKind(t, n - 1, k); }
      assert t[n - 1].kind !in front;
    }
  }

  /** A table of seven distinct kinds has them all. */
  lemma KindsCover(t: seq<TableEntry>)
    requires |t| == SECTION_COUNT && KindsOnce(t)
    ensures forall k :: k in ALL_KINDS ==> HasKind(t, |t|, k)
  {
    var kinds := KindsSeen(t, |t|);
    AllSeen(kinds);
  }

  lemma EncodesIsReadable(kind: nat, part: Part, payload: Bytes, utf8: Utf8)
    requires Encodes(kind, part, payload, utf8)
    ensures PartReadable(kind, part)
  {
  }

  /** A book that fits has a section for every kind. */
  lemma SectionOfKind(body: Bytes, t: seq<TableEntry>, b: RawBook, coding: Coding, k: nat) returns (payload: Bytes)
    requires Fits(b, body, t, coding) && |t| == SECTION_COUNT && k in ALL_KINDS
    ensures coding(k, PartOf(b, k), payload)
  {
    KindsCover(t);
    assert HasKind(t, |t|, k);
    var j :| 0 <= j < |t| && t[j].kind == k;
    payload := Payload(body, t[j]);
  }

  ghost predicate OnlyReadable(coding: Coding) {
    forall k: nat, part, payload :: coding(k, part, payload) ==> PartReadable(k, part)
  }

  lemma EncodingIsReadable(utf8: Utf8)
    ensures OnlyReadable(Encoding(utf8))
  {
    forall k: nat, part, payload | Encodes(k, part, payload, utf8) ensures PartReadable(k, part) {
      EncodesIsReadable(k, part, payload, utf8);
    }
  }

  lemma KindIsReadable(body: Bytes, t: seq<TableEntry>, b: RawBook, coding: Coding, k: nat)
    requires Fits(b, body, t, coding) && |t| == SECTION_COUNT && OnlyReadable(coding) && k in ALL_KINDS
    ensures PartReadable(k, PartOf(b, k))
  {
    var payload := SectionOfKind(body, t, b, coding, k);
  }

  lemma FitsIsReadable(body: Bytes, t: seq<TableEntry>, b: RawBook, coding: Coding)
    requires Fits(b, body, t, coding) && |t| == SECTION_COUNT && OnlyReadable(coding)
    ensures Readable(b)
  {
    forall k | k in ALL_KINDS ensures PartReadable(k, PartOf(b, k)) { KindIsReadable(body, t, b, coding, k); }
  }

  lemma LaidIsReadable(body: Bytes, t: seq<TableEntry>, b: RawBook, utf8: Utf8)
    requires Laid(body, t, b, Encoding(utf8))
    ensures Readable(b)
  {
    EncodingIsReadable(utf8);
    FitsIsReadable(body, t, b, Encoding(utf8));
  }

  /** The encoder's output is an artifact of the book it encoded exactly when the
      book is within the decoder's limits. */
  lemma EncodedIsArtifact(b: RawBook, sha: Sha, utf8: Utf8)
    requires Typed(b) && BookTextsAre(b, utf8) && Encodable(b)
    ensures Artifact(Encoded(b, sha), b, sha, utf8) <==> Readable(b)
  {
    var body, bytes := BodyWith(b.epoch, Payloads(b)), Encoded(b, sha);
    assert BodyBytes(bytes) == body;
    ArtifactLaid(bytes, b, sha, utf8);
    if Readable(b) { ReadableIsLaid(b, utf8, Encoding(utf8)); }
    if t :| Laid(body, t, b, Encoding(utf8)) { LaidIsReadable(body, t, b, utf8); }
  }

  /** A body that fits in memory is read as the table it was written with. */
  lemma WrittenTable(b: RawBook, ps: seq<Bytes>, t: seq<TableEntry>, b': RawBook, coding: Coding, i: nat)
    requires |ps| == SECTION_COUNT && b.epoch < WORD_LIMIT && Offset(ps, |ps|) < WORD_LIMIT && i < 7
    requires Laid(BodyWith(b.epoch, ps), t, b', coding)
    ensures b'.epoch == b.epoch && coding(i + 1, PartOf(b', i + 1), ps[i])
  {
    var body := BodyWith(b.epoch, ps);
    HeaderWritten(b.epoch, ps);
    HeaderUnique(body, b.epoch, TableOf(ps), b'.epoch, t);
    SectionAt(b.epoch, ps, i);
    assert coding(t[i].kind, PartOf(b', t[i].kind), Payload(body, t[i]));
  }

  lemma SamePart(kind: nat, part: Part, part': Part, payload: Bytes, utf8: Utf8, coding: Coding)
    requires PartReady(kind, part, utf8) && payload == PartPayload(kind, part) && coding(kind, part', payload)
    requires IsEncoding(coding, utf8)
    ensures part == part'
  {
    assert Encodes(kind, part', payload, utf8);
    PayloadDetermines(kind, part, part', utf8);
  }

  /** What was written for `b` is laid out as `b'`. */
  ghost predicate ReadAs(b: RawBook, b': RawBook, t: seq<TableEntry>, utf8: Utf8, coding: Coding) {
    && Typed(b) && BookTextsAre(b, utf8) && Encodable(b)
    && Laid(BodyWith(b.epoch, Payloads(b)), t, b', coding) && IsEncoding(coding, utf8)
  }

  lemma KindSame(b: RawBook, b': RawBook, t: seq<TableEntry>, i: nat, utf8: Utf8, coding: Coding)
    requires ReadAs(b, b', t, utf8, coding) && i < 7
    ensures PartsOf(b)[i] == PartsOf(b')[i] && b.epoch == b'.epoch
  {
    EncodableSmall(b);
    WrittenTable(b, Payloads(b), t, b', coding, i);
    PartIsReady(b, i, utf8);
    SamePart(i + 1, PartsOf(b)[i], PartsOf(b')[i], Payloads(b)[i], utf8, coding);
  }

  lemma PartsSame(a: RawBook, b: RawBook)
    requires PartsOf(a) == PartsOf(b) && a.epoch == b.epoch
    ensures a == b
  {
    forall k | k in ALL_KINDS ensures PartOf(a, k) == PartOf(b, k) { assert PartsOf(a)[k - 1] == PartsOf(b)[k - 1]; }
    PartsDetermine(a, b);
  }

  lemma KindSameAt(b: RawBook, b': RawBook, t: seq<TableEntry>, i: nat, utf8: Utf8, coding: Coding, ps: seq<Part>,
                   qs: seq<Part>)
    requires ReadAs(b, b', t, utf8, coding) && ps == PartsOf(b) && qs == PartsOf(b') && i < 7
    ensures ps[i] == qs[i] && b.epoch == b'.epoch
  {
    KindSame(b, b', t, i, utf8, coding);
  }

  lemma {:induction false} SameTo(b: RawBook, b': RawBook, t: seq<TableEntry>, n: nat, utf8: Utf8, coding: Coding,
                                  ps: seq<Part>, qs: seq<Part>)
    requires ReadAs(b, b', t, utf8, coding) && ps == PartsOf(b) && qs == PartsOf(b') && 0 < n <= 7
    ensures ps[..n] == qs[..n] && b.epoch == b'.epoch
  {
    KindSameAt(b, b', t, n - 1, utf8, coding, ps, qs);
    if n > 1 { SameTo(b, b', t, n - 1, utf8, coding, ps, qs); }
    LongerSame(ps, qs, n);
  }

  lemma LongerSame(ps: seq<Part>, qs: seq<Part>, n: nat)
    requires 0 < n <= |ps| && n <= |qs| && ps[..n - 1] == qs[..n - 1] && ps[n - 1] == qs[n - 1]
    ensures ps[..n] == qs[..n]
  {
    assert ps[..n] == ps[..n - 1] + [ps[n - 1]] && qs[..n] == qs[..n - 1] + [qs[n - 1]];
  }

  lemma WholeSame(ps: seq<Part>, qs: seq<Part>)
    requires |ps| == |qs| == SECTION_COUNT && ps[..7] == qs[..7]
    ensures ps == qs
  {
    assert ps[..7] == ps && qs[..7] == qs;
  }

  lemma LaidSame(b: RawBook, b': RawBook, t: seq<TableEntry>, utf8: Utf8, coding: Coding)
    requires ReadAs(b, b', t, utf8, coding)
    ensures b' == b
  {
    var ps, qs := PartsOf(b), PartsOf(b');
    SameTo(b, b', t, 7, utf8, coding, ps, qs);
    WholeSame(ps, qs);
    PartsSame(b, b');
  }

  /** Whatever book the decoder reads in the encoder's output is the one encoded. */
  lemma EncodedUnique(b: RawBook, b': RawBook, sha: Sha, utf8: Utf8)
    requires Typed(b) && BookTextsAre(b, utf8) && Encodable(b)
    requires Artifact(Encoded(b, sha), b', sha, utf8)
    ensures b' == b
  {
    var body := BodyWith(b.epoch, Payloads(b));
    assert BodyBytes(Encoded(b, sha)) == body;
    ArtifactLaid(Encoded(b, sha), b', sha, utf8);
    var t :| Laid(body, t, b', Encoding(utf8));
    LaidSame(b, b', t, utf8, Encoding(utf8));
  }

  /** Encode, then decode what was written: the same book comes back if the encoder
      accepts it and it is within the decoder's limits, and an error otherwise. */
  method RoundTrip(b: RawBook, sha: Sha, utf8: Utf8) returns (r: Result<RawBook>)
    requires Typed(b) && BookTextsAre(b, utf8)
    ensures Encodable(b) && Readable(b) ==> r == Ok(b)
    ensures !(Encodable(b) && Readable(b)) ==> r == Err
  {
    var bytes := Encode(b, sha);
    if bytes.Err? { return Err; }
    EncodedIsArtifact(b, sha, utf8);
    r := Decode(bytes.value, sha, utf8);
    if r.Ok? { EncodedUnique(b, r.value, sha, utf8); }
  }

  lemma EncodesEncodable(kind: nat, part: Part, payload: Bytes, utf8: Utf8)
    requires Encodes(kind, part, payload, utf8) && WholeSets(part)
    ensures PartEncodable(part)
  {
    if part.Sets? && part.words > 0 { WholeCount(part.words, part.catsets); }
  }

  ghost predicate OnlyEncodable(coding: Coding) {
    forall k: nat, part, payload :: coding(k, part, payload) && WholeSets(part) ==> PartEncodable(part)
  }

  lemma EncodingIsEncodable(utf8: Utf8)
    ensures OnlyEncodable(Encoding(utf8))
  {
    forall k: nat, part, payload | Encodes(k, part, payload, utf8) && WholeSets(part) ensures PartEncodable(part) {
      EncodesEncodable(k, part, payload, utf8);
    }
  }

  lemma KindIsEncodable(body: Bytes, t: seq<TableEntry>, b: RawBook, coding: Coding, k: nat)
    requires Valid(b) && Fits(b, body, t, coding) && |t| == SECTION_COUNT && OnlyEncodable(coding) && k in ALL_KINDS
    ensures PartEncodable(PartOf(b, k))
  {
    var payload := SectionOfKind(body, t, b, coding, k);
    PartIsWhole(b, k);
  }

  lemma FitsIsEncodable(body: Bytes, t: seq<TableEntry>, b: RawBook, coding: Coding)
    requires Valid(b) && Fits(b, body, t, coding) && |t| == SECTION_COUNT && OnlyEncodable(coding)
    ensures Encodable(b)
  {
    var p := (k: nat, part: Part) => PartEncodable(part);
    forall k | k in ALL_KINDS ensures p(k, PartOf(b, k)) { KindIsEncodable(body, t, b, coding, k); }
    ByIndex(b, p);
    forall i | 0 <= i < 7 ensures PartEncodable(PartsOf(b)[i]) { assert p(i + 1, PartsOf(b)[i]); }
  }

  /** What the decoder accepts, the encoder would have written: section by section
      the bytes are those of the book returned exactly when the count of zero-word
      sets, if there are any, is zero. */
  lemma AcceptedIsReencoded(bytes: Bytes, b: RawBook, sha: Sha, utf8: Utf8) returns (t: seq<TableEntry>)
    requires Artifact(bytes, b, sha, utf8)
    ensures Laid(BodyBytes(bytes), t, b, Encoding(utf8)) && Readable(b) && Encodable(b)
    ensures forall i :: 0 <= i < |t| ==>
              (Payload(BodyBytes(bytes), t[i]) == PartPayload(t[i].kind, PartOf(b, t[i].kind)) <==>
               CanonicalCount(PartOf(b, t[i].kind), Payload(BodyBytes(bytes), t[i])))
  {
    ArtifactLaid(bytes, b, sha, utf8);
    var body := BodyBytes(bytes);
    t :| Laid(body, t, b, Encoding(utf8));
    LaidIsReadable(body, t, b, utf8);
    EncodingIsEncodable(utf8);
    FitsIsEncodable(body, t, b, Encoding(utf8));
    forall i | 0 <= i < |t|
      ensures Payload(body, t[i]) == PartPayload(t[i].kind, PartOf(b, t[i].kind)) <==>
              CanonicalCount(PartOf(b, t[i].kind), Payload(body, t[i]))
    {
      Reencoded(t[i].kind, PartOf(b, t[i].kind), Payload(body, t[i]), utf8);
    }
  }
}
