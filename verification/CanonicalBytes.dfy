/** Which accepted byte strings are the ones the encoder writes, and how others that
    mean the same book differ. */
module CanonicalBytes {
  import opened Text
  import opened BookFormat
  import opened Flattening
  import opened LittleEndian
  import opened Sections
  import opened PartEncoding
  import opened Container
  import opened Decoder
  import opened Encoder

  /** The table lists the kinds in order, and their sections follow one another. */
  predicate InOrder(t: seq<TableEntry>) {
    && (forall i :: 0 <= i < |t| ==> t[i].kind == i + 1)
    && (t != [] ==> t[0].off == PAYLOAD_START)
    && forall i :: 0 < i < |t| ==> t[i].off == t[i - 1].off + t[i - 1].len
  }

  /** Every section has a canonical count. */
  ghost predicate CountsCanonical(body: Bytes, t: seq<TableEntry>, b: RawBook) {
    forall i :: 0 <= i < |t| ==> CanonicalCount(PartOf(b, t[i].kind), Payload(body, t[i]))
  }

  lemma OffsetStep(ps: seq<Bytes>, i: nat)
    requires i < |ps|
    ensures Offset(ps, i + 1) == Offset(ps, i) + |ps[i]| && Offset(ps, 0) == PAYLOAD_START
  {
    TableStep(ps, i);
  }

  lemma WrittenInOrder(ps: seq<Bytes>)
    ensures InOrder(TableOf(ps))
  {
    var t := TableOf(ps);
    if ps != [] { OffsetStep(ps, 0); }
    forall i | 0 < i < |t| ensures t[i].off == t[i - 1].off + t[i - 1].len { OffsetStep(ps, i - 1); }
  }

  lemma {:induction false} OffsetsFollow(t: seq<TableEntry>, ps: seq<Bytes>, i: nat)
    requires i < |t| == |ps| && InOrder(t) && forall k :: 0 <= k < |t| ==> t[k].len == |ps[k]|
    ensures t[i].off == Offset(ps, i)
  {
    OffsetStep(ps, 0);
    if i > 0 {
      OffsetsFollow(t, ps, i - 1);
      OffsetStep(ps, i - 1);
      assert t[i].off == t[i - 1].off + t[i - 1].len && t[i - 1].len == |ps[i - 1]|;
    }
  }

  lemma OrderedTable(t: seq<TableEntry>, ps: seq<Bytes>)
    requires |t| == |ps| && InOrder(t) && forall k :: 0 <= k < |t| ==> t[k].len == |ps[k]|
    ensures t == TableOf(ps)
  {
    forall i | 0 <= i < |t| ensures t[i] == TableOf(ps)[i] { OffsetsFollow(t, ps, i); }
  }

  /** The payloads found one after the other are the bytes from the table on. */
  lemma {:induction false} SectionsFill(body: Bytes, ps: seq<Bytes>, n: nat)
    requires n <= |ps| && Offset(ps, n) <= |body|
    requires forall i :: 0 <= i < |ps| ==> Payload(body, TableOf(ps)[i]) == ps[i]
    ensures body[PAYLOAD_START..Offset(ps, n)] == Flatten(ps[..n])
  {
    if n > 0 {
      OffsetStep(ps, n - 1);
      SectionsFill(body, ps, n - 1);
      TableStep(ps, n - 1);
      var mid, end := Offset(ps, n - 1), Offset(ps, n);
      assert Payload(body, TableOf(ps)[n - 1]) == body[mid..end];
      assert body[PAYLOAD_START..end] == body[PAYLOAD_START..mid] + body[mid..end];
    } else {
      assert ps[..0] == [];
    }
  }

  /** Sections in order that tile the body end where it does. */
  lemma TilesEnd(body: Bytes, ps: seq<Bytes>)
    requires Tiles(TableOf(ps), PAYLOAD_START, |body|) && |ps| > 0 && PAYLOAD_START <= |body|
    ensures |body| == Offset(ps, |ps|)
  {
    var n := |ps|;
    OffsetStep(ps, n - 1);
    assert TableOf(ps)[n - 1].off + TableOf(ps)[n - 1].len <= |body|;
    forall i | 0 <= i < n ensures !HasByte(TableOf(ps)[i], Offset(ps, n)) { OffsetsGrow(ps, i, n); }
    assert !InSomeSection(TableOf(ps), Offset(ps, n));
  }

  /** A body is what its header, table and sections in order say. */
  lemma BodyFromSections(body: Bytes, epoch: nat, ps: seq<Bytes>)
    requires |ps| == SECTION_COUNT && HeaderOf(body, epoch, TableOf(ps)) && Tiles(TableOf(ps), PAYLOAD_START, |body|)
    requires forall i :: 0 <= i < |ps| ==> Payload(body, TableOf(ps)[i]) == ps[i]
    ensures body == BodyWith(epoch, ps)
  {
    TilesEnd(body, ps);
    SectionsFill(body, ps, |ps|);
    assert ps[..|ps|] == ps;
    assert body == body[..PAYLOAD_START] + body[PAYLOAD_START..];
  }

  lemma PayloadLength(body: Bytes, t: seq<TableEntry>, i: nat)
    requires i < |t| && Tiles(t, PAYLOAD_START, |body|)
    ensures |Payload(body, t[i])| == t[i].len
  {
  }

  lemma InOrderIsWritten(body: Bytes, t: seq<TableEntry>, b: RawBook)
    requires HeaderOf(body, b.epoch, t) && Tiles(t, PAYLOAD_START, |body|) && InOrder(t)
    requires forall i :: 0 <= i < |t| ==> Payload(body, t[i]) == PartPayload(t[i].kind, PartOf(b, t[i].kind))
    ensures body == BodyWith(b.epoch, Payloads(b))
  {
    var ps := Payloads(b);
    forall i | 0 <= i < |t| ensures Payload(body, t[i]) == ps[i] && t[i].len == |ps[i]| {
      assert PartsOf(b)[i] == PartOf(b, i + 1);
      PayloadLength(body, t, i);
    }
    OrderedTable(t, ps);
    BodyFromSections(body, b.epoch, ps);
  }

  lemma WrittenIsInOrder(body: Bytes, t: seq<TableEntry>, b: RawBook)
    requires HeaderOf(body, b.epoch, t) && body == BodyWith(b.epoch, Payloads(b)) && Encodable(b)
    ensures InOrder(t)
    ensures forall i :: 0 <= i < |t| ==> Payload(body, t[i]) == PartPayload(t[i].kind, PartOf(b, t[i].kind))
  {
    var ps := Payloads(b);
    EncodableSmall(b);
    HeaderWritten(b.epoch, ps);
    HeaderUnique(body, b.epoch, t, b.epoch, TableOf(ps));
    WrittenInOrder(ps);
    forall i | 0 <= i < |t| ensures Payload(body, t[i]) == PartPayload(t[i].kind, PartOf(b, t[i].kind)) {
      SectionAt(b.epoch, ps, i);
      assert PartsOf(b)[i] == PartOf(b, i + 1);
    }
  }

  /** Every section is its part's encoding. */
  ghost predicate AllReencoded(body: Bytes, t: seq<TableEntry>, b: RawBook) {
    forall i :: 0 <= i < |t| ==> Payload(body, t[i]) == PartPayload(t[i].kind, PartOf(b, t[i].kind))
  }

  lemma BodyIsWrittenIff(body: Bytes, t: seq<TableEntry>, b: RawBook)
    requires HeaderOf(body, b.epoch, t) && Tiles(t, PAYLOAD_START, |body|) && Encodable(b)
    ensures body == BodyWith(b.epoch, Payloads(b)) <==> InOrder(t) && AllReencoded(body, t, b)
  {
    if InOrder(t) && AllReencoded(body, t, b) { InOrderIsWritten(body, t, b); }
    if body == BodyWith(b.epoch, Payloads(b)) { WrittenIsInOrder(body, t, b); }
  }

  /** Sealed byte strings are equal exactly when their bodies are. */
  lemma SealedIsEncoded(bytes: Bytes, b: RawBook, sha: Sha)
    requires Sealed(bytes, sha)
    ensures bytes == Encoded(b, sha) <==> BodyBytes(bytes) == BodyWith(b.epoch, Payloads(b))
  {
    var body := BodyWith(b.epoch, Payloads(b));
    assert BodyBytes(body + sha(body)) == body;
  }

  /** An accepted byte string is the one the encoder writes exactly when its sections
      come in order and the set count, where there are no categories, is zero. */
  lemma CanonicalIff(bytes: Bytes, b: RawBook, sha: Sha, utf8: Utf8) returns (t: seq<TableEntry>)
    requires Artifact(bytes, b, sha, utf8)
    ensures Laid(BodyBytes(bytes), t, b, Encoding(utf8))
    ensures bytes == Encoded(b, sha) <==> InOrder(t) && CountsCanonical(BodyBytes(bytes), t, b)
  {
    t := AcceptedIsReencoded(bytes, b, sha, utf8);
    assert AllReencoded(BodyBytes(bytes), t, b) <==> CountsCanonical(BodyBytes(bytes), t, b);
    BodyIsWrittenIff(BodyBytes(bytes), t, b);
    SealedIsEncoded(bytes, b, sha);
  }

  /** With categories every count is canonical; without, the set count is to be zero. */
  lemma CountsOfBook(body: Bytes, t: seq<TableEntry>, b: RawBook)
    requires Valid(b)
    ensures CountsCanonical(body, t, b) <==>
            b.categories != [] ||
            forall i :: 0 <= i < |t| && t[i].kind == SEC_CATSETS ==>
              |Payload(body, t[i])| == 8 && Payload(body, t[i])[4..8] == LE(0, 4)
  {
    assert b.words == 0 <==> b.categories == [];
  }

  // ----- the table in another order

  /** The same rows in some order. */
  ghost predicate Rearranges(t: seq<TableEntry>, rows: seq<TableEntry>) {
    |t| == |rows| && KindsOnce(t) && forall i :: 0 <= i < |t| ==> t[i] in rows
  }

  /** The sections as they are written, the table in the order `t`. */
  function BodyIn(t: seq<TableEntry>, epoch: nat, ps: seq<Bytes>): Bytes {
    Header(epoch) + Flatten(TableRows(t)) + Flatten(ps)
  }

  lemma SameFromTable(t: seq<TableEntry>, epoch: nat, ps: seq<Bytes>)
    requires |t| == |ps| == SECTION_COUNT
    ensures PAYLOAD_START <= |BodyIn(t, epoch, ps)| == |BodyWith(epoch, ps)|
    ensures BodyIn(t, epoch, ps)[..PAYLOAD_START] == Header(epoch) + Flatten(TableRows(t))
    ensures BodyIn(t, epoch, ps)[PAYLOAD_START..] == BodyWith(epoch, ps)[PAYLOAD_START..]
  {
    FlattenLength(TableRows(t), 20);
    FlattenLength(TableRows(TableOf(ps)), 20);
  }

  lemma SamePayload(a: Bytes, b: Bytes, e: TableEntry)
    requires |a| == |b| && PAYLOAD_START <= |a| && a[PAYLOAD_START..] == b[PAYLOAD_START..] && PAYLOAD_START <= e.off
    ensures Payload(a, e) == Payload(b, e)
  {
    if e.off + e.len <= |a| {
      assert a[e.off..e.off + e.len] == a[PAYLOAD_START..][e.off - PAYLOAD_START..e.off + e.len - PAYLOAD_START];
    }
  }

  /** Every row is there. */
  lemma RowPresent(t: seq<TableEntry>, ps: seq<Bytes>, i: nat) returns (j: nat)
    requires |ps| == SECTION_COUNT && Rearranges(t, TableOf(ps)) && i < SECTION_COUNT
    ensures j < |t| && t[j] == TableOf(ps)[i]
  {
    KindsCover(t);
    assert i + 1 in ALL_KINDS;
    j :| 0 <= j < |t| && t[j].kind == i + 1;
  }

  lemma RearrangedTiles(t: seq<TableEntry>, ps: seq<Bytes>, end: nat)
    requires |ps| == SECTION_COUNT && Rearranges(t, TableOf(ps)) && Tiles(TableOf(ps), PAYLOAD_START, end)
    ensures Tiles(t, PAYLOAD_START, end)
  {
    var rows := TableOf(ps);
    forall p: nat | PAYLOAD_START <= p < end ensures InSomeSection(t, p) {
      assert InSomeSection(rows, p);
      var i :| 0 <= i < |rows| && HasByte(rows[i], p);
      var j := RowPresent(t, ps, i);
    }
    forall i, j, p | 0 <= i < j < |t| ensures !(HasByte(t[i], p) && HasByte(t[j], p)) {
      var x :| 0 <= x < |rows| && rows[x] == t[i];
      var y :| 0 <= y < |rows| && rows[y] == t[j];
      assert x != y;
    }
  }

  lemma RearrangedFits(t: seq<TableEntry>, b: RawBook, ps: seq<Bytes>, body: Bytes, body': Bytes, coding: Coding)
    requires |ps| == SECTION_COUNT && Rearranges(t, TableOf(ps)) && Fits(b, body, TableOf(ps), coding)
    requires |body'| == |body| && PAYLOAD_START <= |body| && body'[PAYLOAD_START..] == body[PAYLOAD_START..]
    ensures Fits(b, body', t, coding)
  {
    var rows := TableOf(ps);
    forall i | 0 <= i < |t| ensures coding(t[i].kind, PartOf(b, t[i].kind), Payload(body', t[i])) {
      var x :| 0 <= x < |rows| && rows[x] == t[i];
      SamePayload(body', body, t[i]);
    }
  }

  lemma RearrangedHeader(t: seq<TableEntry>, epoch: nat, ps: seq<Bytes>)
    requires |ps| == SECTION_COUNT && Rearranges(t, TableOf(ps)) && HeaderOf(BodyWith(epoch, ps), epoch, TableOf(ps))
    ensures HeaderOf(BodyIn(t, epoch, ps), epoch, t)
  {
    SameFromTable(t, epoch, ps);
    forall i | 0 <= i < |t| ensures WideEntry(t[i]) {
      var x :| 0 <= x < |ps| && TableOf(ps)[x] == t[i];
    }
  }

  lemma RearrangedIsLaid(t: seq<TableEntry>, b: RawBook, ps: seq<Bytes>, coding: Coding)
    requires |ps| == SECTION_COUNT && Rearranges(t, TableOf(ps)) && Laid(BodyWith(b.epoch, ps), TableOf(ps), b, coding)
    ensures Laid(BodyIn(t, b.epoch, ps), t, b, coding)
  {
    RearrangedHeader(t, b.epoch, ps);
    SameFromTable(t, b.epoch, ps);
    RearrangedTiles(t, ps, |BodyWith(b.epoch, ps)|);
    RearrangedFits(t, b, ps, BodyWith(b.epoch, ps), BodyIn(t, b.epoch, ps), coding);
  }

  /** The sections may be listed in any order: every rearrangement of the table is
      accepted as the same book, and is what the encoder writes only in its own order. */
  lemma AnyTableOrder(b: RawBook, t: seq<TableEntry>, sha: Sha, utf8: Utf8)
    requires Typed(b) && BookTextsAre(b, utf8) && Encodable(b) && Readable(b)
    requires Rearranges(t, TableOf(Payloads(b)))
    ensures var body := BodyIn(t, b.epoch, Payloads(b));
            && Artifact(body + sha(body), b, sha, utf8)
            && (body + sha(body) == Encoded(b, sha) <==> t == TableOf(Payloads(b)))
  {
    var ps := Payloads(b);
    var body := BodyIn(t, b.epoch, ps);
    ReadableIsLaid(b, utf8, Encoding(utf8));
    RearrangedIsLaid(t, b, ps, Encoding(utf8));
    assert BodyBytes(body + sha(body)) == body;
    ArtifactLaid(body + sha(body), b, sha, utf8);
    if body + sha(body) == Encoded(b, sha) {
      SameFromTable(t, b.epoch, ps);
      assert body == BodyWith(b.epoch, ps);
      assert HeaderOf(body, b.epoch, t) && HeaderOf(body, b.epoch, TableOf(ps));
      HeaderUnique(body, b.epoch, t, b.epoch, TableOf(ps));
    }
  }

  function Swapped(rows: seq<TableEntry>): (t: seq<TableEntry>)
    requires |rows| >= 2
    ensures |t| == |rows| && t[0] == rows[1] && t[1] == rows[0] && forall i :: 2 <= i < |t| ==> t[i] == rows[i]
  {
    rows[0 := rows[1]][1 := rows[0]]
  }

  lemma SwapRearranges(rows: seq<TableEntry>)
    requires |rows| >= 2 && KindsOnce(rows)
    ensures Rearranges(Swapped(rows), rows) && Swapped(rows) != rows
  {
    var t := Swapped(rows);
    forall i | 0 <= i < |t| ensures t[i] in rows && t[i].kind in ALL_KINDS {
      assert t[i] == rows[if i == 0 then 1 else if i == 1 then 0 else i];
    }
    assert rows[0].kind != rows[1].kind;
  }

  /** So no readable book has a single artifact: with the first two rows exchanged there
      is another. */
  lemma SwappedIsAccepted(b: RawBook, sha: Sha, utf8: Utf8) returns (bytes: Bytes)
    requires Typed(b) && BookTextsAre(b, utf8) && Encodable(b) && Readable(b)
    ensures Artifact(bytes, b, sha, utf8) && bytes != Encoded(b, sha)
  {
    var rows := TableOf(Payloads(b));
    TableKinds(Payloads(b));
    SwapRearranges(rows);
    AnyTableOrder(b, Swapped(rows), sha, utf8);
    var body := BodyIn(Swapped(rows), b.epoch, Payloads(b));
    bytes := body + sha(body);
  }
}
