/** The two record headers every VLR and EVLR starts with, and the catalog
    entry built from either. Layouts follow the Variable Length Record header
    (section 2.5) and the Extended Variable Length Record header (section
    2.7) of the ASPRS LAS 1.4 specification.
 */
module Header {
  import opened Bytes
  import opened Results
  import opened Layout

  /** `vlr_header`: the short header, whose payload length is 16 bits. */
  datatype VlrHeader = VlrHeader(
    reserved: uint16,
    userId: seq<uint8>,       // 16 bytes on file
    recordId: uint16,
    dataLength: uint16,
    description: seq<uint8>   // 32 bytes on file
  )

  /** `evlr_header`: the extended header, whose payload length is 64 bits. */
  datatype EvlrHeader = EvlrHeader(
    reserved: uint16,
    userId: seq<uint8>,
    recordId: uint16,
    dataLength: uint64,
    description: seq<uint8>
  )

  const UserIdWidth: nat := 16
  const DescriptionWidth: nat := 32

  /** `vlr_header::Size` and `evlr_header::Size`. */
  const VlrHeaderSize: nat := 54
  const EvlrHeaderSize: nat := 60

  /** reserved, user_id, record_id, data_length, description */
  const VlrSlots: seq<Slot> := [Word(2), Text(16), Word(2), Word(2), Text(32)]
  const EvlrSlots: seq<Slot> := [Word(2), Text(16), Word(2), Word(8), Text(32)]

  /** Both text fields survive their fixed-width slots. */
  predicate ValidVlrHeader(h: VlrHeader)
  {
    IsText(h.userId, UserIdWidth) && IsText(h.description, DescriptionWidth)
  }

  predicate ValidEvlrHeader(h: EvlrHeader)
  {
    IsText(h.userId, UserIdWidth) && IsText(h.description, DescriptionWidth)
  }

  function VlrFields(h: VlrHeader): (vs: seq<Value>)
    ensures EncodableAll(VlrSlots, vs)
    ensures ValidVlrHeader(h) ==> Conforms(VlrSlots, vs)
  {
    Pow256Widths();
    [Num(h.reserved), Str(h.userId), Num(h.recordId), Num(h.dataLength), Str(h.description)]
  }

  function VlrFromFields(vs: seq<Value>): (h: VlrHeader)
    requires Conforms(VlrSlots, vs)
    ensures ValidVlrHeader(h)
  {
    Pow256Widths();
    VlrHeader(vs[0].n, vs[1].s, vs[2].n, vs[3].n, vs[4].s)
  }

  function EvlrFields(h: EvlrHeader): (vs: seq<Value>)
    ensures EncodableAll(EvlrSlots, vs)
    ensures ValidEvlrHeader(h) ==> Conforms(EvlrSlots, vs)
  {
    Pow256Widths();
    [Num(h.reserved), Str(h.userId), Num(h.recordId), Num(h.dataLength), Str(h.description)]
  }

  function EvlrFromFields(vs: seq<Value>): (h: EvlrHeader)
    requires Conforms(EvlrSlots, vs)
    ensures ValidEvlrHeader(h)
  {
    Pow256Widths();
    EvlrHeader(vs[0].n, vs[1].s, vs[2].n, vs[3].n, vs[4].s)
  }

  /** `vlr_header::data()`: the 54 bytes of the short header. */
  function EncodeVlrHeader(h: VlrHeader): (r: seq<uint8>)
    ensures |r| == VlrHeaderSize
  {
    EncodeRecord(VlrSlots, VlrFields(h))
  }

  /** `vlr_header::fill()`: the header in the first 54 bytes of `b`. */
  function DecodeVlrHeader(b: seq<uint8>): (r: Result<VlrHeader>)
    ensures r.Err? <==> |b| < VlrHeaderSize
    ensures r.Err? ==> r.error == TruncatedInput
    ensures r.Ok? ==> ValidVlrHeader(r.value)
  {
    if |b| < VlrHeaderSize then Err(TruncatedInput)
    else Ok(VlrFromFields(DecodeRecord(VlrSlots, b[..VlrHeaderSize])))
  }

  /** `evlr_header::data()`: the 60 bytes of the extended header. */
  function EncodeEvlrHeader(h: EvlrHeader): (r: seq<uint8>)
    ensures |r| == EvlrHeaderSize
  {
    EncodeRecord(EvlrSlots, EvlrFields(h))
  }

  /** `evlr_header::fill()`: the header in the first 60 bytes of `b`. */
  function DecodeEvlrHeader(b: seq<uint8>): (r: Result<EvlrHeader>)
    ensures r.Err? <==> |b| < EvlrHeaderSize
    ensures r.Err? ==> r.error == TruncatedInput
    ensures r.Ok? ==> ValidEvlrHeader(r.value)
  {
    if |b| < EvlrHeaderSize then Err(TruncatedInput)
    else Ok(EvlrFromFields(DecodeRecord(EvlrSlots, b[..EvlrHeaderSize])))
  }

  /** Where each field of the short header sits. */
  lemma VlrHeaderLayout(h: VlrHeader)
    ensures EncodeVlrHeader(h)
         == LittleEndian(h.reserved, 2) + PadText(h.userId, 16) + LittleEndian(h.recordId, 2)
          + LittleEndian(h.dataLength, 2) + PadText(h.description, 32)
  {
    Pow256Widths();
    EncodeRecord5(Word(2), Text(16), Word(2), Word(2), Text(32),
                  Num(h.reserved), Str(h.userId), Num(h.recordId), Num(h.dataLength), Str(h.description));
  }

  /** Where each field of the extended header sits. */
  lemma EvlrHeaderLayout(h: EvlrHeader)
    ensures EncodeEvlrHeader(h)
         == LittleEndian(h.reserved, 2) + PadText(h.userId, 16) + LittleEndian(h.recordId, 2)
          + LittleEndian(h.dataLength, 8) + PadText(h.description, 32)
  {
    Pow256Widths();
    EncodeRecord5(Word(2), Text(16), Word(2), Word(8), Text(32),
                  Num(h.reserved), Str(h.userId), Num(h.recordId), Num(h.dataLength), Str(h.description));
  }

  /** A short header reads back as written exactly when its text fields fit. */
  lemma VlrHeaderRoundTrip(h: VlrHeader)
    ensures DecodeVlrHeader(EncodeVlrHeader(h)) == Ok(h) <==> ValidVlrHeader(h)
  {
    if ValidVlrHeader(h) {
      var b := EncodeVlrHeader(h);
      assert b[..VlrHeaderSize] == b;
      RecordRoundTrip(VlrSlots, VlrFields(h));
    }
  }

  /** An extended header reads back as written exactly when its text fields fit. */
  lemma EvlrHeaderRoundTrip(h: EvlrHeader)
    ensures DecodeEvlrHeader(EncodeEvlrHeader(h)) == Ok(h) <==> ValidEvlrHeader(h)
  {
    if ValidEvlrHeader(h) {
      var b := EncodeEvlrHeader(h);
      assert b[..EvlrHeaderSize] == b;
      RecordRoundTrip(EvlrSlots, EvlrFields(h));
    }
  }

  /** Decoding reads only the header's own bytes: whatever follows it in
      the buffer (the payload) does not change the header read. */
  lemma VlrHeaderPrefix(h: VlrHeader, rest: seq<uint8>)
    requires ValidVlrHeader(h)
    ensures DecodeVlrHeader(EncodeVlrHeader(h) + rest) == Ok(h)
  {
    var b := EncodeVlrHeader(h);
    assert (b + rest)[..VlrHeaderSize] == b;
    VlrHeaderRoundTrip(h);
    assert b[..VlrHeaderSize] == b;
  }

  lemma EvlrHeaderPrefix(h: EvlrHeader, rest: seq<uint8>)
    requires ValidEvlrHeader(h)
    ensures DecodeEvlrHeader(EncodeEvlrHeader(h) + rest) == Ok(h)
  {
    var b := EncodeEvlrHeader(h);
    assert (b + rest)[..EvlrHeaderSize] == b;
    EvlrHeaderRoundTrip(h);
    assert b[..EvlrHeaderSize] == b;
  }

  /** What any buffer of at least 54 bytes reads as: each number from its
      own little-endian window, and each text field cut at the first NUL
      of its window, or at the window's end when it holds none. */
  lemma VlrHeaderFields(b: seq<uint8>)
    requires |b| >= VlrHeaderSize
    ensures DecodeVlrHeader(b)
         == Ok(VlrHeader(FromLittleEndian(b[0..2]), TrimText(b[2..18]), FromLittleEndian(b[18..20]),
                         FromLittleEndian(b[20..22]), TrimText(b[22..54])))
  {
    var c := b[..VlrHeaderSize];
    var vs := DecodeRecord(VlrSlots, c);
    HeaderOffsets();
    DecodeSlotAt(VlrSlots, c, 0, 0);
    DecodeSlotAt(VlrSlots, c, 1, 2);
    DecodeSlotAt(VlrSlots, c, 2, 18);
    DecodeSlotAt(VlrSlots, c, 3, 20);
    DecodeSlotAt(VlrSlots, c, 4, 22);
    assert c[0..2] == b[0..2] && c[2..18] == b[2..18] && c[18..20] == b[18..20];
    assert c[20..22] == b[20..22] && c[22..54] == b[22..54];
  }

  /** The same for any buffer of at least 60 bytes and the extended header,
      whose data_length is the 8 bytes at 20..28. */
  lemma EvlrHeaderFields(b: seq<uint8>)
    requires |b| >= EvlrHeaderSize
    ensures DecodeEvlrHeader(b)
         == Ok(EvlrHeader(FromLittleEndian(b[0..2]), TrimText(b[2..18]), FromLittleEndian(b[18..20]),
                          FromLittleEndian(b[20..28]), TrimText(b[28..60])))
  {
    var c := b[..EvlrHeaderSize];
    var vs := DecodeRecord(EvlrSlots, c);
    HeaderOffsets();
    DecodeSlotAt(EvlrSlots, c, 0, 0);
    DecodeSlotAt(EvlrSlots, c, 1, 2);
    DecodeSlotAt(EvlrSlots, c, 2, 18);
    DecodeSlotAt(EvlrSlots, c, 3, 20);
    DecodeSlotAt(EvlrSlots, c, 4, 28);
    assert c[0..2] == b[0..2] && c[2..18] == b[2..18] && c[18..20] == b[18..20];
    assert c[20..28] == b[20..28] && c[28..60] == b[28..60];
  }

  /** Offsets of the header fields: 0, 2, 18, 20, then 22 or 28. */
  lemma HeaderOffsets()
    ensures Width(VlrSlots[..0]) == 0 && Width(VlrSlots[..1]) == 2 && Width(VlrSlots[..2]) == 18
    ensures Width(VlrSlots[..3]) == 20 && Width(VlrSlots[..4]) == 22
    ensures Width(EvlrSlots[..0]) == 0 && Width(EvlrSlots[..1]) == 2 && Width(EvlrSlots[..2]) == 18
    ensures Width(EvlrSlots[..3]) == 20 && Width(EvlrSlots[..4]) == 28
  {
    assert VlrSlots[..0] == [] && EvlrSlots[..0] == [];
    WidthSnoc(VlrSlots, 0);
    WidthSnoc(VlrSlots, 1);
    WidthSnoc(VlrSlots, 2);
    WidthSnoc(VlrSlots, 3);
    WidthSnoc(EvlrSlots, 0);
    WidthSnoc(EvlrSlots, 1);
    WidthSnoc(EvlrSlots, 2);
    WidthSnoc(EvlrSlots, 3);
  }

  /** `vlr_index_rec`: a catalog entry locating a record without its payload. */
  datatype IndexRec = IndexRec(
    userId: seq<uint8>,
    recordId: uint16,
    dataLength: uint64,
    description: seq<uint8>,
    byteOffset: uint64
  )

  /** `vlr_index_rec(const vlr_header &, uint64_t)` */
  function IndexFromVlr(h: VlrHeader, byteOffset: uint64): (r: IndexRec)
    ensures r.userId == h.userId && r.recordId == h.recordId
    ensures r.description == h.description && r.byteOffset == byteOffset
    ensures r.dataLength == h.dataLength
  {
    IndexRec(h.userId, h.recordId, h.dataLength, h.description, byteOffset)
  }

  /** `vlr_index_rec(const evlr_header &, uint64_t)` */
  function IndexFromEvlr(h: EvlrHeader, byteOffset: uint64): (r: IndexRec)
    ensures r.userId == h.userId && r.recordId == h.recordId
    ensures r.description == h.description && r.byteOffset == byteOffset
    ensures r.dataLength == h.dataLength
  {
    IndexRec(h.userId, h.recordId, h.dataLength, h.description, byteOffset)
  }

  /** The catalog does not depend on the header kind: a short and an
      extended header carrying the same field values give the same entry. */
  lemma IndexKindAgnostic(h: VlrHeader, e: EvlrHeader, byteOffset: uint64)
    requires h.userId == e.userId && h.recordId == e.recordId
    requires h.dataLength == e.dataLength && h.description == e.description
    ensures IndexFromVlr(h, byteOffset) == IndexFromEvlr(e, byteOffset)
  {
  }
}
