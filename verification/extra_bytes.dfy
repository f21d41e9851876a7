/** `eb_vlr`: the extra-bytes descriptor. An array of fixed 192-byte field
    descriptions, one per extra per-point attribute. The declaration does
    not give the widths of `name` and `description`; they, and so the
    192-byte field, come from the Extra Bytes record of the ASPRS LAS 1.4
    specification (32 bytes each).
 */
module ExtraBytes {
  import opened Bytes
  import opened Results
  import opened Layout

  type Bytes2 = b: seq<uint8> | |b| == 2 witness [0, 0]
  type Bytes4 = b: seq<uint8> | |b| == 4 witness [0, 0, 0, 0]

  /** A `double[3]`: present in full whatever the options say, a scalar
      attribute using only the first component. */
  datatype Triple = Triple(x: Float64Bits, y: Float64Bits, z: Float64Bits)

  /** `eb_vlr::ebfield` */
  datatype EbField = EbField(
    reserved: Bytes2,
    dataType: uint8,
    options: uint8,           // which of no_data/min/max/scale/offset are meaningful
    name: seq<uint8>,         // 32 bytes on file
    unused: Bytes4,
    noData: Triple,
    minVal: Triple,
    maxVal: Triple,
    scale: Triple,
    offset: Triple,
    description: seq<uint8>   // 32 bytes on file
  )

  datatype EbVlr = EbVlr(items: seq<EbField>)

  const NameWidth: nat := 32
  const DescriptionWidth: nat := 32

  /** reserved, data_type, options, name, unused, no_data[3], min[3],
      max[3], scale[3], offset[3], description */
  const FieldSlots: seq<Slot> :=
    [Raw(2), Word(1), Word(1), Text(32), Raw(4),
     Word(8), Word(8), Word(8), Word(8), Word(8), Word(8), Word(8), Word(8),
     Word(8), Word(8), Word(8), Word(8), Word(8), Word(8), Word(8),
     Text(32)]

  /** Registry pair of the Extra Bytes record (user_id "LASF_Spec"). */
  const UserId: seq<uint8> := [0x4c, 0x41, 0x53, 0x46, 0x5f, 0x53, 0x70, 0x65, 0x63]
  const RecordId: uint16 := 4

  /** Both text fields survive their 32-byte slots. */
  predicate ValidField(f: EbField)
  {
    IsText(f.name, NameWidth) && IsText(f.description, DescriptionWidth)
  }

  predicate Valid(v: EbVlr)
  {
    forall i :: 0 <= i < |v.items| ==> ValidField(v.items[i])
  }

  function FieldValues(f: EbField): (vs: seq<Value>)
    ensures EncodableAll(FieldSlots, vs)
    ensures ValidField(f) ==> Conforms(FieldSlots, vs)
  {
    Pow256Widths();
    [Blob(f.reserved), Num(f.dataType), Num(f.options), Str(f.name), Blob(f.unused),
     Num(f.noData.x), Num(f.noData.y), Num(f.noData.z),
     Num(f.minVal.x), Num(f.minVal.y), Num(f.minVal.z),
     Num(f.maxVal.x), Num(f.maxVal.y), Num(f.maxVal.z),
     Num(f.scale.x), Num(f.scale.y), Num(f.scale.z),
     Num(f.offset.x), Num(f.offset.y), Num(f.offset.z),
     Str(f.description)]
  }

  lemma FieldWidth()
    ensures Width(FieldSlots) == 192
  {
    var head: seq<Slot> := [Raw(2), Word(1), Word(1), Text(32), Raw(4)];
    var t: seq<Slot> := [Word(8), Word(8), Word(8)];
    assert FieldSlots == head + (t + t + t + t + t) + [Text(32)];
    WidthAppend(head, t + t + t + t + t);
    WidthAppend(head + (t + t + t + t + t), [Text(32)]);
    WidthAppend(t, t);
    WidthAppend(t + t, t);
    WidthAppend(t + t + t, t);
    WidthAppend(t + t + t + t, t);
  }

  lemma FieldRoundTrip(f: EbField)
    requires ValidField(f)
    ensures FieldFromValues(FieldValues(f)) == f
  {
  }

  function FieldFromValues(vs: seq<Value>): (f: EbField)
    requires Conforms(FieldSlots, vs)
    ensures ValidField(f) && FieldValues(f) == vs
  {
    Pow256Widths();
    assert Fits(FieldSlots[0], vs[0]) && Fits(FieldSlots[1], vs[1]) && Fits(FieldSlots[2], vs[2]);
    assert Fits(FieldSlots[3], vs[3]) && Fits(FieldSlots[4], vs[4]) && Fits(FieldSlots[5], vs[5]);
    assert Fits(FieldSlots[6], vs[6]) && Fits(FieldSlots[7], vs[7]) && Fits(FieldSlots[8], vs[8]);
    assert Fits(FieldSlots[9], vs[9]) && Fits(FieldSlots[10], vs[10]) && Fits(FieldSlots[11], vs[11]);
    assert Fits(FieldSlots[12], vs[12]) && Fits(FieldSlots[13], vs[13]) && Fits(FieldSlots[14], vs[14]);
    assert Fits(FieldSlots[15], vs[15]) && Fits(FieldSlots[16], vs[16]) && Fits(FieldSlots[17], vs[17]);
    assert Fits(FieldSlots[18], vs[18]) && Fits(FieldSlots[19], vs[19]) && Fits(FieldSlots[20], vs[20]);
    EbField(vs[0].bytes, vs[1].n, vs[2].n, vs[3].s, vs[4].bytes,
            Triple(vs[5].n, vs[6].n, vs[7].n),
            Triple(vs[8].n, vs[9].n, vs[10].n),
            Triple(vs[11].n, vs[12].n, vs[13].n),
            Triple(vs[14].n, vs[15].n, vs[16].n),
            Triple(vs[17].n, vs[18].n, vs[19].n),
            vs[20].s)
  }

  function FieldRows(items: seq<EbField>): (rows: seq<seq<Value>>)
    ensures |rows| == |items| && AllEncodable(FieldSlots, rows)
    ensures forall i :: 0 <= i < |items| ==> rows[i] == FieldValues(items[i])
  {
    seq(|items|, i requires 0 <= i < |items| => FieldValues(items[i]))
  }

  /** `eb_vlr()`: no fields. */
  function Empty(): (v: EbVlr)
    ensures |v.items| == 0 && Size(v) == 0
  {
    EbVlr([])
  }

  /** `eb_vlr::size()` */
  function Size(v: EbVlr): nat
  {
    192 * |v.items|
  }

  /** `eb_vlr::addField(const ebfield &)`: `f` becomes the last field and
      every earlier field stays where it was. */
  function AddField(v: EbVlr, f: EbField): (r: EbVlr)
    ensures |r.items| == |v.items| + 1
    ensures r.items[..|v.items|] == v.items && r.items[|v.items|] == f
    ensures Size(r) == Size(v) + 192
  {
    EbVlr(v.items + [f])
  }

  /** `eb_vlr::data()`: the fields back to back. */
  function Encode(v: EbVlr): (r: seq<uint8>)
    ensures |r| == 192 * |v.items| == Size(v)
  {
    FieldWidth();
    StrideIsProduct(|v.items|, 192);
    EncodeRows(FieldSlots, FieldRows(v.items))
  }

  /** `eb_vlr::fill()`: a payload of `|b|` bytes holds `|b| / 192` fields,
      field `i` read from bytes 192 i .. 192 i + 192; any other length is
      refused rather than cut short. */
  function Decode(b: seq<uint8>): (r: Result<EbVlr>)
    ensures r.Ok? <==> |b| % 192 == 0
    ensures r.Err? ==> r.error == MisalignedPayload
    ensures r.Ok? ==> |r.value.items| == |b| / 192 && Valid(r.value)
    ensures r.Ok? ==> Size(r.value) == |b|
  {
    if |b| % 192 != 0 then Err(MisalignedPayload)
    else
      var n := |b| / 192;
      WholeFieldsExact(|b|);
      Ok(EbVlr(seq(n, i requires 0 <= i < n => ReadField(b, i))))
  }

  /** Field `i` of a payload of whole fields. */
  function ReadField(b: seq<uint8>, i: nat): (f: EbField)
    requires |b| % 192 == 0 && i < |b| / 192
    ensures ValidField(f)
  {
    FieldWindow(|b|, i);
    FieldFromBytes(b[192 * i..192 * i + 192])
  }

  lemma FieldWindow(len: nat, i: nat)
    requires len % 192 == 0 && i < len / 192
    ensures 192 * i + 192 <= len
  {
    WholeFieldsExact(len);
  }

  /** Adding a field appends exactly its 192 bytes to the payload. */
  lemma AddFieldAppends(v: EbVlr, f: EbField)
    ensures Encode(AddField(v, f)) == Encode(v) + EncodeRecord(FieldSlots, FieldValues(f))
  {
    assert FieldRows(v.items + [f]) == FieldRows(v.items) + [FieldValues(f)];
    EncodeRowsAppend(FieldSlots, FieldRows(v.items), FieldValues(f));
  }

  /** The 24 bytes of a `double[3]`: x, y, z, little-endian. */
  function TripleBytes(t: Triple): (r: seq<uint8>)
    ensures |r| == 24
  {
    Pow256Widths();
    LittleEndian(t.x, 8) + LittleEndian(t.y, 8) + LittleEndian(t.z, 8)
  }

  lemma TripleRecord(t: Triple)
    ensures EncodableAll(TripleSlots, TripleValues(t))
    ensures EncodeRecord(TripleSlots, TripleValues(t)) == TripleBytes(t)
  {
    Pow256Widths();
    EncodeRecord3(Word(8), Word(8), Word(8), Num(t.x), Num(t.y), Num(t.z));
    AppendAssoc(LittleEndian(t.x, 8), LittleEndian(t.y, 8), LittleEndian(t.z, 8));
  }

  /** The first five members: reserved, data_type, options, name, unused. */
  lemma HeadRecord(f: EbField)
    ensures EncodableAll(HeadSlots, HeadValues(f))
    ensures EncodeRecord(HeadSlots, HeadValues(f))
         == f.reserved + [f.dataType] + [f.options] + PadText(f.name, 32) + f.unused
  {
    Pow256Widths();
    SingleByte(f.dataType);
    SingleByte(f.options);
    EncodeRecord5(Raw(2), Word(1), Word(1), Text(32), Raw(4),
                  Blob(f.reserved), Num(f.dataType), Num(f.options), Str(f.name), Blob(f.unused));
    var n := PadText(f.name, 32);
    AppendAssoc(f.reserved, [f.dataType], [f.options] + (n + f.unused));
    AppendAssoc(f.reserved + [f.dataType], [f.options], n + f.unused);
    AppendAssoc(f.reserved + [f.dataType] + [f.options], n, f.unused);
  }

  const HeadSlots: seq<Slot> := [Raw(2), Word(1), Word(1), Text(32), Raw(4)]
  const TripleSlots: seq<Slot> := [Word(8), Word(8), Word(8)]

  function HeadValues(f: EbField): seq<Value>
  {
    [Blob(f.reserved), Num(f.dataType), Num(f.options), Str(f.name), Blob(f.unused)]
  }

  function TripleValues(t: Triple): seq<Value>
  {
    [Num(t.x), Num(t.y), Num(t.z)]
  }

  lemma SlotsSplit()
    ensures FieldSlots == HeadSlots + (TripleSlots + TripleSlots + TripleSlots + TripleSlots + TripleSlots)
                          + [Text(32)]
  {
  }

  lemma ValuesSplit(f: EbField)
    ensures FieldValues(f)
         == HeadValues(f)
            + (TripleValues(f.noData) + TripleValues(f.minVal) + TripleValues(f.maxVal)
               + TripleValues(f.scale) + TripleValues(f.offset))
            + [Str(f.description)]
  {
    var vs := FieldValues(f);
    MiddleValues(f);
    assert HeadValues(f) == vs[..5];
    assert [Str(f.description)] == vs[20..];
    assert vs == vs[..5] + vs[5..20] + vs[20..];
  }

  lemma MiddleValues(f: EbField)
    ensures FieldValues(f)[5..20]
         == TripleValues(f.noData) + TripleValues(f.minVal) + TripleValues(f.maxVal)
            + TripleValues(f.scale) + TripleValues(f.offset)
  {
    var vs := FieldValues(f);
    RangeValues(f);
    ScaleOffsetValues(f);
    SliceJoin(vs, 5, 14, 17);
    SliceJoin(vs, 5, 17, 20);
  }

  /** no_data, min and max: values 5 to 13. */
  lemma RangeValues(f: EbField)
    ensures FieldValues(f)[5..14]
         == TripleValues(f.noData) + TripleValues(f.minVal) + TripleValues(f.maxVal)
  {
    var vs := FieldValues(f);
    TripleSlice(vs, 5, f.noData);
    TripleSlice(vs, 8, f.minVal);
    TripleSlice(vs, 11, f.maxVal);
    SliceJoin(vs, 5, 8, 11);
    SliceJoin(vs, 5, 11, 14);
  }

  /** scale and offset: values 14 to 19. */
  lemma ScaleOffsetValues(f: EbField)
    ensures FieldValues(f)[14..17] == TripleValues(f.scale)
    ensures FieldValues(f)[17..20] == TripleValues(f.offset)
  {
    var vs := FieldValues(f);
    TripleSlice(vs, 14, f.scale);
    TripleSlice(vs, 17, f.offset);
  }

  /** Three consecutive words that hold a triple's x, y and z are its values. */
  lemma TripleSlice(vs: seq<Value>, a: nat, t: Triple)
    requires a + 3 <= |vs|
    requires vs[a] == Num(t.x) && vs[a + 1] == Num(t.y) && vs[a + 2] == Num(t.z)
    ensures vs[a..a + 3] == TripleValues(t)
  {
  }

  /** The five `double[3]` members, back to back. */
  lemma TriplesRecord(f: EbField)
    ensures EncodableAll(TripleSlots + TripleSlots + TripleSlots + TripleSlots + TripleSlots,
                         TripleValues(f.noData) + TripleValues(f.minVal) + TripleValues(f.maxVal)
                         + TripleValues(f.scale) + TripleValues(f.offset))
    ensures EncodeRecord(TripleSlots + TripleSlots + TripleSlots + TripleSlots + TripleSlots,
                         TripleValues(f.noData) + TripleValues(f.minVal) + TripleValues(f.maxVal)
                         + TripleValues(f.scale) + TripleValues(f.offset))
         == TripleBytes(f.noData) + TripleBytes(f.minVal) + TripleBytes(f.maxVal)
            + TripleBytes(f.scale) + TripleBytes(f.offset)
  {
    var ts := TripleSlots;
    TripleRecord(f.noData);
    TripleRecord(f.minVal);
    TripleRecord(f.maxVal);
    TripleRecord(f.scale);
    TripleRecord(f.offset);
    var t1, t2, t3, t4 := TripleValues(f.noData), TripleValues(f.minVal), TripleValues(f.maxVal),
                          TripleValues(f.scale);
    EncodeRecordAppend(ts, t1, ts, t2);
    EncodeRecordAppend(ts + ts, t1 + t2, ts, t3);
    EncodeRecordAppend(ts + ts + ts, t1 + t2 + t3, ts, t4);
    EncodeRecordAppend(ts + ts + ts + ts, t1 + t2 + t3 + t4, ts, TripleValues(f.offset));
  }

  /** One field's 192 bytes, member by member in the order of the Extra
      Bytes record of the LAS 1.4 specification: reserved at 0, data_type
      at 2, options at 3, name at 4, unused at 36, no_data at 40, min at
      64, max at 88, scale at 112, offset at 136, description at 160. */
  lemma FieldLayout(f: EbField)
    ensures EncodeRecord(FieldSlots, FieldValues(f))
         == f.reserved + [f.dataType] + [f.options] + PadText(f.name, 32) + f.unused
            + (TripleBytes(f.noData) + TripleBytes(f.minVal) + TripleBytes(f.maxVal)
               + TripleBytes(f.scale) + TripleBytes(f.offset))
            + PadText(f.description, 32)
  {
    var ms := TripleSlots + TripleSlots + TripleSlots + TripleSlots + TripleSlots;
    var mv := TripleValues(f.noData) + TripleValues(f.minVal) + TripleValues(f.maxVal)
              + TripleValues(f.scale) + TripleValues(f.offset);
    HeadRecord(f);
    TriplesRecord(f);
    EncodeRecord1(Text(32), Str(f.description));
    EncodeRecordAppend(HeadSlots, HeadValues(f), ms, mv);
    EncodeRecordAppend(HeadSlots + ms, HeadValues(f) + mv, [Text(32)], [Str(f.description)]);
    SlotsSplit();
    ValuesSplit(f);
  }

  /** Field `i` of a descriptor fills bytes 192 i .. 192 i + 192. */
  lemma FieldAt(v: EbVlr, i: nat)
    requires i < |v.items|
    ensures 192 * i + 192 <= |Encode(v)|
    ensures Encode(v)[192 * i..192 * i + 192] == EncodeRecord(FieldSlots, FieldValues(v.items[i]))
  {
    var rows := FieldRows(v.items);
    FieldRowBytes(rows, i);
    assert rows[i] == FieldValues(v.items[i]);
  }

  /** Row `i` of any array of fields sits at bytes 192 i .. 192 i + 192. */
  lemma FieldRowBytes(rows: seq<seq<Value>>, i: nat)
    requires AllEncodable(FieldSlots, rows) && i < |rows|
    ensures 192 * i + 192 <= |EncodeRows(FieldSlots, rows)|
    ensures EncodeRows(FieldSlots, rows)[192 * i..192 * i + 192] == EncodeRecord(FieldSlots, rows[i])
  {
    FieldWidth();
    RowAtProduct(FieldSlots, rows, i, 192);
  }

  /** The `double[3]` in bytes `a .. a + 24` of a field, x, y, z. */
  function TripleFrom(c: seq<uint8>, a: nat): Triple
    requires a + 24 <= |c|
  {
    Pow256Widths();
    Triple(FromLittleEndian(c[a..a + 8]), FromLittleEndian(c[a + 8..a + 16]),
           FromLittleEndian(c[a + 16..a + 24]))
  }

  /** A field read member by member from its 192 bytes, at the offsets of
      the Extra Bytes record of the LAS 1.4 specification; name and
      description are cut at the first NUL of their 32-byte windows. */
  function FieldFromBytes(c: seq<uint8>): EbField
    requires |c| == 192
  {
    EbField(c[0..2], c[2], c[3], TrimText(c[4..36]), c[36..40],
            TripleFrom(c, 40), TripleFrom(c, 64), TripleFrom(c, 88), TripleFrom(c, 112),
            TripleFrom(c, 136), TrimText(c[160..192]))
  }

  /** The values read from one field's bytes. */
  function FieldRecord(c: seq<uint8>): (vs: seq<Value>)
    requires |c| == 192
    ensures Conforms(FieldSlots, vs)
  {
    FieldWidth();
    DecodeRecord(FieldSlots, c)
  }

  /** Where the first five members start. */
  lemma HeadOffsets()
    ensures Width(HeadSlots[..0]) == 0 && Width(HeadSlots[..1]) == 2 && Width(HeadSlots[..2]) == 3
    ensures Width(HeadSlots[..3]) == 4 && Width(HeadSlots[..4]) == 36 && Width(HeadSlots) == 40
  {
    assert HeadSlots[..0] == [] && HeadSlots[..5] == HeadSlots;
    WidthSnoc(HeadSlots, 0);
    WidthSnoc(HeadSlots, 1);
    WidthSnoc(HeadSlots, 2);
    WidthSnoc(HeadSlots, 3);
    WidthSnoc(HeadSlots, 4);
  }

  /** reserved, data_type, options, name and unused read from bytes
      0 .. 40; name stops at its first NUL. */
  lemma HeadRead(c: seq<uint8>)
    requires |c| == 192
    ensures Width(HeadSlots) == 40
    ensures DecodeRecord(HeadSlots, c[0..40]) == HeadValues(FieldFromBytes(c))
  {
    HeadMembers(c);
  }

  /** The five head members, one by one. */
  lemma HeadMembers(c: seq<uint8>)
    requires |c| == 192
    ensures Width(HeadSlots) == 40
    ensures DecodeRecord(HeadSlots, c[0..40])[0] == Blob(c[0..2])
    ensures DecodeRecord(HeadSlots, c[0..40])[1] == Num(c[2])
    ensures DecodeRecord(HeadSlots, c[0..40])[2] == Num(c[3])
    ensures DecodeRecord(HeadSlots, c[0..40])[3] == Str(TrimText(c[4..36]))
    ensures DecodeRecord(HeadSlots, c[0..40])[4] == Blob(c[36..40])
  {
    HeadBlobs(c);
    HeadWords(c);
  }

  /** reserved, name and unused: bytes 0 .. 2, 4 .. 36 and 36 .. 40. */
  lemma HeadBlobs(c: seq<uint8>)
    requires |c| == 192
    ensures Width(HeadSlots) == 40
    ensures DecodeRecord(HeadSlots, c[0..40])[0] == Blob(c[0..2])
    ensures DecodeRecord(HeadSlots, c[0..40])[3] == Str(TrimText(c[4..36]))
    ensures DecodeRecord(HeadSlots, c[0..40])[4] == Blob(c[36..40])
  {
    var h := c[0..40];
    HeadOffsets();
    DecodeSlotAt(HeadSlots, h, 0, 0);
    DecodeSlotAt(HeadSlots, h, 3, 4);
    DecodeSlotAt(HeadSlots, h, 4, 36);
    SliceOfSlice(c, 0, 40, 0, 2, 0, 2);
    SliceOfSlice(c, 0, 40, 4, 36, 4, 36);
    SliceOfSlice(c, 0, 40, 36, 40, 36, 40);
  }

  /** data_type and options: the single bytes 2 and 3. */
  lemma HeadWords(c: seq<uint8>)
    requires |c| == 192
    ensures Width(HeadSlots) == 40
    ensures DecodeRecord(HeadSlots, c[0..40])[1] == Num(c[2])
    ensures DecodeRecord(HeadSlots, c[0..40])[2] == Num(c[3])
  {
    var h := c[0..40];
    HeadOffsets();
    DecodeSlotAt(HeadSlots, h, 1, 2);
    DecodeSlotAt(HeadSlots, h, 2, 3);
    FromSingleByte(h[2..3]);
    FromSingleByte(h[3..4]);
  }

  /** A `double[3]` member reads from the three words after `a`. */
  lemma TripleRead(c: seq<uint8>, a: nat)
    requires a + 24 <= |c|
    ensures Width(TripleSlots) == 24
    ensures DecodeRecord(TripleSlots, c[a..a + 24]) == TripleValues(TripleFrom(c, a))
  {
    var t := c[a..a + 24];
    assert TripleSlots[..0] == [];
    DecodeWordsAt(TripleSlots, t, 0, 0);
    SliceOfSlice(c, a, a + 24, 0, 8, a, a + 8);
    SliceOfSlice(c, a, a + 24, 8, 16, a + 8, a + 16);
    SliceOfSlice(c, a, a + 24, 16, 24, a + 16, a + 24);
  }

  /** A `double[3]` takes 24 bytes, the five of them 120. */
  lemma RunWidth()
    ensures Width(TripleSlots) == 24
    ensures Width(TripleSlots + TripleSlots + TripleSlots + TripleSlots + TripleSlots) == 120
  {
    var t := TripleSlots;
    WidthAppend(t, t);
    WidthAppend(t + t, t);
    WidthAppend(t + t + t, t);
    WidthAppend(t + t + t + t, t);
  }

  /** The five `double[3]` members read from bytes 40 .. 160. */
  lemma RunRead(c: seq<uint8>)
    requires |c| == 192
    ensures Width(TripleSlots + TripleSlots + TripleSlots + TripleSlots + TripleSlots) == 120
    ensures DecodeRecord(TripleSlots + TripleSlots + TripleSlots + TripleSlots + TripleSlots, c[40..160])
         == TripleValues(TripleFrom(c, 40)) + TripleValues(TripleFrom(c, 64))
            + TripleValues(TripleFrom(c, 88)) + TripleValues(TripleFrom(c, 112))
            + TripleValues(TripleFrom(c, 136))
  {
    var t := TripleSlots;
    TripleRead(c, 40);
    TripleRead(c, 64);
    TripleRead(c, 88);
    TripleRead(c, 112);
    TripleRead(c, 136);
    DecodeRecordSplit(t, t, c, 40, 64, 88);
    DecodeRecordSplit(t + t, t, c, 40, 88, 112);
    DecodeRecordSplit(t + t + t, t, c, 40, 112, 136);
    DecodeRecordSplit(t + t + t + t, t, c, 40, 136, 160);
  }

  /** Any 192 bytes read as the values of the field `FieldFromBytes`
      describes. */
  lemma RecordFromBytes(c: seq<uint8>)
    requires |c| == 192
    ensures FieldRecord(c) == FieldValues(FieldFromBytes(c))
  {
    var g := FieldFromBytes(c);
    RecordParts(c);
    HeadRead(c);
    RunRead(c);
    DescriptionRead(c);
    ValuesSplit(g);
  }

  /** description reads from bytes 160 .. 192, up to its first NUL. */
  lemma DescriptionRead(c: seq<uint8>)
    requires |c| == 192
    ensures Width([Text(32)]) == 32
    ensures DecodeRecord([Text(32)], c[160..192]) == [Str(TrimText(c[160..192]))]
  {
    var d := c[160..192];
    DecodeRecordUnfold([Text(32)], d);
    assert d[..32] == d;
  }

  /** A field's values are those of its head, its five triples and its
      description, each read from its own bytes. */
  lemma RecordParts(c: seq<uint8>)
    requires |c| == 192
    ensures Width(HeadSlots) == 40 && Width([Text(32)]) == 32
    ensures Width(TripleSlots + TripleSlots + TripleSlots + TripleSlots + TripleSlots) == 120
    ensures FieldRecord(c)
         == DecodeRecord(HeadSlots, c[0..40])
            + DecodeRecord(TripleSlots + TripleSlots + TripleSlots + TripleSlots + TripleSlots, c[40..160])
            + DecodeRecord([Text(32)], c[160..192])
  {
    var t := TripleSlots;
    var run := t + t + t + t + t;
    SlotsSplit();
    HeadOffsets();
    RunWidth();
    DecodeRecordThree(HeadSlots, run, [Text(32)], c, 40, 160);
  }

  /** Any 192 bytes read as the field `FieldFromBytes` describes. */
  lemma FieldDecodes(c: seq<uint8>)
    requires |c| == 192
    ensures FieldFromValues(FieldRecord(c)) == FieldFromBytes(c)
  {
    RecordFromBytes(c);
    FieldRoundTrip(FieldFromBytes(c));
  }

  /** Reading any payload of whole fields, field `i` is read from bytes
      192 i .. 192 i + 192 alone, member by member: its name is the text
      before the first NUL of bytes 192 i + 4 .. 192 i + 36, whatever
      follows that NUL, and its description likewise from bytes
      192 i + 160 .. 192 i + 192. */
  lemma FieldDecodesAt(b: seq<uint8>, i: nat)
    requires |b| % 192 == 0 && i < |b| / 192
    ensures Decode(b).Ok? && 192 * i + 192 <= |b|
    ensures Decode(b).value.items[i] == FieldFromBytes(b[192 * i..192 * i + 192])
    ensures Decode(b).value.items[i]
         == EbField(b[192 * i..192 * i + 2], b[192 * i + 2], b[192 * i + 3],
                    TrimText(b[192 * i + 4..192 * i + 36]), b[192 * i + 36..192 * i + 40],
                    TripleFrom(b, 192 * i + 40), TripleFrom(b, 192 * i + 64),
                    TripleFrom(b, 192 * i + 88), TripleFrom(b, 192 * i + 112),
                    TripleFrom(b, 192 * i + 136), TrimText(b[192 * i + 160..192 * i + 192]))
  {
    FieldWindow(|b|, i);
    FieldInWindow(b, 192 * i);
  }

  /** The field read from the window `a .. a + 192` of a byte string,
      with every member's offset counted from the start of the string. */
  lemma FieldInWindow(b: seq<uint8>, a: nat)
    requires a + 192 <= |b|
    ensures FieldFromBytes(b[a..a + 192])
         == EbField(b[a..a + 2], b[a + 2], b[a + 3], TrimText(b[a + 4..a + 36]), b[a + 36..a + 40],
                    TripleFrom(b, a + 40), TripleFrom(b, a + 64), TripleFrom(b, a + 88),
                    TripleFrom(b, a + 112), TripleFrom(b, a + 136), TrimText(b[a + 160..a + 192]))
  {
    var c := b[a..a + 192];
    SliceOfSlice(b, a, a + 192, 0, 2, a, a + 2);
    SliceOfSlice(b, a, a + 192, 4, 36, a + 4, a + 36);
    SliceOfSlice(b, a, a + 192, 36, 40, a + 36, a + 40);
    SliceOfSlice(b, a, a + 192, 160, 192, a + 160, a + 192);
    TripleInWindow(b, a, 40);
    TripleInWindow(b, a, 64);
    TripleInWindow(b, a, 88);
    TripleInWindow(b, a, 112);
    TripleInWindow(b, a, 136);
  }

  /** A `double[3]` read inside a field's window is the one read at the
      same place in the whole string. */
  lemma TripleInWindow(b: seq<uint8>, a: nat, k: nat)
    requires a + 192 <= |b| && k + 24 <= 192
    ensures TripleFrom(b[a..a + 192], k) == TripleFrom(b, a + k)
  {
    SliceOfSlice(b, a, a + 192, k, k + 8, a + k, a + k + 8);
    SliceOfSlice(b, a, a + 192, k + 8, k + 16, a + k + 8, a + k + 16);
    SliceOfSlice(b, a, a + 192, k + 16, k + 24, a + k + 16, a + k + 24);
  }

  /** A valid field's 192 bytes read back, member by member, as the field. */
  lemma FieldBytesRoundTrip(f: EbField)
    requires ValidField(f)
    ensures |EncodeRecord(FieldSlots, FieldValues(f))| == 192
    ensures FieldFromBytes(EncodeRecord(FieldSlots, FieldValues(f))) == f
  {
    var c := EncodeRecord(FieldSlots, FieldValues(f));
    FieldWidth();
    FieldDecodes(c);
    RecordRoundTrip(FieldSlots, FieldValues(f));
    FieldRoundTrip(f);
  }

  /** A descriptor reads back as written exactly when every field's name
      and description fit their slots. */
  lemma RoundTrip(v: EbVlr)
    ensures Decode(Encode(v)) == Ok(v) <==> Valid(v)
  {
    if Valid(v) {
      ValidRoundTrip(v);
    }
  }

  lemma WholeFieldsExact(len: nat)
    requires len % 192 == 0
    ensures 192 * (len / 192) == len
  {
  }

  /** n whole fields are 192 n bytes, that is n fields. */
  lemma WholeFieldsCount(n: nat)
    ensures (192 * n) % 192 == 0 && (192 * n) / 192 == n
  {
  }

  /** Valid fields, written and read back one window at a time. */
  lemma ValidRoundTrip(v: EbVlr)
    requires Valid(v)
    ensures Decode(Encode(v)) == Ok(v)
  {
    var b := Encode(v);
    var n := |v.items|;
    WholeFieldsCount(n);
    var items := Decode(b).value.items;
    forall i | 0 <= i < n ensures items[i] == v.items[i] {
      ItemRoundTrip(v, i);
    }
    assert items == v.items;
    assert Decode(b) == Ok(EbVlr(items));
  }

  /** Field `i` of a valid descriptor reads back from its own window. */
  lemma ItemRoundTrip(v: EbVlr, i: nat)
    requires Valid(v) && i < |v.items|
    ensures |Encode(v)| % 192 == 0 && i < |Encode(v)| / 192
    ensures ReadField(Encode(v), i) == v.items[i]
  {
    WholeFieldsCount(|v.items|);
    assert ValidField(v.items[i]);
    FieldAt(v, i);
    FieldBytesRoundTrip(v.items[i]);
  }
}
