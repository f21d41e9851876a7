/** `laz_vlr`: the compression descriptor. A fixed 32-byte prefix naming the
    compressor, coder, version, options and chunk size, followed by one
    6-byte item per compressed field group, in the order the point
    compressor consumes them.
 */
module Laz {
  import opened Bytes
  import opened Results
  import opened Layout

  /** `laz_vlr::laz_item` */
  datatype LazItem = LazItem(itemType: uint16, size: uint16, version: uint16)

  datatype LazVlr = LazVlr(
    compressor: uint16,
    coder: uint16,
    verMajor: uint8,
    verMinor: uint8,
    revision: uint16,
    options: uint32,
    chunkSize: uint32,
    numPoints: uint64,   // legacy word: neither a point count nor derived from anything
    numBytes: uint64,    // legacy word: neither a byte count nor derived from anything
    items: seq<LazItem>
  )

  /** compressor, coder, ver_major, ver_minor, revision, options,
      chunk_size, num_points, num_bytes */
  const PrefixSlots: seq<Slot> :=
    [Word(2), Word(2), Word(1), Word(1), Word(2), Word(4), Word(4), Word(8), Word(8)]

  /** type, size, version */
  const ItemSlots: seq<Slot> := [Word(2), Word(2), Word(2)]

  /** Registry pair of the LASzip record (user_id "laszip encoded"). */
  const UserId: seq<uint8> :=
    [0x6c, 0x61, 0x73, 0x7a, 0x69, 0x70, 0x20, 0x65, 0x6e, 0x63, 0x6f, 0x64, 0x65, 0x64]
  const RecordId: uint16 := 22204

  function PrefixFields(v: LazVlr): (vs: seq<Value>)
    ensures Conforms(PrefixSlots, vs)
  {
    Pow256Widths();
    [Num(v.compressor), Num(v.coder), Num(v.verMajor), Num(v.verMinor), Num(v.revision),
     Num(v.options), Num(v.chunkSize), Num(v.numPoints), Num(v.numBytes)]
  }

  function PrefixFromFields(vs: seq<Value>, items: seq<LazItem>): (v: LazVlr)
    requires Conforms(PrefixSlots, vs)
    ensures PrefixFields(v) == vs && v.items == items
  {
    Pow256Widths();
    assert Fits(PrefixSlots[0], vs[0]) && Fits(PrefixSlots[1], vs[1]) && Fits(PrefixSlots[2], vs[2]);
    assert Fits(PrefixSlots[3], vs[3]) && Fits(PrefixSlots[4], vs[4]) && Fits(PrefixSlots[5], vs[5]);
    assert Fits(PrefixSlots[6], vs[6]) && Fits(PrefixSlots[7], vs[7]) && Fits(PrefixSlots[8], vs[8]);
    LazVlr(vs[0].n, vs[1].n, vs[2].n, vs[3].n, vs[4].n, vs[5].n, vs[6].n, vs[7].n, vs[8].n, items)
  }

  function ItemFields(it: LazItem): (vs: seq<Value>)
    ensures Conforms(ItemSlots, vs)
  {
    Pow256Widths();
    [Num(it.itemType), Num(it.size), Num(it.version)]
  }

  function ItemFromFields(vs: seq<Value>): (it: LazItem)
    requires Conforms(ItemSlots, vs)
    ensures ItemFields(it) == vs
  {
    Pow256Widths();
    assert Fits(ItemSlots[0], vs[0]) && Fits(ItemSlots[1], vs[1]) && Fits(ItemSlots[2], vs[2]);
    LazItem(vs[0].n, vs[1].n, vs[2].n)
  }

  function ItemRows(items: seq<LazItem>): (rows: seq<seq<Value>>)
    ensures |rows| == |items| && AllConform(ItemSlots, rows)
    ensures forall i :: 0 <= i < |items| ==> rows[i] == ItemFields(items[i])
  {
    seq(|items|, i requires 0 <= i < |items| => ItemFields(items[i]))
  }

  function ItemsFromRows(rows: seq<seq<Value>>): (items: seq<LazItem>)
    requires AllConform(ItemSlots, rows)
    ensures |items| == |rows|
    ensures ItemRows(items) == rows
  {
    seq(|rows|, i requires 0 <= i < |rows| => ItemFromFields(rows[i]))
  }

  /** The prefix takes 32 bytes and the item 6, both moved verbatim. */
  lemma Widths()
    ensures Width(PrefixSlots) == 32 && Width(ItemSlots) == 6
    ensures Verbatim(PrefixSlots) && Verbatim(ItemSlots)
  {
    PrefixShape();
  }

  lemma PrefixShape()
    ensures Width(PrefixSlots) == 32 && Verbatim(PrefixSlots)
  {
  }

  /** A payload of `32 + 6 k` bytes holds exactly `k` items. */
  lemma ItemCount(len: nat, k: nat)
    requires len == 32 + 6 * k
    ensures len >= 32 && (len - 32) % 6 == 0 && (len - 32) / 6 == k
  {
  }

  lemma ItemCountExact(len: nat)
    requires len >= 32 && (len - 32) % 6 == 0
    ensures len == 32 + 6 * ((len - 32) / 6)
  {
  }

  /** `laz_vlr::size()`: payload bytes for this descriptor. */
  function Size(v: LazVlr): nat
  {
    32 + 6 * |v.items|
  }

  /** `laz_vlr::data()`: the prefix, then the items in order. */
  function Encode(v: LazVlr): (r: seq<uint8>)
    ensures |r| == 32 + 6 * |v.items| == Size(v)
  {
    var rows := ItemRows(v.items);
    Widths();
    StrideIsProduct(|rows|, 6);
    EncodeRecord(PrefixSlots, PrefixFields(v)) + EncodeRows(ItemSlots, rows)
  }

  /** `laz_vlr::fill()`: the descriptor held in a payload of `|b|` bytes.
      The item count is not stored; it is what the payload length leaves
      after the prefix. */
  function Decode(b: seq<uint8>): (r: Result<LazVlr>)
    ensures r.Ok? <==> |b| >= 32 && (|b| - 32) % 6 == 0
    ensures |b| < 32 ==> r == Err(TruncatedInput)
    ensures |b| >= 32 && r.Err? ==> r.error == MisalignedPayload
    ensures r.Ok? ==> |r.value.items| == (|b| - 32) / 6 && Size(r.value) == |b|
  {
    if |b| < 32 then Err(TruncatedInput)
    else if (|b| - 32) % 6 != 0 then Err(MisalignedPayload)
    else
      var n := (|b| - 32) / 6;
      ItemCountExact(|b|);
      Widths();
      StrideIsProduct(n, 6);
      var items := ItemsFromRows(DecodeRows(ItemSlots, b[32..], n));
      Ok(PrefixFromFields(DecodeRecord(PrefixSlots, b[..32]), items))
  }

  /** The prefix, then the item rows. */
  lemma EncodeParts(v: LazVlr)
    ensures Encode(v)[..32] == EncodeRecord(PrefixSlots, PrefixFields(v))
    ensures Encode(v)[32..] == EncodeRows(ItemSlots, ItemRows(v.items))
  {
    Widths();
  }

  /** Item `i` occupies the six bytes from `32 + 6 i` on. */
  lemma ItemAt(v: LazVlr, i: nat)
    requires i < |v.items|
    ensures 32 + 6 * i + 6 <= |Encode(v)|
    ensures Encode(v)[32 + 6 * i..32 + 6 * i + 6]
         == LittleEndian(v.items[i].itemType, 2) + (LittleEndian(v.items[i].size, 2)
          + LittleEndian(v.items[i].version, 2))
  {
    EncodeParts(v);
    ItemRowBytes(v.items, i);
    SliceOfSuffix(Encode(v), 32, 6 * i, 6 * i + 6, 32 + 6 * i, 32 + 6 * i + 6);
  }

  /** Within the item rows, item `i` occupies the six bytes from `6 i` on. */
  lemma ItemRowBytes(items: seq<LazItem>, i: nat)
    requires i < |items|
    ensures 6 * i + 6 <= |EncodeRows(ItemSlots, ItemRows(items))|
    ensures EncodeRows(ItemSlots, ItemRows(items))[6 * i..6 * i + 6]
         == LittleEndian(items[i].itemType, 2) + (LittleEndian(items[i].size, 2)
          + LittleEndian(items[i].version, 2))
  {
    var rows := ItemRows(items);
    Widths();
    StrideIsProduct(i, 6);
    RowAtProduct(ItemSlots, rows, i, 6);
    ItemBytes(items[i]);
  }

  /** The six bytes of one item: type, size, version. */
  lemma ItemBytes(it: LazItem)
    ensures EncodeRecord(ItemSlots, ItemFields(it))
         == LittleEndian(it.itemType, 2) + (LittleEndian(it.size, 2) + LittleEndian(it.version, 2))
  {
    Pow256Widths();
    EncodeRecord3(Word(2), Word(2), Word(2), Num(it.itemType), Num(it.size), Num(it.version));
  }

  /** The first seven prefix fields fill bytes 0..16 and the two legacy
      words bytes 16..32. */
  lemma PrefixParts(v: LazVlr)
    ensures |EncodeRecord(PrefixSlots[..7], PrefixFields(v)[..7])| == 16
    ensures EncodeRecord(PrefixSlots, PrefixFields(v))
         == EncodeRecord(PrefixSlots[..7], PrefixFields(v)[..7])
          + (LittleEndian(v.numPoints, 8) + LittleEndian(v.numBytes, 8))
  {
    var s, f := PrefixSlots, PrefixFields(v);
    Pow256Widths();
    EncodeRecordSplit(s, f, 7);
    PrefixHeadWidth();
    PrefixTail(v);
    EncodeRecord2(Word(8), Word(8), Num(v.numPoints), Num(v.numBytes));
  }

  lemma PrefixHeadWidth()
    ensures Width(PrefixSlots[..7]) == 16
  {
    var head: seq<Slot> := [Word(2), Word(2), Word(1), Word(1), Word(2), Word(4), Word(4)];
    assert PrefixSlots[..7] == head;
    assert Width(head) == 16;
  }

  lemma PrefixHead(v: LazVlr)
    ensures PrefixFields(v)[..7]
         == [Num(v.compressor), Num(v.coder), Num(v.verMajor), Num(v.verMinor), Num(v.revision),
             Num(v.options), Num(v.chunkSize)]
  {
  }

  lemma PrefixTail(v: LazVlr)
    ensures PrefixSlots[7..] == [Word(8), Word(8)]
    ensures PrefixFields(v)[7..] == [Num(v.numPoints), Num(v.numBytes)]
  {
  }

  /** Bytes 0..16 of the prefix: compressor, coder, ver_major, ver_minor
      in bytes 0..6, then revision, options and chunk_size. */
  lemma PrefixLayout(v: LazVlr)
    ensures Encode(v)[..6]
         == LittleEndian(v.compressor, 2) + (LittleEndian(v.coder, 2)
          + (LittleEndian(v.verMajor, 1) + LittleEndian(v.verMinor, 1)))
    ensures Encode(v)[6..16]
         == LittleEndian(v.revision, 2) + (LittleEndian(v.options, 4) + LittleEndian(v.chunkSize, 4))
  {
    var b := Encode(v);
    EncodeParts(v);
    PrefixParts(v);
    PrefixHeadBytes(v);
    TakeOfTake(b, 32, 16);
    TakeOfTake(b, 16, 6);
    DropOfTake(b, 16, 6);
  }

  lemma PrefixHeadBytes(v: LazVlr)
    ensures |EncodeRecord(PrefixSlots[..7], PrefixFields(v)[..7])| >= 6
    ensures EncodeRecord(PrefixSlots[..7], PrefixFields(v)[..7])[..6]
         == LittleEndian(v.compressor, 2) + (LittleEndian(v.coder, 2)
          + (LittleEndian(v.verMajor, 1) + LittleEndian(v.verMinor, 1)))
    ensures EncodeRecord(PrefixSlots[..7], PrefixFields(v)[..7])[6..]
         == LittleEndian(v.revision, 2) + (LittleEndian(v.options, 4) + LittleEndian(v.chunkSize, 4))
  {
    var s, f := PrefixSlots[..7], PrefixFields(v)[..7];
    Pow256Widths();
    EncodeRecordSplit(PrefixSlots, PrefixFields(v), 7);
    EncodeRecordSplit(s, f, 4);
    HeadSlots();
    HeadFields(v);
    EncodeRecord4(Word(2), Word(2), Word(1), Word(1),
                  Num(v.compressor), Num(v.coder), Num(v.verMajor), Num(v.verMinor));
    EncodeRecord3(Word(2), Word(4), Word(4), Num(v.revision), Num(v.options), Num(v.chunkSize));
    AppendParts(EncodeRecord(s[..4], f[..4]), EncodeRecord(s[4..], f[4..]));
  }

  lemma HeadSlots()
    ensures PrefixSlots[..7][..4] == [Word(2), Word(2), Word(1), Word(1)]
    ensures PrefixSlots[..7][4..] == [Word(2), Word(4), Word(4)]
  {
  }

  lemma HeadFields(v: LazVlr)
    ensures PrefixFields(v)[..7][..4] == [Num(v.compressor), Num(v.coder), Num(v.verMajor), Num(v.verMinor)]
    ensures PrefixFields(v)[..7][4..] == [Num(v.revision), Num(v.options), Num(v.chunkSize)]
  {
    PrefixHead(v);
  }

  /** A LASzip record that stores a 16-bit item count after num_bytes
      (34 + 6 n bytes) is refused: the prefix read here is 32 bytes, so
      the rest is never whole items. */
  lemma StoredCountRefused(b: seq<uint8>, n: nat)
    requires |b| == 34 + 6 * n
    ensures Decode(b) == Err(MisalignedPayload)
  {
    assert (|b| - 32) % 6 == 2;
  }

  /** The two legacy words sit at bytes 16..32, written as given. */
  lemma LegacyWordsAt(v: LazVlr)
    ensures Encode(v)[16..32] == LittleEndian(v.numPoints, 8) + LittleEndian(v.numBytes, 8)
  {
    EncodeParts(v);
    PrefixParts(v);
    assert Encode(v)[16..32] == Encode(v)[..32][16..];
  }

  /** Item rows read back as the items they were made from. */
  lemma ItemsRoundTrip(items: seq<LazItem>)
    ensures ItemsFromRows(ItemRows(items)) == items
  {
    var r := ItemsFromRows(ItemRows(items));
    forall i | 0 <= i < |items| ensures r[i] == items[i] {
      assert r[i] == ItemFromFields(ItemFields(items[i]));
    }
  }

  lemma PrefixRoundTrip(v: LazVlr)
    ensures PrefixFromFields(PrefixFields(v), v.items) == v
  {
  }

  /** A payload of `32 + 6 k` bytes decodes to its prefix and `k` rows. */
  lemma DecodeUnfold(b: seq<uint8>, k: nat)
    requires |b| == 32 + 6 * k
    ensures Width(PrefixSlots) == 32 && |b[32..]| == Stride(k, Width(ItemSlots))
    ensures Decode(b)
         == Ok(PrefixFromFields(DecodeRecord(PrefixSlots, b[..32]),
                                ItemsFromRows(DecodeRows(ItemSlots, b[32..], k))))
  {
    ItemCount(|b|, k);
    Widths();
    StrideIsProduct(k, 6);
  }

  /** The first 32 bytes of an encoding read back as the prefix fields. */
  lemma PrefixDecodes(v: LazVlr)
    ensures Width(PrefixSlots) == 32 && |Encode(v)| >= 32
    ensures DecodeRecord(PrefixSlots, Encode(v)[..32]) == PrefixFields(v)
  {
    EncodeParts(v);
    Widths();
    RecordRoundTrip(PrefixSlots, PrefixFields(v));
  }

  /** The bytes after the prefix read back as the item rows. */
  lemma RowsDecode(v: LazVlr)
    ensures |Encode(v)| >= 32 && |Encode(v)[32..]| == Stride(|v.items|, Width(ItemSlots))
    ensures DecodeRows(ItemSlots, Encode(v)[32..], |v.items|) == ItemRows(v.items)
  {
    EncodeParts(v);
    Widths();
    StrideIsProduct(|v.items|, 6);
    RowsRoundTrip(ItemSlots, ItemRows(v.items));
  }

  /** Every descriptor reads back as written: all of its fields, and its
      items in their original order and number. */
  lemma RoundTrip(v: LazVlr)
    ensures Decode(Encode(v)) == Ok(v)
  {
    var b := Encode(v);
    DecodeUnfold(b, |v.items|);
    PrefixDecodes(v);
    RowsDecode(v);
    ItemsRoundTrip(v.items);
    PrefixRoundTrip(v);
  }

  /** Re-encoding a decoded payload gives back the same bytes, so the
      legacy `num_points`/`num_bytes` words survive untouched. */
  lemma BytesRoundTrip(b: seq<uint8>)
    requires Decode(b).Ok?
    ensures Encode(Decode(b).value) == b
  {
    var v := Decode(b).value;
    var n := (|b| - 32) / 6;
    Widths();
    ItemCountExact(|b|);
    StrideIsProduct(n, 6);
    RecordBytesRoundTrip(PrefixSlots, b[..32]);
    RowsBytesRoundTrip(ItemSlots, b[32..], n);
    EncodeParts(v);
    TakeDrop(b, 32);
  }

  /** Nothing about the layout is derived from the legacy words: changing
      them changes neither the size nor any byte outside bytes 16..32. */
  lemma LegacyWordsOpaque(v: LazVlr, numPoints: uint64, numBytes: uint64)
    ensures var w := v.(numPoints := numPoints, numBytes := numBytes);
      Size(w) == Size(v) && Encode(w)[..16] == Encode(v)[..16] && Encode(w)[32..] == Encode(v)[32..]
  {
    var w := v.(numPoints := numPoints, numBytes := numBytes);
    EncodeParts(v);
    EncodeParts(w);
    PrefixParts(v);
    PrefixParts(w);
    PrefixHead(v);
    PrefixHead(w);
    TakeOfTake(Encode(v), 32, 16);
    TakeOfTake(Encode(w), 32, 16);
  }
}
