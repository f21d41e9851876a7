/** The COPC hierarchy: 32-byte entries, each addressing one octree node by
    its voxel key and saying where that node's points, or the page holding
    its subtree, can be found; and the page, a bare run of such entries
    whose count is its byte size over 32.
 */
module CopcHierarchy {
  import opened Bytes
  import opened Results
  import opened Layout

  /** `copc_hierarchy_voxel_key`: octree level and cell coordinates. */
  datatype VoxelKey = VoxelKey(level: uint32, x: uint32, y: uint32, z: uint32)

  /** `copc_hierarchy_entry` */
  datatype Entry = Entry(
    key: VoxelKey,
    offset: uint64,      // absolute file offset of a point chunk or of a child page
    byteSize: int32,     // byte size of that chunk or page
    pointCount: int32    // > 0: points in the chunk; -1: see child page; 0: no points here
  )

  /** `copc_hierarchy_page`: the entries, in file order. */
  datatype Page = Page(entries: seq<Entry>)


  /** level, x, y, z, offset, byteSize, pointCount */
  const EntrySlots: seq<Slot> := [Word(4), Word(4), Word(4), Word(4), Word(8), Word(4), Word(4)]

  lemma EntryWidth()
    ensures Width(EntrySlots) == 32
  {
  }

  function EntryFields(e: Entry): (vs: seq<Value>)
    ensures Conforms(EntrySlots, vs)
  {
    Pow256Widths();
    [Num(e.key.level), Num(e.key.x), Num(e.key.y), Num(e.key.z), Num(e.offset),
     Num(Int32Bits(e.byteSize)), Num(Int32Bits(e.pointCount))]
  }

  function EntryFromFields(vs: seq<Value>): (e: Entry)
    requires Conforms(EntrySlots, vs)
    ensures EntryFields(e) == vs
  {
    Pow256Widths();
    assert Fits(EntrySlots[0], vs[0]) && Fits(EntrySlots[1], vs[1]) && Fits(EntrySlots[2], vs[2]);
    assert Fits(EntrySlots[3], vs[3]) && Fits(EntrySlots[4], vs[4]) && Fits(EntrySlots[5], vs[5]);
    assert Fits(EntrySlots[6], vs[6]);
    Int32BitsRoundTrip(0, vs[5].n);
    Int32BitsRoundTrip(0, vs[6].n);
    Entry(VoxelKey(vs[0].n, vs[1].n, vs[2].n, vs[3].n), vs[4].n,
          Int32FromBits(vs[5].n), Int32FromBits(vs[6].n))
  }

  lemma EntryFieldsInverse(e: Entry)
    ensures EntryFromFields(EntryFields(e)) == e
  {
    Int32BitsRoundTrip(e.byteSize, 0);
    Int32BitsRoundTrip(e.pointCount, 0);
  }

  /** The 32 bytes of one entry. */
  function EncodeEntry(e: Entry): (r: seq<uint8>)
    ensures |r| == 32
  {
    EntryWidth();
    EncodeRecord(EntrySlots, EntryFields(e))
  }

  /** Where each field of an entry sits: the key's four words in bytes
      0..16, then the offset, the byte size and the point count, the two
      signed words stored in two's complement. */
  lemma EntryLayout(e: Entry)
    ensures EncodeEntry(e)[..16]
         == LittleEndian(e.key.level, 4) + (LittleEndian(e.key.x, 4)
          + (LittleEndian(e.key.y, 4) + LittleEndian(e.key.z, 4)))
    ensures EncodeEntry(e)[16..]
         == LittleEndian(e.offset, 8) + (LittleEndian(Int32Bits(e.byteSize), 4)
          + LittleEndian(Int32Bits(e.pointCount), 4))
  {
    var s, v := EntrySlots, EntryFields(e);
    Pow256Widths();
    EncodeRecordSplit(s, v, 4);
    assert s[..4] == [Word(4), Word(4), Word(4), Word(4)];
    assert v[..4] == [Num(e.key.level), Num(e.key.x), Num(e.key.y), Num(e.key.z)];
    EncodeRecord4(Word(4), Word(4), Word(4), Word(4),
                  Num(e.key.level), Num(e.key.x), Num(e.key.y), Num(e.key.z));
    assert s[4..] == [Word(8), Word(4), Word(4)];
    assert v[4..] == [Num(e.offset), Num(Int32Bits(e.byteSize)), Num(Int32Bits(e.pointCount))];
    EncodeRecord3(Word(8), Word(4), Word(4),
                  Num(e.offset), Num(Int32Bits(e.byteSize)), Num(Int32Bits(e.pointCount)));
  }

  function EntryRows(entries: seq<Entry>): (rows: seq<seq<Value>>)
    ensures |rows| == |entries| && AllConform(EntrySlots, rows)
    ensures forall i :: 0 <= i < |entries| ==> rows[i] == EntryFields(entries[i])
  {
    seq(|entries|, i requires 0 <= i < |entries| => EntryFields(entries[i]))
  }

  function EntriesFromRows(rows: seq<seq<Value>>): (entries: seq<Entry>)
    requires AllConform(EntrySlots, rows)
    ensures |entries| == |rows| && EntryRows(entries) == rows
  {
    seq(|rows|, i requires 0 <= i < |rows| => EntryFromFields(rows[i]))
  }

  /** `copc_hierarchy_page::size()` */
  function Size(p: Page): nat
  {
    32 * |p.entries|
  }

  /** `copc_hierarchy_page::data()`: the entries back to back. */
  function EncodePage(p: Page): (r: seq<uint8>)
    ensures |r| == 32 * |p.entries| == Size(p)
  {
    EntryWidth();
    StrideIsProduct(|p.entries|, 32);
    EncodeRows(EntrySlots, EntryRows(p.entries))
  }

  lemma WholeEntries(n: nat)
    ensures (32 * n) % 32 == 0 && (32 * n) / 32 == n
  {
  }

  /** `copc_hierarchy_page::fill()`: `|b| / 32` entries; a length that is
      not a whole number of entries is refused. No entry is interpreted. */
  function DecodePage(b: seq<uint8>): (r: Result<Page>)
    ensures r.Ok? <==> |b| % 32 == 0
    ensures r.Err? ==> r.error == MisalignedPayload
    ensures r.Ok? ==> |r.value.entries| == |b| / 32
  {
    if |b| % 32 != 0 then Err(MisalignedPayload)
    else
      var n := |b| / 32;
      EntryWidth();
      StrideIsProduct(n, 32);
      Ok(Page(EntriesFromRows(DecodeRows(EntrySlots, b, n))))
  }

  /** Entry `i` of a page occupies bytes `32 i` up to `32 (i + 1)`. */
  lemma EntryAt(p: Page, i: nat)
    requires i < |p.entries|
    ensures 32 * i + 32 <= |EncodePage(p)|
    ensures EncodePage(p)[32 * i..32 * i + 32] == EncodeEntry(p.entries[i])
  {
    EntryWidth();
    StrideIsProduct(i, 32);
    RowAtProduct(EntrySlots, EntryRows(p.entries), i, 32);
  }

  /** A page of n entries reads back as the same n entries in order. */
  lemma PageRoundTrip(p: Page)
    ensures DecodePage(EncodePage(p)) == Ok(p)
  {
    var b := EncodePage(p);
    var n := |p.entries|;
    var rows := EntryRows(p.entries);
    WholeEntries(n);
    EntryWidth();
    StrideIsProduct(n, 32);
    RowsRoundTrip(EntrySlots, rows);
    assert DecodeRows(EntrySlots, b, n) == rows;
    assert EntriesFromRows(rows) == p.entries by {
      forall i | 0 <= i < n
        ensures EntriesFromRows(rows)[i] == p.entries[i]
      {
        EntryFieldsInverse(p.entries[i]);
      }
    }
  }

  /** Re-encoding a decoded page gives back its bytes. */
  lemma PageBytesRoundTrip(b: seq<uint8>)
    requires DecodePage(b).Ok?
    ensures EncodePage(DecodePage(b).value) == b
  {
    var n := |b| / 32;
    EntryWidth();
    StrideIsProduct(n, 32);
    var rows := DecodeRows(EntrySlots, b, n);
    RowsBytesRoundTrip(EntrySlots, b, n);
    assert EntryRows(DecodePage(b).value.entries) == rows;
  }

  /** What an entry says about its node. */
  datatype Target =
    | PointChunk(offset: uint64, byteSize: int32, pointCount: int32)  // pointCount > 0
    | ChildPage(offset: uint64, byteSize: int32)                      // pointCount == -1, non-zero location
    | NoPoints                                                        // pointCount == 0
    | Inconsistent                                                    // anything else

  /** The rule the entry's fields obey: a point count of -1 or more, a
      zero location when there are no points, and a non-zero one for a
      child page. */
  predicate WellFormed(e: Entry)
  {
    && e.pointCount >= -1
    && (e.pointCount == 0 ==> e.offset == 0 && e.byteSize == 0)
    && (e.pointCount == -1 ==> e.offset != 0 && e.byteSize != 0)
  }

  /** Reading the tri-state point count. */
  function Interpret(e: Entry): (t: Target)
    ensures t.PointChunk? <==> e.pointCount > 0
    ensures t.ChildPage? <==> e.pointCount == -1 && e.offset != 0 && e.byteSize != 0
    ensures t.NoPoints? <==> e.pointCount == 0 && e.offset == 0 && e.byteSize == 0
    ensures t.Inconsistent? <==> !WellFormed(e)
    ensures t.PointChunk? ==> t == PointChunk(e.offset, e.byteSize, e.pointCount)
    ensures t.ChildPage? ==> t == ChildPage(e.offset, e.byteSize)
  {
    if e.pointCount > 0 then PointChunk(e.offset, e.byteSize, e.pointCount)
    else if e.pointCount == -1 && e.offset != 0 && e.byteSize != 0 then ChildPage(e.offset, e.byteSize)
    else if e.pointCount == 0 && e.offset == 0 && e.byteSize == 0 then NoPoints
    else Inconsistent
  }

  /** A target an entry can say: a chunk holds at least one point, and a
      child page has a non-zero location. */
  predicate Sayable(t: Target)
  {
    match t
    case PointChunk(_, _, pointCount) => pointCount > 0
    case ChildPage(offset, byteSize) => offset != 0 && byteSize != 0
    case NoPoints => true
    case Inconsistent => false
  }

  /** The entry for `key` saying `t`. */
  function EntryFor(key: VoxelKey, t: Target): (e: Entry)
    requires Sayable(t)
    ensures e.key == key && WellFormed(e)
  {
    match t
    case PointChunk(offset, byteSize, pointCount) => Entry(key, offset, byteSize, pointCount)
    case ChildPage(offset, byteSize) => Entry(key, offset, byteSize, -1)
    case NoPoints => Entry(key, 0, 0, 0)
  }

  /** Every well-formed entry is the entry for what it says, and what an
      entry built for a target says is that target: the well-formed entries
      of a key and the targets are in one-to-one correspondence. */
  lemma InterpretEntryFor(key: VoxelKey, t: Target, e: Entry)
    requires Sayable(t)
    ensures Interpret(EntryFor(key, t)) == t
    ensures WellFormed(e) ==> EntryFor(e.key, Interpret(e)) == e
  {
  }

  /** A page keeps what its entries say across a write and a read. */
  lemma PageKeepsTargets(p: Page, i: nat)
    requires i < |p.entries|
    ensures var q := DecodePage(EncodePage(p)).value;
      i < |q.entries| && Interpret(q.entries[i]) == Interpret(p.entries[i])
  {
    PageRoundTrip(p);
  }
}
