/** `copc_info_vlr`: the COPC info record, a fixed 160-byte summary of the
    octree root: its cube, the spacing hint, where the root hierarchy page
    lives, the GPS time range, and eleven reserved words kept for later
    revisions of the format.
 */
module CopcInfo {
  import opened Bytes
  import opened Results
  import opened Layout

  type Reserved = s: seq<uint64> | |s| == 11 witness [0, 0, 0, 0, 0, 0, 0, 0, 0, 0, 0]

  datatype CopcInfoVlr = CopcInfoVlr(
    centerX: Float64Bits,
    centerY: Float64Bits,
    centerZ: Float64Bits,
    halfsize: Float64Bits,
    spacing: Float64Bits,
    rootHierOffset: uint64,
    rootHierSize: uint64,
    gpstimeMinimum: Float64Bits,
    gpstimeMaximum: Float64Bits,
    reserved: Reserved
  )

  const ReservedCount: nat := 11

  /** Nine named 8-byte fields, then the eleven reserved words. */
  const InfoSlots: seq<Slot> := Words(20, 8)

  /** Registry pair of the COPC info record (user_id "copc"). */
  const UserId: seq<uint8> := [0x63, 0x6f, 0x70, 0x63]
  const RecordId: uint16 := 1

  lemma InfoWidth()
    ensures Width(InfoSlots) == 160
  {
    WordsWidth(20, 8);
  }

  /** `copc_info_vlr()` followed by assignments to the named members: the
      reserved words keep their zero initialiser. */
  function New(centerX: Float64Bits, centerY: Float64Bits, centerZ: Float64Bits,
               halfsize: Float64Bits, spacing: Float64Bits,
               rootHierOffset: uint64, rootHierSize: uint64,
               gpstimeMinimum: Float64Bits, gpstimeMaximum: Float64Bits): (v: CopcInfoVlr)
    ensures forall k :: 0 <= k < ReservedCount ==> v.reserved[k] == 0
    ensures v.centerX == centerX && v.centerY == centerY && v.centerZ == centerZ
    ensures v.halfsize == halfsize && v.spacing == spacing
    ensures v.rootHierOffset == rootHierOffset && v.rootHierSize == rootHierSize
    ensures v.gpstimeMinimum == gpstimeMinimum && v.gpstimeMaximum == gpstimeMaximum
  {
    CopcInfoVlr(centerX, centerY, centerZ, halfsize, spacing, rootHierOffset, rootHierSize,
                gpstimeMinimum, gpstimeMaximum, seq(11, _ => 0))
  }

  /** Word `k` of the record in file order. */
  function WordAt(v: CopcInfoVlr, k: nat): uint64
    requires k < 20
  {
    if k == 0 then v.centerX
    else if k == 1 then v.centerY
    else if k == 2 then v.centerZ
    else if k == 3 then v.halfsize
    else if k == 4 then v.spacing
    else if k == 5 then v.rootHierOffset
    else if k == 6 then v.rootHierSize
    else if k == 7 then v.gpstimeMinimum
    else if k == 8 then v.gpstimeMaximum
    else v.reserved[k - 9]
  }

  lemma ReservedWord(v: CopcInfoVlr, k: nat)
    requires 9 <= k < 20
    ensures WordAt(v, k) == v.reserved[k - 9]
  {
  }

  function Fields(v: CopcInfoVlr): (vs: seq<Value>)
    ensures Conforms(InfoSlots, vs)
    ensures |vs| == 20 && forall k :: 0 <= k < 20 ==> vs[k] == Num(WordAt(v, k))
  {
    Pow256Widths();
    seq(20, k requires 0 <= k < 20 => Num(WordAt(v, k)))
  }

  function FromFields(vs: seq<Value>): (v: CopcInfoVlr)
    requires Conforms(InfoSlots, vs)
    ensures Fields(v) == vs
  {
    Pow256Widths();
    assert forall k :: 0 <= k < 20 ==> Fits(InfoSlots[k], vs[k]);
    assert forall k :: 0 <= k < 20 ==> vs[k].Num? && vs[k].n < 0x1_0000_0000_0000_0000;
    var reserved := seq(ReservedCount, k requires 0 <= k < ReservedCount => vs[9 + k].n);
    var v := CopcInfoVlr(vs[0].n, vs[1].n, vs[2].n, vs[3].n, vs[4].n, vs[5].n, vs[6].n, vs[7].n,
                         vs[8].n, reserved);
    assert forall k :: 0 <= k < 20 ==> WordAt(v, k) == vs[k].n;
    v
  }

  /** `copc_info_vlr::size()` */
  function Size(v: CopcInfoVlr): nat
  {
    160
  }

  /** `copc_info_vlr::data()`: the twenty words in declaration order. */
  function Encode(v: CopcInfoVlr): (r: seq<uint8>)
    ensures |r| == 160 == Size(v)
  {
    InfoWidth();
    EncodeRecord(InfoSlots, Fields(v))
  }

  /** `copc_info_vlr::fill()`: the record in the first 160 bytes of `b`;
      a shorter buffer holds no record. */
  function Decode(b: seq<uint8>): (r: Result<CopcInfoVlr>)
    ensures r.Ok? <==> |b| >= 160
    ensures r.Err? ==> r.error == TruncatedInput
    ensures r.Ok? ==> Size(r.value) <= |b|
  {
    InfoWidth();
    if |b| < 160 then Err(TruncatedInput)
    else Ok(FromFields(DecodeRecord(InfoSlots, b[..160])))
  }

  /** Only the first 160 bytes are read: whatever follows them does not
      change the record. */
  lemma DecodePrefix(b: seq<uint8>)
    requires |b| >= 160
    ensures Decode(b) == Decode(b[..160])
  {
    assert b[..160][..160] == b[..160];
  }

  lemma FromFieldsInverse(v: CopcInfoVlr)
    ensures FromFields(Fields(v)) == v
  {
    var w := FromFields(Fields(v));
    assert w.reserved == v.reserved by {
      forall k | 0 <= k < ReservedCount ensures w.reserved[k] == v.reserved[k] {
        assert Fields(v)[9 + k] == Num(WordAt(v, 9 + k));
      }
    }
  }

  /** Distinct records have distinct field lists. */
  lemma FieldsInjective(v: CopcInfoVlr, w: CopcInfoVlr)
    requires Fields(v) == Fields(w)
    ensures v == w
  {
    FromFieldsInverse(v);
    FromFieldsInverse(w);
  }

  /** Every record reads back as written, reserved words included. */
  lemma RoundTrip(v: CopcInfoVlr)
    ensures Decode(Encode(v)) == Ok(v)
  {
    InfoWidth();
    var b := Encode(v);
    assert b[..160] == b;
    RecordRoundTrip(InfoSlots, Fields(v));
    FieldsInjective(FromFields(Fields(v)), v);
  }

  /** A 160-byte buffer decoded and re-encoded is the same buffer, byte for
      byte. */
  lemma BytesRoundTrip(b: seq<uint8>)
    requires |b| == 160
    ensures Encode(Decode(b).value) == b
  {
    InfoWidth();
    assert b[..160] == b;
    RecordBytesRoundTrip(InfoSlots, b);
  }

  /** Word `k` of the record fills the 8 bytes at `off` = 8 k,
      little-endian. */
  lemma WordOffset(v: CopcInfoVlr, k: nat, off: nat, x: uint64)
    requires k < 20 && off == 8 * k && x == WordAt(v, k)
    ensures Encode(v)[off..off + 8] == LittleEndian(x, 8)
  {
    assert Fields(v)[k] == Num(x);
    assert Encode(v) == EncodeRecord(Words(20, 8), Fields(v));
    WordAtProduct(20, 8, Fields(v), k);
  }

  /** The named members sit at bytes 0..72 in declaration order, 8 bytes
      each, and reserved word `k` at 72 + 8 k. */
  lemma InfoLayout(v: CopcInfoVlr)
    ensures Encode(v)[0..8] == LittleEndian(v.centerX, 8)
    ensures Encode(v)[8..16] == LittleEndian(v.centerY, 8)
    ensures Encode(v)[16..24] == LittleEndian(v.centerZ, 8)
    ensures Encode(v)[24..32] == LittleEndian(v.halfsize, 8)
    ensures Encode(v)[32..40] == LittleEndian(v.spacing, 8)
    ensures Encode(v)[40..48] == LittleEndian(v.rootHierOffset, 8)
    ensures Encode(v)[48..56] == LittleEndian(v.rootHierSize, 8)
    ensures Encode(v)[56..64] == LittleEndian(v.gpstimeMinimum, 8)
    ensures Encode(v)[64..72] == LittleEndian(v.gpstimeMaximum, 8)
    ensures forall k :: 0 <= k < ReservedCount ==>
              Encode(v)[72 + 8 * k..80 + 8 * k] == LittleEndian(v.reserved[k], 8)
  {
    CubeLayout(v);
    HierarchyLayout(v);
    ReservedLayout(v);
  }

  /** The octree cube and spacing: words 0 to 4. */
  lemma CubeLayout(v: CopcInfoVlr)
    ensures Encode(v)[0..8] == LittleEndian(v.centerX, 8)
    ensures Encode(v)[8..16] == LittleEndian(v.centerY, 8)
    ensures Encode(v)[16..24] == LittleEndian(v.centerZ, 8)
    ensures Encode(v)[24..32] == LittleEndian(v.halfsize, 8)
    ensures Encode(v)[32..40] == LittleEndian(v.spacing, 8)
  {
    WordOffset(v, 0, 0, v.centerX);
    WordOffset(v, 1, 8, v.centerY);
    WordOffset(v, 2, 16, v.centerZ);
    WordOffset(v, 3, 24, v.halfsize);
    WordOffset(v, 4, 32, v.spacing);
  }

  /** The root page location and the GPS time range: words 5 to 8. */
  lemma HierarchyLayout(v: CopcInfoVlr)
    ensures Encode(v)[40..48] == LittleEndian(v.rootHierOffset, 8)
    ensures Encode(v)[48..56] == LittleEndian(v.rootHierSize, 8)
    ensures Encode(v)[56..64] == LittleEndian(v.gpstimeMinimum, 8)
    ensures Encode(v)[64..72] == LittleEndian(v.gpstimeMaximum, 8)
  {
    WordOffset(v, 5, 40, v.rootHierOffset);
    WordOffset(v, 6, 48, v.rootHierSize);
    WordOffset(v, 7, 56, v.gpstimeMinimum);
    WordOffset(v, 8, 64, v.gpstimeMaximum);
  }

  lemma ReservedLayout(v: CopcInfoVlr)
    ensures forall k :: 0 <= k < ReservedCount ==>
              Encode(v)[72 + 8 * k..80 + 8 * k] == LittleEndian(v.reserved[k], 8)
  {
    forall k | 0 <= k < ReservedCount
      ensures Encode(v)[72 + 8 * k..80 + 8 * k] == LittleEndian(v.reserved[k], 8)
    {
      ReservedOffset(v, k);
    }
  }

  lemma ReservedOffset(v: CopcInfoVlr, k: nat)
    requires k < ReservedCount
    ensures Encode(v)[72 + 8 * k..80 + 8 * k] == LittleEndian(v.reserved[k], 8)
  {
    ReservedWord(v, 9 + k);
    WordOffset(v, 9 + k, 72 + 8 * k, v.reserved[k]);
  }

  /** The reserved words fill bytes 72..160. */
  lemma ReservedBytes(v: CopcInfoVlr)
    ensures Encode(v)[72..] == EncodeRecord(InfoSlots[9..], Fields(v)[9..])
  {
    var s := InfoSlots;
    EncodeRecordSplit(s, Fields(v), 9);
    WordsPrefix(20, 9, 8);
    WordsWidth(9, 8);
    AppendParts(EncodeRecord(s[..9], Fields(v)[..9]), EncodeRecord(s[9..], Fields(v)[9..]));
  }

  /** A caller that reads a record, changes only named fields and writes it
      back leaves the reserved bytes 72..160 exactly as they were read. */
  lemma ReservedBytesKept(b: seq<uint8>, w: CopcInfoVlr)
    requires |b| >= 160 && Decode(b).Ok?
    requires w.reserved == Decode(b).value.reserved
    ensures Encode(w)[72..] == b[72..160]
  {
    var v := Decode(b).value;
    InfoWidth();
    BytesRoundTrip(b[..160]);
    assert b[..160][..160] == b[..160];
    assert Decode(b[..160]) == Decode(b);
    forall k | 9 <= k < 20 ensures Fields(w)[k] == Fields(v)[k] {
      ReservedWord(w, k);
      ReservedWord(v, k);
    }
    assert Fields(w)[9..] == Fields(v)[9..];
    ReservedBytes(v);
    ReservedBytes(w);
    assert b[..160][72..] == b[72..160];
  }
}
