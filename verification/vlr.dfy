/** `vlr`: the payload contract. Every payload kind reports its size and
    projects the short and the extended header that announce it; a reader
    routes a header to the payload decoder owning its (user_id, record_id)
    pair. The four kinds are one sum type here.
 */
module Vlr {
  import opened Bytes
  import opened Results
  import Header
  import Laz
  import ExtraBytes
  import Wkt
  import CopcInfo

  datatype Payload =
    | LazPayload(laz: Laz.LazVlr)
    | ExtraBytesPayload(eb: ExtraBytes.EbVlr)
    | WktPayload(wkt: Wkt.WktVlr)
    | CopcInfoPayload(info: CopcInfo.CopcInfoVlr)

  /** Every payload kind except the extra-bytes one reads back whatever its
      fields hold; that one needs its text fields to fit. */
  predicate Valid(p: Payload)
  {
    p.ExtraBytesPayload? ==> ExtraBytes.Valid(p.eb)
  }

  /** `size()` */
  function Size(p: Payload): nat
  {
    match p
    case LazPayload(v) => Laz.Size(v)
    case ExtraBytesPayload(v) => ExtraBytes.Size(v)
    case WktPayload(v) => Wkt.Size(v)
    case CopcInfoPayload(v) => CopcInfo.Size(v)
  }

  /** `data()` */
  function Encode(p: Payload): (r: seq<uint8>)
    ensures |r| == Size(p)
  {
    match p
    case LazPayload(v) => Laz.Encode(v)
    case ExtraBytesPayload(v) => ExtraBytes.Encode(v)
    case WktPayload(v) => Wkt.Encode(v)
    case CopcInfoPayload(v) => CopcInfo.Encode(v)
  }

  function UserId(p: Payload): seq<uint8>
  {
    match p
    case LazPayload(_) => Laz.UserId
    case ExtraBytesPayload(_) => ExtraBytes.UserId
    case WktPayload(_) => Wkt.UserId
    case CopcInfoPayload(_) => CopcInfo.UserId
  }

  function RecordId(p: Payload): uint16
  {
    match p
    case LazPayload(_) => Laz.RecordId
    case ExtraBytesPayload(_) => ExtraBytes.RecordId
    case WktPayload(_) => Wkt.RecordId
    case CopcInfoPayload(_) => CopcInfo.RecordId
  }

  /** `header()`: the short header announcing `p`. Its 16-bit data_length
      is the size converted to `uint16_t`, that is, reduced modulo 2^16. */
  function VlrHeaderOf(p: Payload, description: seq<uint8>): (h: Header.VlrHeader)
    ensures h.userId == UserId(p) && h.recordId == RecordId(p)
    ensures h.reserved == 0 && h.description == description
    ensures h.dataLength == Size(p) % 0x1_0000
    ensures Size(p) < 0x1_0000 ==> h.dataLength == |Encode(p)|
  {
    var len := Size(p);
    ModBelow(len, 0x1_0000);
    Header.VlrHeader(0, UserId(p), RecordId(p), len % 0x1_0000, description)
  }

  /** `eheader()`: the extended header announcing `p`, whose 64-bit
      data_length holds the `uint64_t` size. */
  function EvlrHeaderOf(p: Payload, description: seq<uint8>): (h: Header.EvlrHeader)
    ensures h.userId == UserId(p) && h.recordId == RecordId(p)
    ensures h.reserved == 0 && h.description == description
    ensures h.dataLength == Size(p) % 0x1_0000_0000_0000_0000
    ensures Size(p) < 0x1_0000_0000_0000_0000 ==> h.dataLength == |Encode(p)|
  {
    var len := Size(p);
    ModBelow(len, 0x1_0000_0000_0000_0000);
    Header.EvlrHeader(0, UserId(p), RecordId(p), len % 0x1_0000_0000_0000_0000, description)
  }

  /** The (user_id, record_id) pair is owned by one of the payload kinds. */
  predicate Registered(userId: seq<uint8>, recordId: uint16)
  {
    || (recordId == Laz.RecordId && userId == Laz.UserId)
    || (recordId == ExtraBytes.RecordId && userId == ExtraBytes.UserId)
    || (recordId == Wkt.RecordId && userId == Wkt.UserId)
    || (recordId == CopcInfo.RecordId && userId == CopcInfo.UserId)
  }

  /** The reader's routing: the payload decoder owning the header's
      (user_id, record_id) pair, given the header's data_length bytes. */
  function Decode(userId: seq<uint8>, recordId: uint16, b: seq<uint8>): (r: Result<Payload>)
    ensures r == Err(UnknownRecord) <==> !Registered(userId, recordId)
    ensures recordId == Laz.RecordId && userId == Laz.UserId
         ==> r == (match Laz.Decode(b) case Ok(v) => Ok(LazPayload(v)) case Err(e) => Err(e))
    ensures recordId == ExtraBytes.RecordId && userId == ExtraBytes.UserId
         ==> r == (match ExtraBytes.Decode(b) case Ok(v) => Ok(ExtraBytesPayload(v)) case Err(e) => Err(e))
    ensures recordId == Wkt.RecordId && userId == Wkt.UserId
         ==> r == Ok(WktPayload(Wkt.Decode(b).value))
    ensures recordId == CopcInfo.RecordId && userId == CopcInfo.UserId
         ==> r == (match CopcInfo.Decode(b) case Ok(v) => Ok(CopcInfoPayload(v)) case Err(e) => Err(e))
    ensures r.Ok? ==> UserId(r.value) == userId && RecordId(r.value) == recordId
    ensures r.Ok? && !r.value.CopcInfoPayload? ==> Size(r.value) == |b|
    ensures r.Ok? && r.value.CopcInfoPayload? ==> Size(r.value) <= |b|
  {
    if recordId == Laz.RecordId && userId == Laz.UserId then FromLaz(b)
    else if recordId == ExtraBytes.RecordId && userId == ExtraBytes.UserId then FromExtraBytes(b)
    else if recordId == Wkt.RecordId && userId == Wkt.UserId then FromWkt(b)
    else if recordId == CopcInfo.RecordId && userId == CopcInfo.UserId then FromCopcInfo(b)
    else Err(UnknownRecord)
  }

  /** The LAZ decoder's verdict as a payload. */
  function FromLaz(b: seq<uint8>): (r: Result<Payload>)
    ensures r != Err(UnknownRecord)
    ensures r.Ok? ==> r.value.LazPayload? && Size(r.value) == |b|
  {
    match Laz.Decode(b)
    case Ok(v) => Ok(LazPayload(v))
    case Err(e) => Err(e)
  }

  /** The extra-bytes decoder's verdict as a payload. */
  function FromExtraBytes(b: seq<uint8>): (r: Result<Payload>)
    ensures r != Err(UnknownRecord)
    ensures r.Ok? ==> r.value.ExtraBytesPayload? && Size(r.value) == |b|
  {
    match ExtraBytes.Decode(b)
    case Ok(v) => Ok(ExtraBytesPayload(v))
    case Err(e) => Err(e)
  }

  /** The WKT text as a payload; it accepts any bytes. */
  function FromWkt(b: seq<uint8>): (r: Result<Payload>)
    ensures r.Ok? && r.value.WktPayload? && Size(r.value) == |b|
  {
    Ok(WktPayload(Wkt.Decode(b).value))
  }

  /** The COPC info decoder's verdict as a payload. */
  function FromCopcInfo(b: seq<uint8>): (r: Result<Payload>)
    ensures r != Err(UnknownRecord)
    ensures r.Ok? ==> r.value.CopcInfoPayload? && Size(r.value) <= |b|
  {
    match CopcInfo.Decode(b)
    case Ok(v) => Ok(CopcInfoPayload(v))
    case Err(e) => Err(e)
  }

  /** Routing the bytes of a valid payload by the header it projects gives
      the payload back. */
  lemma RoundTrip(p: Payload, description: seq<uint8>)
    requires Valid(p)
    ensures var h := VlrHeaderOf(p, description);
      Decode(h.userId, h.recordId, Encode(p)) == Ok(p)
  {
    match p
    case LazPayload(v) => LazRoutes(v);
    case ExtraBytesPayload(v) => ExtraBytesRoutes(v);
    case WktPayload(v) => WktRoutes(v);
    case CopcInfoPayload(v) => CopcInfoRoutes(v);
  }

  lemma LazRoutes(v: Laz.LazVlr)
    ensures Decode(Laz.UserId, Laz.RecordId, Laz.Encode(v)) == Ok(LazPayload(v))
  {
    Laz.RoundTrip(v);
  }

  lemma ExtraBytesRoutes(v: ExtraBytes.EbVlr)
    requires ExtraBytes.Valid(v)
    ensures Decode(ExtraBytes.UserId, ExtraBytes.RecordId, ExtraBytes.Encode(v)) == Ok(ExtraBytesPayload(v))
  {
    ExtraBytes.ValidRoundTrip(v);
  }

  lemma WktRoutes(v: Wkt.WktVlr)
    ensures Decode(Wkt.UserId, Wkt.RecordId, Wkt.Encode(v)) == Ok(WktPayload(v))
  {
    Wkt.RoundTrip(v);
  }

  lemma CopcInfoRoutes(v: CopcInfo.CopcInfoVlr)
    ensures Decode(CopcInfo.UserId, CopcInfo.RecordId, CopcInfo.Encode(v)) == Ok(CopcInfoPayload(v))
  {
    CopcInfo.RoundTrip(v);
  }

  /** The registry pairs are valid user_id text. */
  lemma UserIdsAreText(p: Payload)
    ensures IsText(UserId(p), Header.UserIdWidth)
  {
  }

  /** A short VLR on the wire: the projected header followed by the payload.
      Reading the header back gives the payload's size as data_length, and
      the data_length bytes after the header route back to the payload. */
  lemma VlrOnTheWire(p: Payload, description: seq<uint8>)
    requires Valid(p) && Size(p) < 0x1_0000 && IsText(description, Header.DescriptionWidth)
    ensures var bytes := Header.EncodeVlrHeader(VlrHeaderOf(p, description)) + Encode(p);
      var h := Header.DecodeVlrHeader(bytes);
      && h.Ok?
      && h.value.dataLength == Size(p)
      && |bytes| == Header.VlrHeaderSize + h.value.dataLength
      && Decode(h.value.userId, h.value.recordId, bytes[Header.VlrHeaderSize..]) == Ok(p)
  {
    var hdr := VlrHeaderOf(p, description);
    var head := Header.EncodeVlrHeader(hdr);
    var bytes := head + Encode(p);
    UserIdsAreText(p);
    Header.VlrHeaderPrefix(hdr, Encode(p));
    assert bytes[Header.VlrHeaderSize..] == Encode(p);
    RoundTrip(p, description);
  }

  /** The same for an extended VLR, whose data_length is 64 bits wide. */
  lemma EvlrOnTheWire(p: Payload, description: seq<uint8>)
    requires Valid(p) && Size(p) < 0x1_0000_0000_0000_0000
    requires IsText(description, Header.DescriptionWidth)
    ensures var bytes := Header.EncodeEvlrHeader(EvlrHeaderOf(p, description)) + Encode(p);
      var h := Header.DecodeEvlrHeader(bytes);
      && h.Ok?
      && h.value.dataLength == Size(p)
      && |bytes| == Header.EvlrHeaderSize + h.value.dataLength
      && Decode(h.value.userId, h.value.recordId, bytes[Header.EvlrHeaderSize..]) == Ok(p)
  {
    var hdr := EvlrHeaderOf(p, description);
    var head := Header.EncodeEvlrHeader(hdr);
    var bytes := head + Encode(p);
    UserIdsAreText(p);
    Header.EvlrHeaderPrefix(hdr, Encode(p));
    assert bytes[Header.EvlrHeaderSize..] == Encode(p);
    RoundTrip(p, description);
  }
}
