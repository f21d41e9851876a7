/** `wkt_vlr`: the coordinate system as OGC well-known text. The payload is
    the text itself: no length prefix and no terminator, its length being
    the header's data_length.
 */
module Wkt {
  import opened Bytes
  import opened Results

  datatype WktVlr = WktVlr(wkt: seq<uint8>)

  /** Registry pair of the OGC WKT coordinate system record
      (user_id "LASF_Projection"). */
  const UserId: seq<uint8> :=
    [0x4c, 0x41, 0x53, 0x46, 0x5f, 0x50, 0x72, 0x6f, 0x6a, 0x65, 0x63, 0x74, 0x69, 0x6f, 0x6e]
  const RecordId: uint16 := 2112

  /** `wkt_vlr::size()` */
  function Size(v: WktVlr): nat
  {
    |v.wkt|
  }

  /** `wkt_vlr::data()`: the text bytes, verbatim. */
  function Encode(v: WktVlr): (r: seq<uint8>)
    ensures |r| == Size(v)
    ensures r == v.wkt
  {
    v.wkt
  }

  /** `wkt_vlr::fill()`: every byte of the payload is text. */
  function Decode(b: seq<uint8>): (r: Result<WktVlr>)
    ensures r.Ok? && Size(r.value) == |b|
    ensures r == Ok(WktVlr(b))
  {
    Ok(WktVlr(b))
  }

  lemma RoundTrip(v: WktVlr)
    ensures Decode(Encode(v)) == Ok(v)
  {
  }

  lemma BytesRoundTrip(b: seq<uint8>)
    ensures Encode(Decode(b).value) == b
  {
  }
}
