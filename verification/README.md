# LAS/LAZ/COPC variable-length records, modelled in Dafny

This project models the metadata-record layer of laz-perf, declared in
`cpp/lazperf/vlr.hpp`. A LAS file carries metadata as variable-length
records (VLRs) and extended variable-length records (EVLRs). Each record
has a fixed header naming its owner (`user_id`, `record_id`) and the length
of its payload. The payload's layout depends on which record it is. The
model covers:

- **Headers** (`header.dfy`): `vlr_header`, 54 bytes, with a 16-bit
  `data_length`. `evlr_header`, 60 bytes, with a 64-bit `data_length`.
  `vlr_index_rec`, the catalog entry built from either.
- **Payload kinds**:
  - `laz_vlr` (`laz.dfy`): the LAZ compression descriptor. A 32-byte prefix,
    then one 6-byte `laz_item` per compressed field group.
  - `eb_vlr` (`extra_bytes.dfy`): the extra-bytes table of 192-byte
    `ebfield`s, with `addField`.
  - `wkt_vlr` (`wkt.dfy`): coordinate-system text.
  - `copc_info_vlr` (`copc_info.dfy`): the 160-byte COPC info record with
    its eleven reserved words.
- **The `vlr` contract** (`vlr.dfy`): `size()`, `header()` and `eheader()`
  for every payload kind. It also models a reader routing a header's
  (`user_id`, `record_id`) pair to the decoder of the payload kind that owns
  it.
- **The COPC hierarchy** (`copc_hierarchy.dfy`): `copc_hierarchy_voxel_key`,
  the 32-byte `copc_hierarchy_entry` with its tri-state point count, and
  `copc_hierarchy_page`, modelled as a bare run of entries (see "Left out").

Every record is a pure datatype. `data()` becomes an `Encode` function to
`seq<uint8>`. `fill()` becomes a `Decode` function from `seq<uint8>` to a
`Result` that is either the record or a `DecodeError` (`results.dfy`).

The shared machinery lives in `layout.dfy`. A record is a list of
fixed-width slots:
- little-endian unsigned words;
- NUL-padded text, cut to the field width on write and read up to the first
  NUL;
- raw byte arrays.

The round-trip and position proofs are done once there, for any record and
any array of records. `bytes.dfy` holds the little-endian, two's complement
and text primitives.

Field order and widths follow the declarations and the C++ integer types:
`uint8_t` is 1 byte, `uint16_t` 2, `uint32_t`/`int32_t` 4, and
`uint64_t`/`double` 8. The text widths of the headers come from the "16
chars max" and "32 chars max" comments. The declaration of `ebfield` gives
no width for `name` and `description`. Those widths (32 bytes each, hence
192 bytes per field) come from the Extra Bytes record of the ASPRS LAS 1.4
specification. The header layouts agree with sections 2.5 and 2.7 of that
specification. The registry pairs used by `header()` come from the
published standards, not from this file:
- LASzip `"laszip encoded"`/22204;
- LAS 1.4 `"LASF_Spec"`/4 (extra bytes);
- LAS 1.4 `"LASF_Projection"`/2112 (OGC WKT);
- COPC `"copc"`/1.

A `double` is an opaque 8-byte word (`Float64Bits`). No floating-point
meaning is modelled.

## Model

| member | source | states |
|---|---|---|
| Bytes.TextRoundTrip | cpp/lazperf/vlr.hpp:44-47 | a text field read back from its padded fixed-width slot equals the text written exactly when the text fits the width and holds no NUL |
| Bytes.Int32BitsRoundTrip | cpp/lazperf/vlr.hpp:240-245 | storing an `int32_t` as its 32-bit two's complement pattern and reading it back is lossless in both directions |
| Layout.DecodeSlotAt | cpp/lazperf/vlr.hpp:41-52 | reading any record of fixed-width fields, field k is read from its own window alone, the bytes after the widths of the fields declared before it; this is how every `fill` reads a member, whatever bytes the buffer holds |
| Header.EncodeVlrHeader | cpp/lazperf/vlr.hpp:41-55 | `vlr_header::data()` is exactly `Size` = 54 bytes |
| Header.DecodeVlrHeader | cpp/lazperf/vlr.hpp:52 | `fill` fails with a truncation error exactly when fewer than 54 bytes are given; a header it builds always has text that fits its fields |
| Header.VlrHeaderLayout | cpp/lazperf/vlr.hpp:41-47 | the short header is reserved(2), user_id(16, NUL-padded), record_id(2), data_length(2), description(32, NUL-padded), in that order, little-endian |
| Header.VlrHeaderRoundTrip | cpp/lazperf/vlr.hpp:41-53 | decoding an encoded short header gives it back if and only if user_id fits 16 bytes and description 32 bytes, neither holding a NUL |
| Header.VlrHeaderFields | cpp/lazperf/vlr.hpp:41-52 | `fill` on any buffer of at least 54 bytes takes reserved from bytes 0..2, user_id as the text before the first NUL in bytes 2..18, record_id from 18..20, data_length from 20..22 and description as the text before the first NUL in 22..54, little-endian |
| Header.VlrHeaderPrefix | cpp/lazperf/vlr.hpp:52 | `fill` reads only the first 54 bytes: whatever follows the header does not change it |
| Header.EncodeEvlrHeader | cpp/lazperf/vlr.hpp:57-71 | `evlr_header::data()` is exactly `Size` = 60 bytes |
| Header.DecodeEvlrHeader | cpp/lazperf/vlr.hpp:68 | `fill` fails with a truncation error exactly when fewer than 60 bytes are given; a header it builds always has text that fits its fields |
| Header.EvlrHeaderLayout | cpp/lazperf/vlr.hpp:57-63 | the extended header has the same layout except for an 8-byte data_length |
| Header.EvlrHeaderRoundTrip | cpp/lazperf/vlr.hpp:57-69 | decoding an encoded extended header gives it back if and only if its text fields fit |
| Header.EvlrHeaderFields | cpp/lazperf/vlr.hpp:57-68 | `fill` on any buffer of at least 60 bytes reads the same fields at the same offsets, except data_length from bytes 20..28 and description from 28..60 |
| Header.EvlrHeaderPrefix | cpp/lazperf/vlr.hpp:68 | `fill` reads only the first 60 bytes |
| Header.IndexFromVlr | cpp/lazperf/vlr.hpp:73-81 | the catalog entry copies user_id, record_id and description verbatim, widens data_length to 64 bits and records the byte offset |
| Header.IndexFromEvlr | cpp/lazperf/vlr.hpp:82 | the same for an extended header |
| Header.IndexKindAgnostic | cpp/lazperf/vlr.hpp:73-83 | a short and an extended header with equal field values give equal catalog entries |
| Laz.Encode | cpp/lazperf/vlr.hpp:124-125 | `data()` is 32 + 6 n bytes for n items, which is `size()` |
| Laz.Decode | cpp/lazperf/vlr.hpp:123 | `fill` succeeds exactly when the payload is at least 32 bytes and the rest is whole 6-byte items; it reads (len - 32) / 6 items and a descriptor whose `size()` is the payload length; a short payload gives a truncation error and a ragged tail a misalignment error |
| Laz.PrefixLayout | cpp/lazperf/vlr.hpp:104-110 | compressor(2), coder(2), ver_major(1), ver_minor(1) fill bytes 0..6 and revision(2), options(4), chunk_size(4) bytes 6..16, little-endian |
| Laz.StoredCountRefused | cpp/lazperf/vlr.hpp:119-129 | a payload of 34 + 6 n bytes, the shape of a record that stores a 16-bit item count, is refused as misaligned |
| Laz.ItemAt | cpp/lazperf/vlr.hpp:97-102 | item i occupies bytes 32 + 6 i .. 32 + 6 i + 6 as type(2), size(2), version(2) |
| Laz.LegacyWordsAt | cpp/lazperf/vlr.hpp:111-112 | num_points and num_bytes occupy bytes 16..32 as written |
| Laz.RoundTrip | cpp/lazperf/vlr.hpp:104-124 | every descriptor reads back as written: all prefix fields, and its items in order and number |
| Laz.BytesRoundTrip | cpp/lazperf/vlr.hpp:111-124 | a decoded payload re-encodes to the same bytes, so the legacy words survive byte for byte |
| Laz.LegacyWordsOpaque | cpp/lazperf/vlr.hpp:111-113 | changing num_points and num_bytes changes neither the size nor any byte outside 16..32: nothing is derived from them |
| ExtraBytes.FieldWidth | cpp/lazperf/vlr.hpp:135-147 | one `ebfield` occupies 192 bytes |
| ExtraBytes.Empty | cpp/lazperf/vlr.hpp:154 | `eb_vlr()` holds no field and has size 0 |
| ExtraBytes.AddField | cpp/lazperf/vlr.hpp:167 | `addField(f)` grows the list by one, keeps every earlier field and puts `f` last |
| ExtraBytes.AddFieldAppends | cpp/lazperf/vlr.hpp:152-167 | after `addField(f)` the payload is the old payload followed by the 192 bytes of `f` |
| ExtraBytes.Encode | cpp/lazperf/vlr.hpp:162-163 | `data()` is 192 bytes per field, which is `size()` |
| ExtraBytes.FieldLayout | cpp/lazperf/vlr.hpp:135-147 | one field's 192 bytes hold reserved, data_type, options, name (32, NUL-padded), unused, then no_data, min, max, scale and offset as three little-endian 8-byte words each, then description (32, NUL-padded), in declaration order |
| ExtraBytes.FieldAt | cpp/lazperf/vlr.hpp:152-163 | field `i` of the table fills bytes 192 i .. 192 i + 192 of `data()` |
| ExtraBytes.Decode | cpp/lazperf/vlr.hpp:158-161 | reading a payload of byteSize bytes succeeds exactly when byteSize is a multiple of 192, giving byteSize / 192 valid fields whose `size()` is byteSize; any other length is refused as misaligned |
| ExtraBytes.FieldDecodesAt | cpp/lazperf/vlr.hpp:135-161 | in any payload of whole fields, field i is read from bytes 192 i .. 192 i + 192 alone: reserved from offset 0, data_type at 2, options at 3, name as the text before the first NUL in 4..36, unused from 36, no_data, min, max, scale and offset as three 8-byte words each from 40, 64, 88, 112 and 136, and description as the text before the first NUL in 160..192 |
| ExtraBytes.FieldBytesRoundTrip | cpp/lazperf/vlr.hpp:135-147 | the 192 bytes written for a field whose name and description fit read back, member by member, as that field |
| ExtraBytes.RoundTrip | cpp/lazperf/vlr.hpp:135-162 | a table reads back as written if and only if every field's name and description fit their 32-byte slots |
| Wkt.Encode | cpp/lazperf/vlr.hpp:183-184 | `data()` is the text itself, byte for byte, and so `size()` bytes long |
| Wkt.Decode | cpp/lazperf/vlr.hpp:179-182 | every payload is accepted, the text is exactly the payload's bytes, and its length is the record's size |
| Wkt.RoundTrip | cpp/lazperf/vlr.hpp:173-183 | text reads back as written |
| Wkt.BytesRoundTrip | cpp/lazperf/vlr.hpp:173-183 | a payload re-encodes to the same bytes |
| CopcInfo.InfoWidth | cpp/lazperf/vlr.hpp:192-201 | nine 8-byte named fields and eleven 8-byte reserved words make 160 bytes |
| CopcInfo.New | cpp/lazperf/vlr.hpp:201-203 | a default-constructed record has all eleven reserved words zero; the named fields hold what the caller assigned |
| CopcInfo.Encode | cpp/lazperf/vlr.hpp:210-211 | `data()` is 160 bytes, which is `size()` |
| CopcInfo.InfoLayout | cpp/lazperf/vlr.hpp:192-201 | `data()` holds center_x, center_y, center_z, halfsize, spacing, root_hier_offset, root_hier_size, gpstime_minimum and gpstime_maximum at bytes 0..72, 8 little-endian bytes each in declaration order, and reserved word k at 72 + 8 k |
| CopcInfo.Decode | cpp/lazperf/vlr.hpp:206-209 | `fill` fails with a truncation error exactly when fewer than 160 bytes are given |
| CopcInfo.DecodePrefix | cpp/lazperf/vlr.hpp:206-209 | `fill` reads only the first 160 bytes: whatever follows them does not change the record |
| CopcInfo.RoundTrip | cpp/lazperf/vlr.hpp:192-210 | every record reads back as written, reserved words included |
| CopcInfo.BytesRoundTrip | cpp/lazperf/vlr.hpp:201-210 | 160 bytes decoded and re-encoded are the same bytes |
| CopcInfo.ReservedBytesKept | cpp/lazperf/vlr.hpp:201 | a record read, changed only in its named fields and written back reproduces the reserved bytes 72..160 exactly as read |
| CopcHierarchy.EncodeEntry | cpp/lazperf/vlr.hpp:226-246 | an entry occupies 32 bytes |
| CopcHierarchy.EntryLayout | cpp/lazperf/vlr.hpp:216-246 | an entry is level, x, y, z (4 bytes each), then offset(8), byteSize(4) and pointCount(4), the signed words in two's complement |
| CopcHierarchy.EncodePage | cpp/lazperf/vlr.hpp:260-261 | a page of n entries is 32 n bytes, which is `size()` |
| CopcHierarchy.DecodePage | cpp/lazperf/vlr.hpp:259 | `fill` succeeds exactly when the length is a multiple of 32 and then reads length / 32 entries |
| CopcHierarchy.EntryAt | cpp/lazperf/vlr.hpp:248-260 | entry i of a page occupies bytes 32 i .. 32 i + 32 |
| CopcHierarchy.PageRoundTrip | cpp/lazperf/vlr.hpp:248-260 | a page reads back as the same entries in the same order |
| CopcHierarchy.PageBytesRoundTrip | cpp/lazperf/vlr.hpp:259-260 | a decoded page re-encodes to the same bytes |
| CopcHierarchy.Interpret | cpp/lazperf/vlr.hpp:232-245 | pointCount > 0 means a point chunk; -1 with a non-zero offset and byteSize means a child page; 0 with a zero offset and byteSize means no points here; anything else breaks the rule |
| CopcHierarchy.EntryFor | cpp/lazperf/vlr.hpp:232-245 | the entry built for a point chunk, a child page at a non-zero location, or an empty node obeys the rule |
| CopcHierarchy.InterpretEntryFor | cpp/lazperf/vlr.hpp:232-245 | reading an entry built for a target gives that target, and every entry obeying the rule is the entry for what it says |
| CopcHierarchy.PageKeepsTargets | cpp/lazperf/vlr.hpp:232-262 | what each entry of a page says survives a write and a read |
| Vlr.Encode | cpp/lazperf/vlr.hpp:89 | every payload kind's `data()` is `size()` bytes long |
| Vlr.VlrHeaderOf | cpp/lazperf/vlr.hpp:90 | `header()` carries the kind's registry pair, a zero reserved word and `size()` reduced to 16 bits as data_length, which is the payload length when it fits |
| Vlr.EvlrHeaderOf | cpp/lazperf/vlr.hpp:91 | `eheader()` carries the same with the 64-bit size |
| Vlr.Decode | cpp/lazperf/vlr.hpp:85-92 | a payload is decoded by the decoder of the kind owning the header's pair, with that decoder's error when it fails; a pair no kind owns, and only such a pair, gives the unknown-record error; a result carries the header's pair and its `size()` is the payload length (at most it for the COPC info record) |
| Vlr.RoundTrip | cpp/lazperf/vlr.hpp:85-92 | routing a valid payload's bytes by the header it projects gives the payload back |
| Vlr.VlrOnTheWire | cpp/lazperf/vlr.hpp:41-92 | a short header followed by its payload reads back: the header says the payload's size, and that many bytes after the 54-byte header route back to the payload |
| Vlr.EvlrOnTheWire | cpp/lazperf/vlr.hpp:57-92 | the same for an extended header and the 60-byte header |

## Left out

- Stream plumbing (`create`, `read` and `write` over `std::istream` and `std::ostream`) is not modelled. Decoding and encoding are pure functions over byte sequences. For `eb_vlr` and `wkt_vlr`, `read(in, byteSize)` is `Decode` of those `byteSize` bytes. For `laz_vlr`, `read(in)` and `create(in)` take no length (see the `Laz.Decode` line).
- The bodies of `laz_vlr(int format, int ebCount, uint32_t chunksize)`, `valid()` and `laz_vlr(const char *)` are not modelled. The per-format item table, the known compressor and coder values, and the reader from a raw buffer are defined in code that is not part of this model.
- The deprecated `eb_vlr(int)` and `addField()` are not modelled.
- The body of `laz_vlr()` (vlr.hpp:115) is not modelled. Its default field values are defined in code that is not part of this model. Any `LazVlr` value can be built directly.
- `wkt_vlr()` and `wkt_vlr(const std::string &)` (vlr.hpp:175-176) have no members of their own: they are the values `WktVlr([])` and `WktVlr(s)`.
- `copc_hierarchy_page()` (vlr.hpp:253) is the value `Page([])`, a page with no entries. No member is written for it.
- The default `ebfield()` is not modelled. Its initial values are defined in code that is not part of this model. Any `EbField` value can be built directly.
- Floating-point values are not interpreted. Center, halfsize, spacing, GPS times and the extra-bytes no_data/min/max/scale/offset are opaque 8-byte words.
- Virtual destructors and export linkage are not modelled.
- The "< 0 indicates an invalid VoxelKey" comment is not modelled. It sits on unsigned fields and has no logic behind it in the declarations.
- vlr.hpp does not define the description text that `header()` and `eheader()` write. It is a parameter of `Vlr.VlrHeaderOf` and `Vlr.EvlrHeaderOf`.
- Laz.Decode derives the item count from the payload length, after the 32-byte prefix that the members at vlr.hpp:104-112 list. The declaration stores no count. But `create(std::istream &)`, `read(std::istream &)` and `laz_vlr(const char *)` (vlr.hpp:119, 121, 129) take no length, so the stream reader must find the count in the bytes themselves. The published LASzip record does store a 16-bit item count after num_bytes, giving a 34-byte prefix. The model does not: it refuses every such record as misaligned (`Laz.StoredCountRefused`), and its `size()` is 32 + 6 n rather than 34 + 6 n.
- Vlr.Decode routes on the registry pairs of the published standards. These pairs are not part of the declarations. Routing by (`user_id`, `record_id`) is the reader's job; the declarations only give each kind its `header()`.
- `vlr::size()` is a `uint64_t`. `Vlr.EvlrHeaderOf` reduces it modulo 2^64, and the on-the-wire lemmas require a size that fits.
- CopcInfo.Decode: any bytes beyond the first 160 are ignored. vlr.hpp does not define how `fill` treats a longer buffer.
- CopcHierarchy.DecodePage: `copc_hierarchy_page` declares no data member; the only line naming its entries is the comment `copc_hierarchy_entry entries[]` at vlr.hpp:251. The model's entry sequence comes from that comment, and so does `size()` being 32 per entry. Refusing a length that is not a multiple of 32 is the model's own choice: vlr.hpp does not say what `fill` does with a ragged tail.
- CopcHierarchy.Interpret: the comments at vlr.hpp:232-245 do not require a child page's offset and byteSize to be non-zero. The model requires it as its own choice, for two reasons: offset 0 is the start of the file, where no page can be, and a page of 0 bytes holds no entries. An entry with pointCount -1 and a zero location is read as breaking the rule.
- ExtraBytes.RoundTrip: a field's name or description is cut at its first NUL on read. So decoding and re-encoding an arbitrary extra-bytes payload does not reproduce bytes after that NUL, and no byte-level round trip is stated for this kind. The LAZ, COPC info, WKT and hierarchy payloads hold no text slots, and their byte-level round trips are proved.
