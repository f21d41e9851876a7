/** Fixed layouts. Every record of the metadata layer is a run of fields at
    fixed widths: little-endian unsigned words, NUL-padded text, or raw
    byte arrays. A layout is the list of those slots in file order; a
    record's field values are encoded slot by slot, and an array of such
    records is the records' encodings back to back. The round-trip proofs
    are done here once, for every layout.
 */
module Layout {
  import opened Bytes

  datatype Slot =
    | Word(width: nat)   // unsigned integer, little-endian
    | Text(width: nat)   // text, NUL-padded on write, cut at the first NUL on read
    | Raw(width: nat)    // bytes moved verbatim

  datatype Value = Num(n: nat) | Str(s: seq<uint8>) | Blob(bytes: seq<uint8>)

  /** `v` can be written into `slot`. Text of any length can: it is cut to
      the field width. */
  predicate Encodable(slot: Slot, v: Value)
  {
    match slot
    case Word(w) => v.Num? && v.n < Pow256(w)
    case Text(_) => v.Str?
    case Raw(w) => v.Blob? && |v.bytes| == w
  }

  /** `v` can be written into `slot` and read back unchanged. */
  predicate Fits(slot: Slot, v: Value)
  {
    Encodable(slot, v) && (slot.Text? ==> IsText(v.s, slot.width))
  }

  predicate EncodableAll(slots: seq<Slot>, vals: seq<Value>)
  {
    |slots| == |vals| && forall i :: 0 <= i < |slots| ==> Encodable(slots[i], vals[i])
  }

  predicate Conforms(slots: seq<Slot>, vals: seq<Value>)
  {
    |slots| == |vals| && forall i :: 0 <= i < |slots| ==> Fits(slots[i], vals[i])
  }

  /** A layout whose every field reads back byte for byte. */
  predicate Verbatim(slots: seq<Slot>)
  {
    forall i :: 0 <= i < |slots| ==> !slots[i].Text?
  }

  /** Total byte width of a layout. */
  function Width(slots: seq<Slot>): nat
  {
    if |slots| == 0 then 0 else slots[0].width + Width(slots[1..])
  }

  lemma {:induction false} WidthAppend(a: seq<Slot>, b: seq<Slot>)
    ensures Width(a + b) == Width(a) + Width(b)
  {
    if |a| > 0 {
      assert (a + b)[1..] == a[1..] + b;
      WidthAppend(a[1..], b);
    } else {
      assert a + b == b;
    }
  }

  /** The width of the first `k + 1` slots: that of the first `k`, plus
      slot `k`. */
  lemma WidthSnoc(slots: seq<Slot>, k: nat)
    requires k < |slots|
    ensures Width(slots[..k + 1]) == Width(slots[..k]) + slots[k].width
  {
    assert slots[..k + 1] == slots[..k] + [slots[k]];
    WidthAppend(slots[..k], [slots[k]]);
    assert [slots[k]][1..] == [];
  }

  /** A layout of `n` unsigned words of `w` bytes each. */
  function Words(n: nat, w: nat): (r: seq<Slot>)
    ensures |r| == n && Verbatim(r)
    ensures forall i :: 0 <= i < n ==> r[i] == Word(w)
  {
    if n == 0 then [] else [Word(w)] + Words(n - 1, w)
  }

  lemma WordsPrefix(n: nat, k: nat, w: nat)
    requires k <= n
    ensures Words(n, w)[..k] == Words(k, w)
  {
  }

  lemma {:induction false} WordsWidth(n: nat, w: nat)
    ensures Width(Words(n, w)) == n * w
  {
    if n > 0 {
      WordsWidth(n - 1, w);
      assert Words(n, w)[1..] == Words(n - 1, w);
      assert (n - 1) * w + w == n * w;
    }
  }

  function EncodeValue(slot: Slot, v: Value): (r: seq<uint8>)
    requires Encodable(slot, v)
    ensures |r| == slot.width
  {
    match slot
    case Word(w) => LittleEndian(v.n, w)
    case Text(w) => PadText(v.s, w)
    case Raw(_) => v.bytes
  }

  function DecodeValue(slot: Slot, b: seq<uint8>): (v: Value)
    requires |b| == slot.width
    ensures Fits(slot, v)
  {
    match slot
    case Word(_) => Num(FromLittleEndian(b))
    case Text(_) => Str(TrimText(b))
    case Raw(_) => Blob(b)
  }

  lemma ValueRoundTrip(slot: Slot, v: Value)
    requires Fits(slot, v)
    ensures DecodeValue(slot, EncodeValue(slot, v)) == v
  {
    match slot
    case Word(w) => FromToLittleEndian(v.n, w);
    case Text(w) => TextRoundTrip(v.s, w);
    case Raw(_) =>
  }

  lemma ValueBytesRoundTrip(slot: Slot, b: seq<uint8>)
    requires |b| == slot.width && !slot.Text?
    ensures EncodeValue(slot, DecodeValue(slot, b)) == b
  {
    if slot.Word? {
      ToFromLittleEndian(b);
    }
  }

  /** The bytes of one record: each field in its slot, in layout order. */
  function EncodeRecord(slots: seq<Slot>, vals: seq<Value>): (r: seq<uint8>)
    requires EncodableAll(slots, vals)
    ensures |r| == Width(slots)
  {
    if |slots| == 0 then []
    else EncodeValue(slots[0], vals[0]) + EncodeRecord(slots[1..], vals[1..])
  }

  /** The field values of one record read from exactly its bytes. */
  function DecodeRecord(slots: seq<Slot>, b: seq<uint8>): (r: seq<Value>)
    requires |b| == Width(slots)
    ensures Conforms(slots, r)
  {
    if |slots| == 0 then []
    else
      var w := slots[0].width;
      [DecodeValue(slots[0], b[..w])] + DecodeRecord(slots[1..], b[w..])
  }

  /** The fields after the first of a record that fits its layout fit the
      rest of the layout. */
  lemma ConformsTail(slots: seq<Slot>, vals: seq<Value>)
    requires Conforms(slots, vals) && |slots| > 0
    ensures Fits(slots[0], vals[0]) && Conforms(slots[1..], vals[1..])
  {
    forall i | 0 <= i < |slots| - 1 ensures Fits(slots[1..][i], vals[1..][i]) {
      assert slots[1..][i] == slots[i + 1] && vals[1..][i] == vals[i + 1];
    }
  }

  lemma VerbatimTail(slots: seq<Slot>)
    requires Verbatim(slots) && |slots| > 0
    ensures !slots[0].Text? && Verbatim(slots[1..])
  {
    forall i | 0 <= i < |slots| - 1 ensures !slots[1..][i].Text? {
      assert slots[1..][i] == slots[i + 1];
    }
  }

  /** The bytes of a record are its first field's bytes, then the rest. */
  lemma EncodeRecordUnfold(slots: seq<Slot>, vals: seq<Value>)
    requires EncodableAll(slots, vals) && |slots| > 0
    ensures EncodableAll(slots[1..], vals[1..])
    ensures EncodeRecord(slots, vals) == EncodeValue(slots[0], vals[0]) + EncodeRecord(slots[1..], vals[1..])
  {
  }

  /** The fields of a record are its first field, then the rest. */
  lemma DecodeRecordUnfold(slots: seq<Slot>, b: seq<uint8>)
    requires |b| == Width(slots) && |slots| > 0
    ensures slots[0].width <= |b| && |b[slots[0].width..]| == Width(slots[1..])
    ensures DecodeRecord(slots, b)
         == [DecodeValue(slots[0], b[..slots[0].width])] + DecodeRecord(slots[1..], b[slots[0].width..])
  {
  }

  /** A window right after a prefix is the same window of what follows it. */
  lemma SliceAfter(p: seq<uint8>, t: seq<uint8>, a: nat, c: nat)
    requires a <= c <= |t|
    ensures (p + t)[|p| + a..|p| + c] == t[a..c]
  {
  }

  lemma {:induction false} RecordRoundTrip(slots: seq<Slot>, vals: seq<Value>)
    requires Conforms(slots, vals)
    ensures DecodeRecord(slots, EncodeRecord(slots, vals)) == vals
  {
    if |slots| > 0 {
      var w := slots[0].width;
      ConformsTail(slots, vals);
      EncodeRecordUnfold(slots, vals);
      var head := EncodeValue(slots[0], vals[0]);
      var tail := EncodeRecord(slots[1..], vals[1..]);
      var b := head + tail;
      assert b[..w] == head && b[w..] == tail;
      ValueRoundTrip(slots[0], vals[0]);
      RecordRoundTrip(slots[1..], vals[1..]);
      DecodeRecordUnfold(slots, b);
      assert [vals[0]] + vals[1..] == vals;
    }
  }

  lemma {:induction false} RecordBytesRoundTrip(slots: seq<Slot>, b: seq<uint8>)
    requires Verbatim(slots) && |b| == Width(slots)
    ensures EncodeRecord(slots, DecodeRecord(slots, b)) == b
  {
    if |slots| > 0 {
      var w := slots[0].width;
      var vals := DecodeRecord(slots, b);
      VerbatimTail(slots);
      assert vals == [DecodeValue(slots[0], b[..w])] + DecodeRecord(slots[1..], b[w..]);
      assert vals[1..] == DecodeRecord(slots[1..], b[w..]);
      EncodeRecordUnfold(slots, vals);
      ValueBytesRoundTrip(slots[0], b[..w]);
      RecordBytesRoundTrip(slots[1..], b[w..]);
      assert b[..w] + b[w..] == b;
    }
  }

  /** A record whose first field is `a` holding `x`: that field's bytes,
      then the rest. */
  lemma EncodeRecordCons(a: Slot, x: Value, slots: seq<Slot>, vals: seq<Value>)
    requires Encodable(a, x) && EncodableAll(slots, vals)
    ensures EncodableAll([a] + slots, [x] + vals)
    ensures EncodeRecord([a] + slots, [x] + vals) == EncodeValue(a, x) + EncodeRecord(slots, vals)
  {
    assert ([a] + slots)[1..] == slots;
    assert ([x] + vals)[1..] == vals;
  }

  /** Records of one to five fields, spelled out field by field. */
  lemma EncodeRecord1(a: Slot, x: Value)
    requires Encodable(a, x)
    ensures EncodableAll([a], [x])
    ensures EncodeRecord([a], [x]) == EncodeValue(a, x)
  {
    assert [a][1..] == [] && [x][1..] == [];
  }

  lemma EncodeRecord2(a: Slot, b: Slot, x: Value, y: Value)
    requires Encodable(a, x) && Encodable(b, y)
    ensures EncodableAll([a, b], [x, y])
    ensures EncodeRecord([a, b], [x, y]) == EncodeValue(a, x) + EncodeValue(b, y)
  {
    EncodeRecord1(b, y);
    EncodeRecordCons(a, x, [b], [y]);
    assert [a] + [b] == [a, b] && [x] + [y] == [x, y];
  }

  lemma EncodeRecord3(a: Slot, b: Slot, c: Slot, x: Value, y: Value, z: Value)
    requires Encodable(a, x) && Encodable(b, y) && Encodable(c, z)
    ensures EncodableAll([a, b, c], [x, y, z])
    ensures EncodeRecord([a, b, c], [x, y, z])
         == EncodeValue(a, x) + (EncodeValue(b, y) + EncodeValue(c, z))
  {
    EncodeRecord2(b, c, y, z);
    EncodeRecordCons(a, x, [b, c], [y, z]);
    assert [a] + [b, c] == [a, b, c] && [x] + [y, z] == [x, y, z];
  }

  lemma EncodeRecord4(a: Slot, b: Slot, c: Slot, d: Slot, x: Value, y: Value, z: Value, t: Value)
    requires Encodable(a, x) && Encodable(b, y) && Encodable(c, z) && Encodable(d, t)
    ensures EncodableAll([a, b, c, d], [x, y, z, t])
    ensures EncodeRecord([a, b, c, d], [x, y, z, t])
         == EncodeValue(a, x) + (EncodeValue(b, y) + (EncodeValue(c, z) + EncodeValue(d, t)))
  {
    EncodeRecord3(b, c, d, y, z, t);
    EncodeRecordCons(a, x, [b, c, d], [y, z, t]);
    assert [a] + [b, c, d] == [a, b, c, d] && [x] + [y, z, t] == [x, y, z, t];
  }

  lemma EncodeRecord5(a: Slot, b: Slot, c: Slot, d: Slot, e: Slot,
                      x: Value, y: Value, z: Value, t: Value, u: Value)
    requires Encodable(a, x) && Encodable(b, y) && Encodable(c, z) && Encodable(d, t)
    requires Encodable(e, u)
    ensures EncodableAll([a, b, c, d, e], [x, y, z, t, u])
    ensures EncodeRecord([a, b, c, d, e], [x, y, z, t, u])
         == EncodeValue(a, x) + (EncodeValue(b, y) + (EncodeValue(c, z) + (EncodeValue(d, t) + EncodeValue(e, u))))
  {
    EncodeRecord4(b, c, d, e, y, z, t, u);
    EncodeRecordCons(a, x, [b, c, d, e], [y, z, t, u]);
    assert [a] + [b, c, d, e] == [a, b, c, d, e] && [x] + [y, z, t, u] == [x, y, z, t, u];
  }

  lemma EncodableAllAppend(s1: seq<Slot>, v1: seq<Value>, s2: seq<Slot>, v2: seq<Value>)
    requires EncodableAll(s1, v1) && EncodableAll(s2, v2)
    ensures EncodableAll(s1 + s2, v1 + v2)
  {
    forall i | 0 <= i < |s1| + |s2| ensures Encodable((s1 + s2)[i], (v1 + v2)[i]) {
      if i < |s1| {
        assert (s1 + s2)[i] == s1[i] && (v1 + v2)[i] == v1[i];
      } else {
        assert (s1 + s2)[i] == s2[i - |s1|] && (v1 + v2)[i] == v2[i - |s1|];
      }
    }
  }

  /** The encoding of two records' fields, one after the other, is the
      two encodings one after the other. */
  lemma {:induction false} EncodeRecordAppend(s1: seq<Slot>, v1: seq<Value>, s2: seq<Slot>, v2: seq<Value>)
    requires EncodableAll(s1, v1) && EncodableAll(s2, v2)
    ensures EncodableAll(s1 + s2, v1 + v2)
    ensures EncodeRecord(s1 + s2, v1 + v2) == EncodeRecord(s1, v1) + EncodeRecord(s2, v2)
  {
    EncodableAllAppend(s1, v1, s2, v2);
    if |s1| == 0 {
      assert s1 + s2 == s2 && v1 + v2 == v2;
    } else {
      EncodeRecordUnfold(s1, v1);
      EncodeRecordAppend(s1[1..], v1[1..], s2, v2);
      ConsAppend(s1, s2);
      ConsAppend(v1, v2);
      EncodeRecordCons(s1[0], v1[0], s1[1..] + s2, v1[1..] + v2);
      AppendAssoc(EncodeValue(s1[0], v1[0]), EncodeRecord(s1[1..], v1[1..]), EncodeRecord(s2, v2));
    }
  }

  /** The encoding of a record is the encoding of its first `k` fields
      followed by that of the rest. */
  lemma EncodeRecordSplit(slots: seq<Slot>, vals: seq<Value>, k: nat)
    requires EncodableAll(slots, vals) && k <= |slots|
    ensures EncodableAll(slots[..k], vals[..k]) && EncodableAll(slots[k..], vals[k..])
    ensures EncodeRecord(slots, vals)
         == EncodeRecord(slots[..k], vals[..k]) + EncodeRecord(slots[k..], vals[k..])
  {
    forall i | 0 <= i < k ensures Encodable(slots[..k][i], vals[..k][i]) {
      assert slots[..k][i] == slots[i] && vals[..k][i] == vals[i];
    }
    forall i | 0 <= i < |slots| - k ensures Encodable(slots[k..][i], vals[k..][i]) {
      assert slots[k..][i] == slots[k + i] && vals[k..][i] == vals[k + i];
    }
    assert slots[..k] + slots[k..] == slots && vals[..k] + vals[k..] == vals;
    EncodeRecordAppend(slots[..k], vals[..k], slots[k..], vals[k..]);
  }

  /** Field `k` of a record sits right after the fields before it: at
      offset `off`, the width of the first `k` slots. */
  lemma SlotAt(slots: seq<Slot>, vals: seq<Value>, k: nat, off: nat)
    requires EncodableAll(slots, vals) && k < |slots| && off == Width(slots[..k])
    ensures Encodable(slots[k], vals[k])
    ensures off + slots[k].width <= |EncodeRecord(slots, vals)|
    ensures EncodeRecord(slots, vals)[off..off + slots[k].width] == EncodeValue(slots[k], vals[k])
  {
    EncodeRecordSplit(slots, vals, k);
    var rs, rv := slots[k..], vals[k..];
    assert rs[0] == slots[k] && rv[0] == vals[k];
    EncodeRecordUnfold(rs, rv);
    MiddleSlice(EncodeRecord(slots[..k], vals[..k]), EncodeValue(slots[k], vals[k]),
                EncodeRecord(rs[1..], rv[1..]));
  }

  /** Reading a record, field `k` is read from its own window alone: the
      `slots[k].width` bytes at offset `off`, the width of the slots
      before it. So a text field is cut at the first NUL of its own
      window, whatever the other bytes hold. */
  lemma {:induction false} DecodeSlotAt(slots: seq<Slot>, b: seq<uint8>, k: nat, off: nat)
    requires |b| == Width(slots) && k < |slots| && off == Width(slots[..k])
    ensures off + slots[k].width <= |b|
    ensures DecodeRecord(slots, b)[k] == DecodeValue(slots[k], b[off..off + slots[k].width])
  {
    var w := slots[0].width;
    DecodeRecordUnfold(slots, b);
    if k == 0 {
      assert slots[..0] == [];
      assert b[0..w] == b[..w];
    } else {
      var rest := slots[1..];
      assert slots[..k] == [slots[0]] + rest[..k - 1];
      assert slots[..k][1..] == rest[..k - 1];
      assert rest[k - 1] == slots[k];
      DecodeSlotAt(rest, b[w..], k - 1, off - w);
      SliceOfSuffix(b, w, off - w, off - w + slots[k].width, off, off + slots[k].width);
    }
  }

  /** Reading a layout made of two from bytes made of two: the first field
      is the first layout's, read from the first bytes' head. */
  lemma DecodeRecordHeadConcat(a: seq<Slot>, b: seq<Slot>, d1: seq<uint8>, d2: seq<uint8>)
    requires |a| > 0 && |d1| == Width(a) && |d2| == Width(b)
    ensures Width(a + b) == |d1 + d2| && a[0].width <= |d1|
    ensures |d1[a[0].width..]| == Width(a[1..]) && |d1[a[0].width..] + d2| == Width(a[1..] + b)
    ensures DecodeRecord(a + b, d1 + d2)
         == [DecodeValue(a[0], d1[..a[0].width])] + DecodeRecord(a[1..] + b, d1[a[0].width..] + d2)
  {
    var w := a[0].width;
    var s, d := a + b, d1 + d2;
    WidthAppend(a, b);
    WidthAppend(a[1..], b);
    assert s[0] == a[0] && s[1..] == a[1..] + b;
    assert d[..w] == d1[..w] && d[w..] == d1[w..] + d2;
    var x, t := DecodeValue(a[0], d1[..w]), DecodeRecord(a[1..] + b, d1[w..] + d2);
    assert DecodeValue(s[0], d[..s[0].width]) == x;
    assert DecodeRecord(s[1..], d[s[0].width..]) == t;
    DecodeRecordUnfold(s, d);
  }

  /** The inductive step of `DecodeRecordConcat`: once the layouts after
      the first field split, the whole does. */
  lemma DecodeRecordConcatStep(a: seq<Slot>, b: seq<Slot>, d1: seq<uint8>, d2: seq<uint8>)
    requires |a| > 0 && |d1| == Width(a) && |d2| == Width(b)
    requires a[0].width <= |d1| && |d1[a[0].width..]| == Width(a[1..]) && |d1[a[0].width..] + d2| == Width(a[1..] + b)
    requires DecodeRecord(a[1..] + b, d1[a[0].width..] + d2)
          == DecodeRecord(a[1..], d1[a[0].width..]) + DecodeRecord(b, d2)
    ensures Width(a + b) == |d1 + d2|
    ensures DecodeRecord(a + b, d1 + d2) == DecodeRecord(a, d1) + DecodeRecord(b, d2)
  {
    var w := a[0].width;
    var x := DecodeValue(a[0], d1[..w]);
    WidthAppend(a, b);
    var l, h, t, p, q := DecodeRecord(a + b, d1 + d2), DecodeRecord(a, d1),
                         DecodeRecord(a[1..] + b, d1[w..] + d2), DecodeRecord(a[1..], d1[w..]),
                         DecodeRecord(b, d2);
    assert h == [x] + p by { DecodeRecordUnfold(a, d1); }
    assert l == [x] + t by { DecodeRecordHeadConcat(a, b, d1, d2); }
    Regroup(l, h, x, t, p, q);
  }

  /** Reading two layouts one after the other from their bytes one after
      the other is reading each from its own bytes. */
  lemma {:induction false} DecodeRecordConcat(a: seq<Slot>, b: seq<Slot>, d1: seq<uint8>, d2: seq<uint8>)
    requires |d1| == Width(a) && |d2| == Width(b)
    ensures Width(a + b) == |d1 + d2|
    ensures DecodeRecord(a + b, d1 + d2) == DecodeRecord(a, d1) + DecodeRecord(b, d2)
  {
    WidthAppend(a, b);
    if |a| == 0 {
      assert a + b == b && d1 + d2 == d2;
      assert DecodeRecord(a, d1) == [];
    } else {
      var w := a[0].width;
      DecodeRecordHeadConcat(a, b, d1, d2);
      DecodeRecordConcat(a[1..], b, d1[w..], d2);
      DecodeRecordConcatStep(a, b, d1, d2);
    }
  }

  /** Reading two layouts one after the other, from the window `lo .. hi`
      of a byte string, is reading the first from its own bytes, then the
      second from the bytes after them. */
  lemma DecodeRecordSplit(a: seq<Slot>, b: seq<Slot>, c: seq<uint8>, lo: nat, mid: nat, hi: nat)
    requires lo <= mid <= hi <= |c| && mid - lo == Width(a) && hi - mid == Width(b)
    ensures Width(a + b) == hi - lo
    ensures DecodeRecord(a + b, c[lo..hi]) == DecodeRecord(a, c[lo..mid]) + DecodeRecord(b, c[mid..hi])
  {
    assert c[lo..hi] == c[lo..mid] + c[mid..hi];
    DecodeRecordConcat(a, b, c[lo..mid], c[mid..hi]);
  }

  /** The same, for three layouts one after another. */
  lemma DecodeRecordThree(a: seq<Slot>, b: seq<Slot>, m: seq<Slot>, c: seq<uint8>, i: nat, j: nat)
    requires i == Width(a) && j == i + Width(b) && |c| == j + Width(m)
    ensures Width(a + b + m) == |c|
    ensures DecodeRecord(a + b + m, c) == DecodeRecord(a, c[0..i]) + DecodeRecord(b, c[i..j]) + DecodeRecord(m, c[j..|c|])
  {
    DecodeRecordSplit(a, b, c, 0, i, j);
    DecodeRecordSplit(a + b, m, c, 0, j, |c|);
    assert c[0..|c|] == c;
  }

  /** Three 8-byte words at fields `k .. k + 2` read from the three words
      after offset `off`. */
  lemma DecodeWordsAt(slots: seq<Slot>, b: seq<uint8>, k: nat, off: nat)
    requires |b| == Width(slots) && k + 3 <= |slots| && off == Width(slots[..k])
    requires slots[k] == Word(8) && slots[k + 1] == Word(8) && slots[k + 2] == Word(8)
    ensures off + 24 <= |b|
    ensures DecodeRecord(slots, b)[k] == Num(FromLittleEndian(b[off..off + 8]))
    ensures DecodeRecord(slots, b)[k + 1] == Num(FromLittleEndian(b[off + 8..off + 16]))
    ensures DecodeRecord(slots, b)[k + 2] == Num(FromLittleEndian(b[off + 16..off + 24]))
  {
    WidthSnoc(slots, k);
    WidthSnoc(slots, k + 1);
    DecodeSlotAt(slots, b, k, off);
    DecodeSlotAt(slots, b, k + 1, off + 8);
    DecodeSlotAt(slots, b, k + 2, off + 16);
  }

  /** Word `k` of a record of `n` words of `w` bytes fills bytes
      `w k .. w k + w`. */
  lemma WordAtProduct(n: nat, w: nat, vals: seq<Value>, k: nat)
    requires EncodableAll(Words(n, w), vals) && k < n
    ensures Encodable(Word(w), vals[k])
    ensures w * k + w <= |EncodeRecord(Words(n, w), vals)|
    ensures EncodeRecord(Words(n, w), vals)[w * k..w * k + w] == EncodeValue(Word(w), vals[k])
  {
    WordsPrefix(n, k, w);
    WordsWidth(k, w);
    SlotAt(Words(n, w), vals, k, w * k);
  }

  predicate AllEncodable(slots: seq<Slot>, rows: seq<seq<Value>>)
  {
    forall i :: 0 <= i < |rows| ==> EncodableAll(slots, rows[i])
  }

  predicate AllConform(slots: seq<Slot>, rows: seq<seq<Value>>)
  {
    forall i :: 0 <= i < |rows| ==> Conforms(slots, rows[i])
  }

  /** Bytes taken by `n` records of `w` bytes each. Kept as a recursion
      rather than `n * w` so that the array proofs stay linear. */
  function Stride(n: nat, w: nat): nat
  {
    if n == 0 then 0 else w + Stride(n - 1, w)
  }

  lemma {:induction false} StrideIsProduct(n: nat, w: nat)
    ensures Stride(n, w) == n * w
  {
    if n > 0 {
      StrideIsProduct(n - 1, w);
      assert (n - 1) * w + w == n * w;
    }
  }

  /** An array of records sharing one layout, stored back to back. */
  function EncodeRows(slots: seq<Slot>, rows: seq<seq<Value>>): (r: seq<uint8>)
    requires AllEncodable(slots, rows)
    ensures |r| == Stride(|rows|, Width(slots))
  {
    if |rows| == 0 then []
    else EncodeRecord(slots, rows[0]) + EncodeRows(slots, rows[1..])
  }

  /** The `n` records of an array of exactly `n` records' bytes. */
  function DecodeRows(slots: seq<Slot>, b: seq<uint8>, n: nat): (r: seq<seq<Value>>)
    requires |b| == Stride(n, Width(slots))
    ensures |r| == n
    ensures AllConform(slots, r)
  {
    var w := Width(slots);
    if n == 0 then []
    else [DecodeRecord(slots, b[..w])] + DecodeRows(slots, b[w..], n - 1)
  }

  /** Record `i` of an array occupies the `i`-th stride of its bytes. */
  lemma {:induction false} RowAtStride(slots: seq<Slot>, rows: seq<seq<Value>>, i: nat)
    requires AllEncodable(slots, rows) && i < |rows|
    ensures Stride(i + 1, Width(slots)) <= |EncodeRows(slots, rows)|
    ensures EncodeRows(slots, rows)[Stride(i, Width(slots))..Stride(i + 1, Width(slots))]
         == EncodeRecord(slots, rows[i])
  {
    var w := Width(slots);
    var tail := EncodeRows(slots, rows[1..]);
    EncodeRowsUnfold(slots, rows);
    if i > 0 {
      RowAtStride(slots, rows[1..], i - 1);
      SliceAfter(EncodeRecord(slots, rows[0]), tail, Stride(i - 1, w), Stride(i, w));
    }
  }

  /** Row `i` of an array of `w`-byte rows fills bytes `w i .. w i + w`. */
  lemma RowAtProduct(slots: seq<Slot>, rows: seq<seq<Value>>, i: nat, w: nat)
    requires AllEncodable(slots, rows) && i < |rows| && w == Width(slots)
    ensures w * i + w <= |EncodeRows(slots, rows)|
    ensures EncodeRows(slots, rows)[w * i..w * i + w] == EncodeRecord(slots, rows[i])
  {
    RowAtStride(slots, rows, i);
    assert Stride(i, w) == w * i && Stride(i + 1, w) == w * i + w by {
      StrideIsProduct(i, w);
    }
  }

  lemma AllConformEncodable(slots: seq<Slot>, rows: seq<seq<Value>>)
    requires AllConform(slots, rows)
    ensures AllEncodable(slots, rows)
  {
    forall i | 0 <= i < |rows| ensures EncodableAll(slots, rows[i]) {
      assert Conforms(slots, rows[i]);
    }
  }

  /** The bytes of an array are its first record's bytes, then the rest. */
  lemma EncodeRowsUnfold(slots: seq<Slot>, rows: seq<seq<Value>>)
    requires AllEncodable(slots, rows) && |rows| > 0
    ensures AllEncodable(slots, rows[1..])
    ensures EncodeRows(slots, rows) == EncodeRecord(slots, rows[0]) + EncodeRows(slots, rows[1..])
  {
    forall i | 0 <= i < |rows| - 1 ensures EncodableAll(slots, rows[1..][i]) {
      assert rows[1..][i] == rows[i + 1];
    }
  }

  /** The records read from an array are the first record, then the rest. */
  lemma DecodeRowsUnfold(slots: seq<Slot>, b: seq<uint8>, n: nat)
    requires |b| == Stride(n, Width(slots)) && n > 0
    ensures Width(slots) <= |b| && |b[Width(slots)..]| == Stride(n - 1, Width(slots))
    ensures DecodeRows(slots, b, n)
         == [DecodeRecord(slots, b[..Width(slots)])] + DecodeRows(slots, b[Width(slots)..], n - 1)
  {
  }

  lemma AllConformTail(slots: seq<Slot>, rows: seq<seq<Value>>)
    requires AllConform(slots, rows) && |rows| > 0
    ensures Conforms(slots, rows[0]) && AllConform(slots, rows[1..])
  {
    forall i | 0 <= i < |rows| - 1 ensures Conforms(slots, rows[1..][i]) {
      assert rows[1..][i] == rows[i + 1];
    }
  }

  lemma {:induction false} RowsRoundTrip(slots: seq<Slot>, rows: seq<seq<Value>>)
    requires AllConform(slots, rows)
    ensures DecodeRows(slots, EncodeRows(slots, rows), |rows|) == rows
  {
    if |rows| > 0 {
      AllConformEncodable(slots, rows);
      AllConformTail(slots, rows);
      EncodeRowsUnfold(slots, rows);
      var head := EncodeRecord(slots, rows[0]);
      var tail := EncodeRows(slots, rows[1..]);
      AppendParts(head, tail);
      RecordRoundTrip(slots, rows[0]);
      RowsRoundTrip(slots, rows[1..]);
      DecodeRowsUnfold(slots, head + tail, |rows|);
      HeadTail(rows);
    }
  }

  lemma {:induction false} RowsBytesRoundTrip(slots: seq<Slot>, b: seq<uint8>, n: nat)
    requires Verbatim(slots) && |b| == Stride(n, Width(slots))
    ensures EncodeRows(slots, DecodeRows(slots, b, n)) == b
  {
    var w := Width(slots);
    if n > 0 {
      var rows := DecodeRows(slots, b, n);
      DecodeRowsUnfold(slots, b, n);
      var head := DecodeRecord(slots, b[..w]);
      var tail := DecodeRows(slots, b[w..], n - 1);
      assert rows[0] == head && rows[1..] == tail;
      AllConformEncodable(slots, rows);
      EncodeRowsUnfold(slots, rows);
      RecordBytesRoundTrip(slots, b[..w]);
      RowsBytesRoundTrip(slots, b[w..], n - 1);
      TakeDrop(b, w);
    }
  }

  /** Appending a record to an array appends exactly its bytes. */
  lemma {:induction false} EncodeRowsAppend(slots: seq<Slot>, rows: seq<seq<Value>>, row: seq<Value>)
    requires AllEncodable(slots, rows) && EncodableAll(slots, row)
    ensures EncodeRows(slots, rows + [row]) == EncodeRows(slots, rows) + EncodeRecord(slots, row)
  {
    var all := rows + [row];
    if |rows| > 0 {
      assert all[1..] == rows[1..] + [row];
      EncodeRowsAppend(slots, rows[1..], row);
    } else {
      assert all[1..] == [];
    }
  }
}
