/** Fixed-width machine integers, little-endian byte order, two's complement
    32-bit integers and NUL-padded fixed-width text: the primitives every
    record of the LAS/LAZ metadata layer is built from.
 */
module Bytes {

  type uint8 = x: int | 0 <= x < 0x100
  type uint16 = x: int | 0 <= x < 0x1_0000
  type uint32 = x: int | 0 <= x < 0x1_0000_0000
  type uint64 = x: int | 0 <= x < 0x1_0000_0000_0000_0000
  type int32 = x: int | -0x8000_0000 <= x < 0x8000_0000

  /** The IEEE-754 bit pattern of a `double`. The metadata layer never does
      arithmetic on these values, it only moves them, so the pattern is all
      that is kept. */
  type Float64Bits = uint64

  /** 256 to the power `w`: one more than the largest `w`-byte unsigned value. */
  function Pow256(w: nat): (r: nat)
    ensures r > 0
  {
    if w == 0 then 1 else 256 * Pow256(w - 1)
  }

  lemma Pow256Widths()
    ensures Pow256(1) == 0x100
    ensures Pow256(2) == 0x1_0000
    ensures Pow256(4) == 0x1_0000_0000
    ensures Pow256(8) == 0x1_0000_0000_0000_0000
  {
  }

  /** The `w` bytes of `n`, least significant first. */
  function LittleEndian(n: nat, w: nat): (r: seq<uint8>)
    requires n < Pow256(w)
    ensures |r| == w
  {
    if w == 0 then [] else [n % 256] + LittleEndian(n / 256, w - 1)
  }

  /** A one-byte word is the byte itself. */
  lemma SingleByte(n: uint8)
    ensures n < Pow256(1) && LittleEndian(n, 1) == [n]
  {
    Pow256Widths();
    assert LittleEndian(n, 1) == [n % 256] + LittleEndian(n / 256, 0);
  }

  /** The unsigned value of a little-endian byte string. */
  function FromLittleEndian(b: seq<uint8>): (n: nat)
    ensures n < Pow256(|b|)
  {
    if |b| == 0 then 0 else b[0] + 256 * FromLittleEndian(b[1..])
  }

  /** Sequence facts, proved here away from any other hypotheses. */
  lemma ConsAppend<T>(a: seq<T>, b: seq<T>)
    requires |a| > 0
    ensures a + b == [a[0]] + (a[1..] + b)
  {
  }

  lemma HeadTail<T>(s: seq<T>)
    requires |s| > 0
    ensures [s[0]] + s[1..] == s
  {
  }

  lemma AppendParts<T>(a: seq<T>, b: seq<T>)
    ensures (a + b)[..|a|] == a && (a + b)[|a|..] == b
  {
  }

  lemma TakeDrop<T>(s: seq<T>, k: nat)
    requires k <= |s|
    ensures s[..k] + s[k..] == s
  {
  }

  /** Reduction modulo `m` leaves numbers below `m` alone. */
  lemma ModBelow(n: nat, m: nat)
    requires m > 0
    ensures 0 <= n % m < m
    ensures n < m ==> n % m == n
  {
  }

  lemma TakeOfTake<T>(s: seq<T>, k: nat, j: nat)
    requires j <= k <= |s|
    ensures s[..k][..j] == s[..j]
  {
  }

  lemma DropOfTake<T>(s: seq<T>, k: nat, j: nat)
    requires j <= k <= |s|
    ensures s[..k][j..] == s[j..k]
  {
  }

  lemma AppendAssoc<T>(a: seq<T>, b: seq<T>, c: seq<T>)
    ensures a + (b + c) == (a + b) + c
  {
  }

  /** A sequence that starts with `x` followed by `p + q` is the sequence
      `[x] + p`, then `q`. */
  lemma Regroup<T>(whole: seq<T>, head: seq<T>, x: T, tail: seq<T>, p: seq<T>, q: seq<T>)
    requires whole == [x] + tail && tail == p + q && head == [x] + p
    ensures whole == head + q
  {
    AppendAssoc([x], p, q);
  }

  /** The middle part of a three-part sequence, found at its offset. */
  lemma MiddleSlice<T>(p: seq<T>, e: seq<T>, r: seq<T>)
    ensures (p + (e + r))[|p|..|p| + |e|] == e
  {
    assert (p + (e + r))[|p|..] == e + r;
  }

  /** A one-byte string reads as its byte. */
  lemma FromSingleByte(b: seq<uint8>)
    requires |b| == 1
    ensures FromLittleEndian(b) == b[0]
  {
    assert b[1..] == [];
  }

  /** Two adjacent windows joined are the window spanning both. */
  lemma SliceJoin<T>(s: seq<T>, a: nat, b: nat, c: nat)
    requires a <= b <= c <= |s|
    ensures s[a..b] + s[b..c] == s[a..c]
  {
  }

  /** A window of a window is a window of the whole. */
  lemma SliceOfSlice<T>(s: seq<T>, a: nat, b: nat, lo: nat, hi: nat, x: nat, y: nat)
    requires a <= b <= |s| && lo <= hi <= b - a && x == a + lo && y == a + hi
    ensures s[a..b][lo..hi] == s[x..y]
  {
    assert forall k :: 0 <= k < hi - lo ==> s[a..b][lo..hi][k] == s[x..y][k];
  }

  /** A window of a suffix is the window shifted by the suffix's start. */
  lemma SliceOfSuffix<T>(s: seq<T>, k: nat, a: nat, c: nat, lo: nat, hi: nat)
    requires a <= c && k + c <= |s| && lo == k + a && hi == k + c
    ensures s[k..][a..c] == s[lo..hi]
  {
  }

  lemma {:induction false} FromToLittleEndian(n: nat, w: nat)
    requires n < Pow256(w)
    ensures FromLittleEndian(LittleEndian(n, w)) == n
  {
    if w > 0 {
      var b := LittleEndian(n, w);
      assert b[1..] == LittleEndian(n / 256, w - 1);
      FromToLittleEndian(n / 256, w - 1);
    }
  }

  lemma {:induction false} ToFromLittleEndian(b: seq<uint8>)
    ensures LittleEndian(FromLittleEndian(b), |b|) == b
  {
    if |b| > 0 {
      var n := FromLittleEndian(b);
      assert n % 256 == b[0] && n / 256 == FromLittleEndian(b[1..]);
      ToFromLittleEndian(b[1..]);
    }
  }

  /** The two's complement bit pattern of a 32-bit signed integer: the
      unique 32-bit unsigned value congruent to it modulo 2^32. */
  function Int32Bits(v: int32): (u: uint32)
    ensures (u - v) % 0x1_0000_0000 == 0
  {
    if v < 0 then v + 0x1_0000_0000 else v
  }

  /** The signed 32-bit integer whose two's complement pattern is `u`. */
  function Int32FromBits(u: uint32): (v: int32)
    ensures (u - v) % 0x1_0000_0000 == 0
  {
    if u < 0x8000_0000 then u else u - 0x1_0000_0000
  }

  lemma Int32BitsRoundTrip(v: int32, u: uint32)
    ensures Int32FromBits(Int32Bits(v)) == v
    ensures Int32Bits(Int32FromBits(u)) == u
  {
  }

  /** Text that survives a fixed-width field of `w` bytes: it fits, and it
      holds no NUL, which the decoder would take for the end of the text. */
  predicate IsText(s: seq<uint8>, w: nat)
  {
    |s| <= w && 0 !in s
  }

  function Zeros(n: nat): (r: seq<uint8>)
    ensures |r| == n
    ensures forall i :: 0 <= i < n ==> r[i] == 0
  {
    seq(n, _ => 0)
  }

  /** The `w`-byte field holding `s`: its first `w` bytes, NUL-padded when
      it is shorter. */
  function PadText(s: seq<uint8>, w: nat): (r: seq<uint8>)
    ensures |r| == w
    ensures |s| <= w ==> r[..|s|] == s
    ensures |s| > w ==> r == s[..w]
    ensures forall i :: |s| <= i < w ==> r[i] == 0
  {
    if |s| >= w then s[..w] else s + Zeros(w - |s|)
  }

  /** The text stored in a fixed-width field: everything before the first
      NUL, or the whole field when it holds none. */
  function TrimText(b: seq<uint8>): (r: seq<uint8>)
    ensures |r| <= |b| && r == b[..|r|]
    ensures 0 !in r
    ensures |r| < |b| ==> b[|r|] == 0
  {
    if |b| == 0 || b[0] == 0 then [] else [b[0]] + TrimText(b[1..])
  }

  /** Trimming stops exactly where a NUL-free prefix is followed by a NUL
      or by the end of the field. */
  lemma TrimTextAt(b: seq<uint8>, s: seq<uint8>)
    requires |s| <= |b| && b[..|s|] == s && 0 !in s
    requires |s| < |b| ==> b[|s|] == 0
    ensures TrimText(b) == s
  {
  }

  /** Padding then trimming gives the text back exactly when it is valid
      text for the field. */
  lemma TextRoundTrip(s: seq<uint8>, w: nat)
    ensures TrimText(PadText(s, w)) == s <==> IsText(s, w)
  {
    if IsText(s, w) {
      TrimTextAt(PadText(s, w), s);
    }
  }
}
