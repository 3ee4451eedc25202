/** Byte buffers, Python slice semantics over them, and the 32-bit
    little-endian two's-complement integer that `struct.unpack("i", ...)`
    yields on a little-endian host. */
module Bytes {

  type Byte = x: int | 0 <= x < 256

  const MinInt32: int := -0x8000_0000
  const MaxInt32: int := 0x7FFF_FFFF

  /** Where a Python slice bound `i` lands in a sequence of length `n`:
      a negative bound counts from the end, and the result is clamped to [0, n]. */
  function Bound(i: int, n: nat): (k: nat)
    ensures k <= n
    ensures 0 <= i <= n ==> k == i
    ensures i > n ==> k == n
    ensures i < 0 ==> k == if n + i < 0 then 0 else n + i
  {
    if i < 0 then (if n + i < 0 then 0 else n + i)
    else if i > n then n
    else i
  }

  /** Python's `s[lo:hi]`: never fails, truncates at the end, wraps negative bounds. */
  function Slice<T>(s: seq<T>, lo: int, hi: int): (r: seq<T>)
    ensures |r| <= |s|
    ensures 0 <= lo <= hi <= |s| ==> r == s[lo..hi]
    ensures 0 <= lo <= |s| <= hi ==> r == s[lo..]
    ensures 0 <= hi <= lo ==> r == []
    ensures |s| <= lo ==> r == []
  {
    var a := Bound(lo, |s|);
    var b := Bound(hi, |s|);
    if a < b then s[a..b] else []
  }

  /** Python's `s[lo:]`: always a suffix of `s`. */
  function Drop<T>(s: seq<T>, lo: int): (r: seq<T>)
    ensures |r| <= |s| && r == s[|s| - |r|..]
    ensures 0 <= lo <= |s| ==> r == s[lo..]
    ensures lo == 0 ==> r == s
    ensures |s| <= lo ==> r == []
  {
    s[Bound(lo, |s|)..]
  }

  /** Dropping twice by non-negative amounts is dropping by their sum. */
  lemma DropDrop<T>(s: seq<T>, a: int, b: int)
    requires 0 <= a && 0 <= b
    ensures Drop(Drop(s, a), b) == Drop(s, a + b)
  {
    if a + b <= |s| {
      assert Drop(s, a) == s[a..];
      assert s[a..][b..] == s[a + b..];
    }
  }

  /** The unsigned value of four bytes, least significant first. */
  function LeUnsigned32(w: seq<Byte>): (u: int)
    requires |w| == 4
    ensures 0 <= u < 0x1_0000_0000
  {
    var b0: int, b1: int, b2: int, b3: int := w[0], w[1], w[2], w[3];
    b0 + 0x100 * (b1 + 0x100 * (b2 + 0x100 * b3))
  }

  /** `struct.unpack("i", w)[0]` on a little-endian host. */
  function LeSigned32(w: seq<Byte>): (v: int)
    requires |w| == 4
    ensures MinInt32 <= v <= MaxInt32
    ensures (v < 0) == (w[3] >= 0x80)
  {
    var u := LeUnsigned32(w);
    if u <= MaxInt32 then u else u - 0x1_0000_0000
  }

  /** The four bytes that `struct.pack("<i", v)` writes: the partner of LeSigned32. */
  function EncodeLe32(v: int): (w: seq<Byte>)
    requires MinInt32 <= v <= MaxInt32
    ensures |w| == 4
  {
    var u0 := if v < 0 then v + 0x1_0000_0000 else v;
    var u1 := u0 / 0x100;
    var u2 := u1 / 0x100;
    [u0 % 0x100, u1 % 0x100, u2 % 0x100, u2 / 0x100]
  }

  /** Splitting off the low byte of a non-negative number. */
  lemma LowByte(u: int)
    requires u >= 0
    ensures u == u % 0x100 + 0x100 * (u / 0x100)
  {
  }

  /** A low byte and the rest are recovered by `%` and `/`. */
  lemma JoinByte(r: int, q: int)
    requires 0 <= r < 0x100
    ensures (r + 0x100 * q) % 0x100 == r && (r + 0x100 * q) / 0x100 == q
  {
  }

  lemma DecodeEncodeLe32(v: int)
    requires MinInt32 <= v <= MaxInt32
    ensures LeSigned32(EncodeLe32(v)) == v
  {
    var u0 := if v < 0 then v + 0x1_0000_0000 else v;
    var u1 := u0 / 0x100;
    var u2 := u1 / 0x100;
    LowByte(u0);
    LowByte(u1);
    LowByte(u2);
    assert LeUnsigned32(EncodeLe32(v)) == u0;
  }

  lemma EncodeDecodeLe32(w: seq<Byte>)
    requires |w| == 4
    ensures EncodeLe32(LeSigned32(w)) == w
  {
    var b0: int, b1: int, b2: int, b3: int := w[0], w[1], w[2], w[3];
    var t2 := b2 + 0x100 * b3;
    var t1 := b1 + 0x100 * t2;
    var u := b0 + 0x100 * t1;
    assert LeUnsigned32(w) == u;
    JoinByte(b0, t1);
    JoinByte(b1, t2);
    JoinByte(b2, b3);
    assert EncodeLe32(LeSigned32(w)) == [b0, b1, b2, b3];
  }
}
