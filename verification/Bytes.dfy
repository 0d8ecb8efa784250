/** Bytes, little-endian words inside byte sequences, and packed bitmaps. */
module Bytes {

  type byte = x: int | 0 <= x < 0x100
  type u32 = x: int | 0 <= x < 0x1_0000_0000

  // ---- little-endian 32-bit words -------------------------------------------------

  /** The word stored in s[off..off+4], least significant byte first. */
  function GetWord(s: seq<byte>, off: nat): (w: u32)
    requires off + 4 <= |s|
  {
    var (b0: int, b1: int, b2: int, b3: int) := (s[off], s[off + 1], s[off + 2], s[off + 3]);
    b0 + 0x100 * b1 + 0x1_0000 * b2 + 0x100_0000 * b3
  }

  function WordBytes(w: u32): (r: seq<byte>)
    ensures |r| == 4
  {
    [w % 0x100, w / 0x100 % 0x100, w / 0x100 / 0x100 % 0x100, w / 0x100 / 0x100 / 0x100]
  }

  /** s with the word w stored at s[off..off+4]. */
  function PutWord(s: seq<byte>, off: nat, w: u32): (r: seq<byte>)
    requires off + 4 <= |s|
    ensures |r| == |s|
    ensures GetWord(r, off) == w
    ensures forall k :: 0 <= k < |s| && !(off <= k < off + 4) ==> r[k] == s[k]
  {
    s[..off] + WordBytes(w) + s[off + 4..]
  }

  /** Storing one word leaves every non-overlapping word alone. */
  lemma PutWordElsewhere(s: seq<byte>, off: nat, w: u32, other: nat)
    requires off + 4 <= |s| && other + 4 <= |s|
    requires other + 4 <= off || off + 4 <= other
    ensures GetWord(PutWord(s, off, w), other) == GetWord(s, other)
  {
  }

  /** Four bytes that are a word's, wherever they lie, read as that word. */
  lemma WordAt(s: seq<byte>, off: nat, w: u32)
    requires off + 4 <= |s| && s[off..off + 4] == WordBytes(w)
    ensures GetWord(s, off) == w
  {
    assert PutWord(s, off, w) == s by {
      assert s == s[..off] + s[off..off + 4] + s[off + 4..];
    }
  }

  /** Little-endian: the k-th byte of a word is its k-th digit to base 256. */
  lemma LittleEndian(s: seq<byte>, off: nat)
    requires off + 4 <= |s|
    ensures var w := GetWord(s, off);
      && s[off] == w % 0x100 && s[off + 1] == w / 0x100 % 0x100
      && s[off + 2] == w / 0x1_0000 % 0x100 && s[off + 3] == w / 0x100_0000
  {
    var a: int, b: int, c: int, d: int := s[off], s[off + 1], s[off + 2], s[off + 3];
    var w := GetWord(s, off);
    assert w == a + 0x100 * (b + 0x100 * (c + 0x100 * d));
    assert w / 0x100 == b + 0x100 * (c + 0x100 * d);
    assert w / 0x1_0000 == c + 0x100 * d;
    assert w / 0x100_0000 == d;
  }

  // ---- packed bitmaps ---------------------------------------------------------------

  function Pow2(n: nat): (p: nat)
    ensures p > 0
  {
    if n == 0 then 1 else 2 * Pow2(n - 1)
  }

  /** x & (1 << k) */
  predicate BitOf(x: nat, k: nat) {
    if k == 0 then x % 2 == 1 else BitOf(x / 2, k - 1)
  }

  /** The number whose lowest bit is low and whose other bits are high. */
  function Joined(low: bool, high: nat): (r: nat)
    ensures r % 2 == (if low then 1 else 0) && r / 2 == high
  {
    2 * high + (if low then 1 else 0)
  }

  /** Bits k to n - 1 of x, bit k as the lowest. */
  function Upper(x: nat, k: nat, n: nat): nat
    requires k <= n
    decreases n - k
  {
    if k == n then 0 else (if BitOf(x, k) then 1 else 0) + 2 * Upper(x, k + 1, n)
  }

  lemma {:induction false} UpperOfHalf(x: nat, k: nat, n: nat)
    requires k <= n
    ensures Upper(x, k + 1, n + 1) == Upper(x / 2, k, n)
    decreases n - k
  {
    if k < n {
      UpperOfHalf(x, k + 1, n);
    }
  }

  lemma {:induction false} AllBits(x: nat, n: nat)
    requires x < Pow2(n)
    ensures Upper(x, 0, n) == x
  {
    if n > 0 {
      UpperOfHalf(x, 0, n - 1);
      HalfBound(x, Pow2(n - 1));
      AllBits(x / 2, n - 1);
    }
  }

  lemma TwoBits(x: nat, k: nat, n: nat)
    requires k + 2 <= n
    ensures Upper(x, k, n) == (if BitOf(x, k) then 1 else 0) + (if BitOf(x, k + 1) then 2 else 0) + 4 * Upper(x, k + 2, n)
    ensures Upper(x, n, n) == 0
  {
    hide BitOf;
  }

  /** Bit k of a byte has the weight 2^k. */
  lemma BitWeights(x: byte)
    ensures x ==
      (if BitOf(x, 0) then 1 else 0) + (if BitOf(x, 1) then 2 else 0) + (if BitOf(x, 2) then 4 else 0) + (if BitOf(x, 3) then 8 else 0) +
      (if BitOf(x, 4) then 16 else 0) + (if BitOf(x, 5) then 32 else 0) + (if BitOf(x, 6) then 64 else 0) + (if BitOf(x, 7) then 128 else 0)
  {
    hide BitOf, Upper;
    AllBits(x, 8);
    TwoBits(x, 6, 8);
    TwoBits(x, 4, 8);
    TwoBits(x, 2, 8);
    TwoBits(x, 0, 8);
  }

  /** x with bit k set (v) or cleared (!v): x | (1 << k) and x & ~(1 << k). */
  function PutBit(x: nat, k: nat, v: bool): (r: nat)
    ensures BitOf(r, k) == v
  {
    if k == 0 then Joined(v, x / 2) else Joined(x % 2 == 1, PutBit(x / 2, k - 1, v))
  }

  lemma {:induction false} PutBitElsewhere(x: nat, k: nat, v: bool, j: nat)
    requires j != k
    ensures BitOf(PutBit(x, k, v), j) == BitOf(x, j)
  {
    if k != 0 && j != 0 {
      PutBitElsewhere(x / 2, k - 1, v, j - 1);
    }
  }

  lemma {:induction false} PutBitBound(x: nat, k: nat, v: bool, n: nat)
    requires x < Pow2(n) && k < n
    ensures PutBit(x, k, v) < Pow2(n)
  {
    HalfBound(x, Pow2(n - 1));
    HalfBound(PutBit(x, k, v), Pow2(n - 1));
    hide Joined, BitOf;
    if k != 0 {
      PutBitBound(x / 2, k - 1, v, n - 1);
    }
  }

  lemma HalfBound(x: nat, p: nat)
    ensures x / 2 < p <==> x < 2 * p
  {
  }

  /** A number below 2^n is determined by its low n bits. */
  lemma {:induction false} BitsDetermine(x: nat, y: nat, n: nat)
    requires x < Pow2(n) && y < Pow2(n)
    requires forall j :: 0 <= j < n ==> BitOf(x, j) == BitOf(y, j)
    ensures x == y
  {
    if n != 0 {
      assert BitOf(x, 0) == BitOf(y, 0);
      forall j | 0 <= j < n - 1 ensures BitOf(x / 2, j) == BitOf(y / 2, j) {
        assert BitOf(x, j + 1) == BitOf(y, j + 1);
      }
      BitsDetermine(x / 2, y / 2, n - 1);
    }
  }

  function ByteWith(x: byte, k: nat, v: bool): (r: byte)
    requires k < 8
    ensures forall j :: 0 <= j < 8 ==> BitOf(r, j) == if j == k then v else BitOf(x, j)
  {
    PutBitBound(x, k, v, 8);
    assert forall j | 0 <= j < 8 && j != k :: BitOf(PutBit(x, k, v), j) == BitOf(x, j) by {
      forall j | 0 <= j < 8 && j != k ensures BitOf(PutBit(x, k, v), j) == BitOf(x, j) {
        PutBitElsewhere(x, k, v, j);
      }
    }
    PutBit(x, k, v)
  }

  /** Bit f of the bitmap, as the kernel's `map[f / 8] & (1 << (f % 8))`. */
  predicate Marked(bits: seq<byte>, f: nat)
    requires f / 8 < |bits|
  {
    BitOf(bits[f / 8], f % 8)
  }

  function Mark(bits: seq<byte>, f: nat): (r: seq<byte>)
    requires f / 8 < |bits|
    ensures |r| == |bits|
    ensures forall g: nat :: g / 8 < |bits| ==> Marked(r, g) == (g == f || Marked(bits, g))
  {
    bits[f / 8 := ByteWith(bits[f / 8], f % 8, true)]
  }

  function Unmark(bits: seq<byte>, f: nat): (r: seq<byte>)
    requires f / 8 < |bits|
    ensures |r| == |bits|
    ensures forall g: nat :: g / 8 < |bits| ==> Marked(r, g) == (g != f && Marked(bits, g))
  {
    bits[f / 8 := ByteWith(bits[f / 8], f % 8, false)]
  }

  /** A bitmap is determined by its bits. */
  lemma BitsDetermineMap(a: seq<byte>, b: seq<byte>)
    requires |a| == |b|
    requires forall f: nat :: f / 8 < |a| ==> Marked(a, f) == Marked(b, f)
    ensures a == b
  {
    forall k | 0 <= k < |a| ensures a[k] == b[k] {
      forall j | 0 <= j < 8 ensures BitOf(a[k], j) == BitOf(b[k], j) {
        assert Marked(a, 8 * k + j) == Marked(b, 8 * k + j);
      }
      BitsDetermine(a[k], b[k], 8);
    }
  }

  /** Clearing a bit that was just set restores the bitmap. */
  lemma UnmarkMark(bits: seq<byte>, f: nat)
    requires f / 8 < |bits| && !Marked(bits, f)
    ensures Unmark(Mark(bits, f), f) == bits
  {
    BitsDetermineMap(Unmark(Mark(bits, f), f), bits);
  }
}
