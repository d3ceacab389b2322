/** Bytes, the bitwise operations on them, and the 16-bit words that length headers are made of. */
module Bytes {
  type byte = x: int | 0 <= x < 256
  type bytes = seq<byte>

  function Pow2(n: nat): (r: nat)
    ensures r >= 1
  {
    if n == 0 then 1 else 2 * Pow2(n - 1)
  }

  /** Exclusive or of the lowest n bits. */
  function XorBits(a: nat, b: nat, n: nat): (r: nat)
    ensures r < Pow2(n)
  {
    if n == 0 then 0 else 2 * XorBits(a / 2, b / 2, n - 1) + (a % 2 + b % 2) % 2
  }

  /** Inclusive or of the lowest n bits. */
  function OrBits(a: nat, b: nat, n: nat): (r: nat)
    ensures r < Pow2(n)
  {
    if n == 0 then 0 else 2 * OrBits(a / 2, b / 2, n - 1) + (if a % 2 + b % 2 == 0 then 0 else 1)
  }

  function XorByte(a: byte, b: byte): byte {
    assert Pow2(8) == 256;
    XorBits(a, b, 8)
  }

  function OrByte(a: byte, b: byte): byte {
    assert Pow2(8) == 256;
    OrBits(a, b, 8)
  }

  lemma Halves(x: nat, t: nat)
    requires t < 2
    ensures (2 * x + t) / 2 == x && (2 * x + t) % 2 == t
  {
  }

  lemma XorLow(a: nat, b: nat)
    ensures ((a % 2 + b % 2) % 2 + b % 2) % 2 == a % 2
  {
  }

  lemma {:induction false} XorBitsTwice(a: nat, b: nat, n: nat)
    requires a < Pow2(n)
    ensures XorBits(XorBits(a, b, n), b, n) == a
  {
    if n > 0 {
      XorLow(a, b);
      Halves(XorBits(a / 2, b / 2, n - 1), (a % 2 + b % 2) % 2);
      XorBitsTwice(a / 2, b / 2, n - 1);
    }
  }

  lemma XorByteTwice(a: byte, b: byte)
    ensures XorByte(XorByte(a, b), b) == a
  {
    assert Pow2(8) == 256;
    XorBitsTwice(a, b, 8);
  }

  lemma {:induction false} OrBitsZero(a: nat, n: nat)
    requires a < Pow2(n)
    ensures OrBits(a, 0, n) == a
  {
    if n > 0 {
      OrBitsZero(a / 2, n - 1);
    }
  }

  lemma OrShift(a: nat, b: nat, n: nat)
    ensures OrBits(2 * a, b, n + 1) == 2 * OrBits(a, b / 2, n) + b % 2
  {
  }

  /** Two nibbles put together. */
  lemma OrNibbles(high: nat, low: nat)
    requires high < 16 && low < 16
    ensures OrByte(16 * high, low) == 16 * high + low
  {
    hide OrBits;
    OrShift(8 * high, low, 7);
    OrShift(4 * high, low / 2, 6);
    OrShift(2 * high, low / 4, 5);
    OrShift(high, low / 8, 4);
    assert Pow2(4) == 16;
    OrBitsZero(high, 4);
    hide Pow2;
  }

  /** htons: the two bytes of n % 65536, high byte first. */
  function Word(n: nat): (r: bytes)
    ensures |r| == 2
  {
    [n / 256 % 256, n % 256]
  }

  /** ntohs */
  function Value(w: bytes): (n: nat)
    requires |w| == 2
    ensures n < 65536
  {
    var high: int := w[0];
    high * 256 + w[1]
  }

  lemma WordValue(n: nat)
    ensures Value(Word(n)) == n % 65536
  {
    assert n == n / 256 / 256 * 65536 + (n / 256 % 256 * 256 + n % 256);
  }

  lemma SliceOfSlice(s: bytes, lo: nat, hi: nat, i: nat, j: nat)
    requires lo <= hi <= |s| && i <= j <= hi - lo
    ensures s[lo..hi][i..j] == s[lo + i..lo + j]
  {
    forall k | 0 <= k < j - i ensures s[lo..hi][i..j][k] == s[lo + i..lo + j][k] {
      assert s[lo..hi][i..j][k] == s[lo..hi][i + k];
    }
  }

  lemma SplitSlice(s: bytes, lo: nat, mid: nat, hi: nat)
    requires lo <= mid <= hi <= |s|
    ensures s[lo..hi] == s[lo..mid] + s[mid..hi]
  {
  }
}
