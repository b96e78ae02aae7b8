/** 8-bit samples and the alpha blend shared by the sticker overlay and the background composite. */
module Pixels {

  /** One channel of a uint8 image buffer. */
  type Byte = n: int | 0 <= n < 256

  function Min(a: int, b: int): int { if a <= b then a else b }

  function Max(a: int, b: int): int { if a <= b then b else a }

  /** Multiplying by a non-negative factor keeps the order of two integers. */
  lemma ScaleMonotone(k: nat, x: int, y: int)
    requires x <= y
    ensures k * x <= k * y
  {
    assert k * y - k * x == k * (y - x);
  }

  /** The weighted sum of the blend lies between 255 times the smaller and 255 times the larger sample. */
  lemma WeightedSumBounds(a: Byte, s: Byte, d: Byte)
    ensures 255 * Min(s, d) <= a * s + (255 - a) * d <= 255 * Max(s, d)
  {
    var lo, hi := Min(s, d), Max(s, d);
    ScaleMonotone(a, lo, s);
    ScaleMonotone(a, s, hi);
    ScaleMonotone(255 - a, lo, d);
    ScaleMonotone(255 - a, d, hi);
    assert a * lo + (255 - a) * lo == 255 * lo;
    assert a * hi + (255 - a) * hi == 255 * hi;
  }

  /** Dividing by 255 keeps a value that lies between 255*lo and 255*hi between lo and hi. */
  lemma QuotientBounds(n: int, lo: int, hi: int)
    requires 255 * lo <= n <= 255 * hi
    ensures lo <= n / 255 <= hi
  {
  }

  /**
   * Alpha blend of sample s over sample d with opacity a (0..255), on exact integers:
   * floor((a*s + (255-a)*d) / 255). The result never leaves the range spanned by the
   * two samples, full opacity gives s and zero opacity gives d.
   */
  function Blend(a: Byte, s: Byte, d: Byte): (r: Byte)
    ensures Min(s, d) <= r <= Max(s, d)
    ensures a == 255 ==> r == s
    ensures a == 0 ==> r == d
  {
    WeightedSumBounds(a, s, d);
    QuotientBounds(a * s + (255 - a) * d, Min(s, d), Max(s, d));
    (a * s + (255 - a) * d) / 255
  }

  /**
   * When the sticker sample is at least the base sample, a higher opacity never gives a
   * darker result: the blend moves from d towards s as a grows.
   */
  lemma BlendMonotoneInOpacity(a: Byte, b: Byte, s: Byte, d: Byte)
    requires a <= b && d <= s
    ensures Blend(a, s, d) <= Blend(b, s, d)
  {
    assert a * s + (255 - a) * d == 255 * d + a * (s - d);
    assert b * s + (255 - b) * d == 255 * d + b * (s - d);
    ScaleMonotone(s - d, a, b);
    assert (s - d) * a == a * (s - d) && (s - d) * b == b * (s - d);
  }
}
