/** The `Color` value of the quantizer and the bit addressing of the octree. */
module Colors {

  /** Tree depth: one bit of every 8-bit channel is consumed per level. */
  const MAX_DEPTH: nat := 8

  /** An RGBA colour with C++ `int` channels. Inside a node the same record is a
      running sum of pixel colours, so channels are not limited to 0..255. */
  datatype Color = Color(red: int, green: int, blue: int, alpha: int)

  /** The three-channel form of the `Color` constructor: alpha defaults to 1. */
  function Rgb(red: int, green: int, blue: int): Color
  {
    Color(red, green, blue, 1)
  }

  predicate IsByte(x: int)
  {
    0 <= x < 256
  }

  /** A genuine pixel colour: every channel fits in 8 bits. */
  predicate IsPixel(c: Color)
  {
    IsByte(c.red) && IsByte(c.green) && IsByte(c.blue)
  }

  /** Arithmetic right shift `x >> k` on a two's complement integer. */
  function Shift(x: int, k: nat): int
  {
    if k == 0 then x else Shift(x, k - 1) / 2
  }

  /** Bit `k` of `x` in two's complement, the bit that `x & (1 << k)` tests. */
  function Bit(x: int, k: nat): (b: nat)
    ensures b < 2
  {
    Shift(x, k) % 2
  }

  /** Whether `channel & (0x80 >> level)` is non-zero. From level 8 on the mask
      `0x80 >> level` is 0, so no bit is ever hit there. */
  predicate MaskHit(channel: int, level: nat)
  {
    level < MAX_DEPTH && Bit(channel, MAX_DEPTH - 1 - level) == 1
  }

  /** The child slot a colour falls into at `level`: red, green and blue
      contribute the weights 4, 2 and 1. */
  function ColorIndexForLevel(c: Color, level: nat): (index: nat)
    ensures index < 8
    ensures index / 4 == (if MaskHit(c.red, level) then 1 else 0)
    ensures index / 2 % 2 == (if MaskHit(c.green, level) then 1 else 0)
    ensures index % 2 == (if MaskHit(c.blue, level) then 1 else 0)
    ensures level >= MAX_DEPTH ==> index == 0
  {
    var r := if MaskHit(c.red, level) then 4 else 0;
    var g := if MaskHit(c.green, level) then 2 else 0;
    var b := if MaskHit(c.blue, level) then 1 else 0;
    r + g + b
  }

  /** The slot index is a faithful 3-bit code: two colours share a slot at a
      level exactly when they agree on the tested bit of all three channels. */
  lemma IndexCodesBits(c1: Color, c2: Color, level: nat)
    ensures ColorIndexForLevel(c1, level) == ColorIndexForLevel(c2, level) <==>
              ((MaskHit(c1.red, level) <==> MaskHit(c2.red, level))
               && (MaskHit(c1.green, level) <==> MaskHit(c2.green, level))
               && (MaskHit(c1.blue, level) <==> MaskHit(c2.blue, level)))
  {
    var i1, i2 := ColorIndexForLevel(c1, level), ColorIndexForLevel(c2, level);
    if (MaskHit(c1.red, level) <==> MaskHit(c2.red, level))
       && (MaskHit(c1.green, level) <==> MaskHit(c2.green, level))
       && (MaskHit(c1.blue, level) <==> MaskHit(c2.blue, level))
    {
      assert i1 == 4 * (i1 / 4) + 2 * (i1 / 2 % 2) + i1 % 2;
      assert i2 == 4 * (i2 / 4) + 2 * (i2 / 2 % 2) + i2 % 2;
    }
  }

  /** The top `k` bits of an 8-bit channel, `x >> (8 - k)`. */
  function TopBits(x: int, k: nat): int
    requires k <= MAX_DEPTH
  {
    Shift(x, MAX_DEPTH - k)
  }

  /** Two colours agree on the top `k` bits of every channel. */
  predicate SharePrefix(c1: Color, c2: Color, k: nat)
    requires k <= MAX_DEPTH
  {
    && TopBits(c1.red, k) == TopBits(c2.red, k)
    && TopBits(c1.green, k) == TopBits(c2.green, k)
    && TopBits(c1.blue, k) == TopBits(c2.blue, k)
  }

  /** The colours take the same slot at every level `0..k-1`. */
  predicate SamePath(c1: Color, c2: Color, k: nat)
  {
    forall level :: 0 <= level < k ==> ColorIndexForLevel(c1, level) == ColorIndexForLevel(c2, level)
  }

  /** The channel bits tested at levels `0..k-1` are the top `k` bits. */
  predicate SameTestedBits(x: int, y: int, k: nat)
  {
    forall level :: 0 <= level < k ==> (MaskHit(x, level) <==> MaskHit(y, level))
  }

  lemma {:induction false} TopBitsAgree(x: int, y: int, k: nat)
    requires k <= MAX_DEPTH
    requires TopBits(x, k) == TopBits(y, k)
    ensures SameTestedBits(x, y, k)
  {
    if k > 0 {
      // TopBits(_, k - 1) is one more halving of TopBits(_, k), and the bit
      // tested at level k - 1 is the lowest bit of TopBits(_, k).
      assert TopBits(x, k - 1) == TopBits(x, k) / 2;
      assert TopBits(y, k - 1) == TopBits(y, k) / 2;
      TopBitsAgree(x, y, k - 1);
      assert Bit(x, MAX_DEPTH - 1 - (k - 1)) == Bit(y, MAX_DEPTH - 1 - (k - 1));
    }
  }

  lemma {:induction false} ShiftOfByte(x: int, k: nat)
    requires 0 <= x < 256
    requires k <= MAX_DEPTH
    ensures 0 <= Shift(x, k) < Pow2(MAX_DEPTH - k)
  {
    if k > 0 {
      ShiftOfByte(x, k - 1);
    }
  }

  function Pow2(k: nat): (p: nat)
    ensures p >= 1
  {
    if k == 0 then 1 else 2 * Pow2(k - 1)
  }

  lemma {:induction false} TestedBitsAgree(x: int, y: int, k: nat)
    requires IsByte(x) && IsByte(y)
    requires k <= MAX_DEPTH
    requires SameTestedBits(x, y, k)
    ensures TopBits(x, k) == TopBits(y, k)
  {
    if k == 0 {
      ShiftOfByte(x, MAX_DEPTH);
      ShiftOfByte(y, MAX_DEPTH);
    } else {
      assert SameTestedBits(x, y, k - 1);
      TestedBitsAgree(x, y, k - 1);
      var j := MAX_DEPTH - k;
      assert MaskHit(x, k - 1) <==> MaskHit(y, k - 1);
      assert Shift(x, j) % 2 == Shift(y, j) % 2;
      assert Shift(x, j + 1) == Shift(y, j + 1);
      assert Shift(x, j) == 2 * Shift(x, j + 1) + Shift(x, j) % 2;
      assert Shift(y, j) == 2 * Shift(y, j + 1) + Shift(y, j) % 2;
    }
  }

  /** Colours that agree on their top `k` bits follow the same octree path
      through levels `0..k-1`; for genuine pixel colours the converse holds too. */
  lemma SharedPrefixSamePath(c1: Color, c2: Color, k: nat)
    requires k <= MAX_DEPTH
    ensures SharePrefix(c1, c2, k) ==> SamePath(c1, c2, k)
    ensures IsPixel(c1) && IsPixel(c2) && SamePath(c1, c2, k) ==> SharePrefix(c1, c2, k)
  {
    if SharePrefix(c1, c2, k) {
      TopBitsAgree(c1.red, c2.red, k);
      TopBitsAgree(c1.green, c2.green, k);
      TopBitsAgree(c1.blue, c2.blue, k);
      forall level | 0 <= level < k
        ensures ColorIndexForLevel(c1, level) == ColorIndexForLevel(c2, level)
      {
        IndexCodesBits(c1, c2, level);
      }
    }
    if IsPixel(c1) && IsPixel(c2) && SamePath(c1, c2, k) {
      forall level | 0 <= level < k
        ensures (MaskHit(c1.red, level) <==> MaskHit(c2.red, level))
             && (MaskHit(c1.green, level) <==> MaskHit(c2.green, level))
             && (MaskHit(c1.blue, level) <==> MaskHit(c2.blue, level))
      {
        IndexCodesBits(c1, c2, level);
      }
      TestedBitsAgree(c1.red, c2.red, k);
      TestedBitsAgree(c1.green, c2.green, k);
      TestedBitsAgree(c1.blue, c2.blue, k);
    }
  }

  /** C++ `/` on `int`: the quotient is truncated toward zero, whereas Dafny's
      `/` is Euclidean. */
  function TruncDiv(a: int, b: int): (q: int)
    requires b != 0
    ensures a >= 0 && b > 0 ==> q * b <= a < q * b + b
    ensures a <= 0 && b > 0 ==> q * b - b < a <= q * b
  {
    if a >= 0 && b > 0 then a / b
    else if a >= 0 then -(a / -b)
    else if b > 0 then -((-a) / b)
    else (-a) / (-b)
  }
}
