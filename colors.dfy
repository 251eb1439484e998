/**
 * Colours as the editor stores them, and the decoding of one packed
 * 15-bit colour word (bit layout 0bBBBBBGGGGGRRRRR, bit 15 unused).
 */
module Colors {

  /** An RGB triple: the `[number, number, number]` of the editor. */
  datatype RGB = RGB(r: int, g: int, b: int)

  const Black := RGB(0, 0, 0)

  predicate IsChannel(v: int) {
    0 <= v <= 255
  }

  predicate IsColor(c: RGB) {
    IsChannel(c.r) && IsChannel(c.g) && IsChannel(c.b)
  }

  /** The three 5-bit fields of a colour word, as words. */
  function RedField(w: bv16): bv16 {
    w & 0x1F
  }

  function GreenField(w: bv16): bv16 {
    (w >> 5) & 0x1F
  }

  function BlueField(w: bv16): bv16 {
    (w >> 10) & 0x1F
  }

  /** The fifteen bits that carry colour; bit 15 is unused. */
  function LowBits(w: bv16): bv16 {
    w & 0x7FFF
  }

  /** The same fields as numbers. */
  function RedBits(w: bv16): (c: int)
    ensures 0 <= c < 32
  {
    RedField(w) as int
  }

  function GreenBits(w: bv16): (c: int)
    ensures 0 <= c < 32
  {
    GreenField(w) as int
  }

  function BlueBits(w: bv16): (c: int)
    ensures 0 <= c < 32
  {
    BlueField(w) as int
  }

  /**
   * Widens a 5-bit channel to 8 bits with floor(c * 255 / 31). The source
   * divides in floating point and floors; for 0 <= c < 32 the quotient is
   * never within rounding distance of an integer it does not equal, so
   * integer division gives the same value.
   */
  function Scale(c: int): (v: int)
    requires 0 <= c < 32
    ensures IsChannel(v)
    ensures v == 0 <==> c == 0
    ensures v == 255 <==> c == 31
  {
    c * 255 / 31
  }

  /** Scaling is strictly monotone, so no two 5-bit values share an 8-bit value. */
  lemma ScaleStrictlyMonotone(a: int, b: int)
    requires 0 <= a < b < 32
    ensures Scale(a) + 8 <= Scale(b)
  {
    assert a * 255 + 255 <= b * 255;
  }

  lemma ScaleInjective(a: int, b: int)
    requires 0 <= a < 32 && 0 <= b < 32
    ensures Scale(a) == Scale(b) <==> a == b
  {
    if a < b {
      ScaleStrictlyMonotone(a, b);
    } else if b < a {
      ScaleStrictlyMonotone(b, a);
    }
  }

  /** One colour word to an RGB triple. */
  function DecodeColor(w: bv16): (c: RGB)
    ensures IsColor(c)
  {
    var rb := RedBits(w);
    var gb := GreenBits(w);
    var bb := BlueBits(w);
    RGB(Scale(rb), Scale(gb), Scale(bb))
  }

  /** Converting a 16-bit word to an integer loses nothing. */
  lemma ToIntInjective(x: bv16, y: bv16)
    ensures x as int == y as int <==> x == y
  {
    assert (x as int) as bv16 == x;
    assert (y as int) as bv16 == y;
  }

  /** The three fields together are exactly the low 15 bits of the word. */
  lemma FieldsDetermineLowBits(w1: bv16, w2: bv16)
    ensures (RedBits(w1) == RedBits(w2) && GreenBits(w1) == GreenBits(w2) && BlueBits(w1) == BlueBits(w2))
            <==> LowBits(w1) == LowBits(w2)
  {
    ToIntInjective(RedField(w1), RedField(w2));
    ToIntInjective(GreenField(w1), GreenField(w2));
    ToIntInjective(BlueField(w1), BlueField(w2));
    FieldWordsDetermineLowBits(w1, w2);
  }

  lemma FieldWordsDetermineLowBits(w1: bv16, w2: bv16)
    ensures (RedField(w1) == RedField(w2) && GreenField(w1) == GreenField(w2) && BlueField(w1) == BlueField(w2))
            <==> LowBits(w1) == LowBits(w2)
  {
    Recompose(w1);
    Recompose(w2);
    FieldsOfLowBits(w1);
    FieldsOfLowBits(w2);
  }

  lemma Recompose(w: bv16)
    ensures LowBits(w) == RedField(w) | (GreenField(w) << 5) | (BlueField(w) << 10)
  {
  }

  lemma FieldsOfLowBits(w: bv16)
    ensures RedField(LowBits(w)) == RedField(w)
    ensures GreenField(LowBits(w)) == GreenField(w)
    ensures BlueField(LowBits(w)) == BlueField(w)
  {
  }

  /**
   * Two words decode to the same colour exactly when they agree on their low
   * 15 bits: bit 15 never matters, and no other bit is lost.
   */
  lemma DecodeColorInjective(w1: bv16, w2: bv16)
    ensures DecodeColor(w1) == DecodeColor(w2) <==> LowBits(w1) == LowBits(w2)
  {
    var r1, g1, b1 := RedBits(w1), GreenBits(w1), BlueBits(w1);
    var r2, g2, b2 := RedBits(w2), GreenBits(w2), BlueBits(w2);
    ScaleInjective(r1, r2);
    ScaleInjective(g1, g2);
    ScaleInjective(b1, b2);
    assert DecodeColor(w1) == DecodeColor(w2) <==> r1 == r2 && g1 == g2 && b1 == b2;
    FieldsDetermineLowBits(w1, w2);
  }

  lemma DecodeColorExamples()
    ensures DecodeColor(0x7FFF) == RGB(255, 255, 255)
    ensures DecodeColor(0xFFFF) == RGB(255, 255, 255)
    ensures DecodeColor(0x0000) == Black
    ensures Scale(15) == 123
  {
  }
}
