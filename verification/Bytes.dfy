/** Bytes, and what bit operations on them come to. */
module Bytes {

  type byte = x: int | 0 <= x < 256

  function Value(v: bv8): byte {
    v as int
  }

  /** The binary digits of a byte. */
  function Bits(b: byte): (v: bv8)
    ensures Value(v) == b
    decreases b
  {
    if b == 0 then 0
    else
      DigitAppended(Bits(b / 2));
      if b % 2 == 0 then Bits(b / 2) << 1 else (Bits(b / 2) << 1) | 1
  }

  lemma DigitAppended(v: bv8)
    requires Value(v) < 128
    ensures Value(v << 1) == 2 * Value(v) && Value((v << 1) | 1) == 2 * Value(v) + 1
  {
  }

  lemma MaskBits(v: bv8)
    ensures ((v | 0x80) & 0xBF) == 0x80 | (v & 0x3F) && v & 0x3F < 0x40
  {
  }

  lemma LowBits(v: bv8)
    ensures Value(v & 0x3F) == Value(v) % 64
  {
  }

  lemma OrHigh(v: bv8)
    requires v < 0x40
    ensures Value(0x80 | v) == 0x80 + Value(v)
  {
  }

  /** Setting bit 7 and clearing bit 6 leaves the last six bits. */
  lemma MaskedBits(v: bv8)
    ensures Value((v | 0x80) & 0xBF) == 0x80 + Value(v) % 64
  {
    hide Value;
    MaskBits(v);
    OrHigh(v & 0x3F);
    LowBits(v);
  }

  lemma OrTwo(v: bv8)
    requires v < 0x20
    ensures Value(v | 0xC0) == Value(v) + 0xC0
  {
  }

  lemma OrThree(v: bv8)
    requires v < 0x10
    ensures Value(v | 0xE0) == Value(v) + 0xE0
  {
  }

  lemma OrFour(v: bv8)
    requires v < 0x08
    ensures Value(v | 0xF0) == Value(v) + 0xF0
  {
  }

  lemma Below(v: bv8)
    ensures Value(v) < 0x20 ==> v < 0x20
    ensures Value(v) < 0x10 ==> v < 0x10
    ensures Value(v) < 0x08 ==> v < 0x08
  {
  }
}
