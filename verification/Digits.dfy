/**
  Binary digits of bytes by division, and the bit masks of the program in terms of them.
  */
module Digits {
  import opened Words

  /** The binary digit of `b` that counts `v`. */
  predicate Digit(b: byte, v: nat)
    requires v > 0
  {
    b as int / v % 2 == 1
  }

  /** The same digit as the source tests it. */
  predicate On(b: byte, mask: byte) {
    b & mask != 0
  }

  lemma DigitsAreBits(b: byte)
    ensures Digit(b, 0x80) <==> On(b, 0x80)
    ensures Digit(b, 0x40) <==> On(b, 0x40)
    ensures Digit(b, 0x20) <==> On(b, 0x20)
  {
    hide Digit, On;
    DigitOf80(b);
    DigitOf40(b);
    DigitOf20(b);
  }

  lemma DigitOf80(b: byte)
    ensures Digit(b, 0x80) <==> On(b, 0x80)
  {}

  lemma DigitOf40(b: byte)
    ensures Digit(b, 0x40) <==> On(b, 0x40)
  {}

  lemma DigitOf20(b: byte)
    ensures Digit(b, 0x20) <==> On(b, 0x20)
  {}

  lemma LowDigitsAreBits(b: byte)
    ensures Digit(b, 1) <==> On(b, 1)
    ensures Digit(b, 2) <==> On(b, 2)
    ensures Digit(b, 4) <==> On(b, 4)
    ensures Digit(b, 8) <==> On(b, 8)
  {
    hide Digit, On, Half8;
    var c := Half8(b);
    var d := Half8(c);
    DigitOne(b);
    DigitOne(c);
    DigitOne(d);
    DigitOne(Half8(d));
    DigitOfHalf(b, 1);
    DigitOfHalf(b, 2);
    DigitOfHalf(c, 1);
    DigitOfHalf(b, 4);
    DigitOfHalf(c, 2);
    DigitOfHalf(d, 1);
    BitsOfHalves(b);
  }

  function Half8(b: byte): byte {
    b >> 1
  }

  lemma DigitOne(b: byte)
    ensures Digit(b, 1) <==> On(b, 1)
  {
    HalfValue(b);
  }

  lemma HalfValue(b: byte)
    ensures b as int == (b & 1) as int + 2 * ((b >> 1) as int)
    ensures b & 1 != 0 <==> (b & 1) as int == 1
    ensures (b & 1) as int <= 1
  {}

  lemma DigitOfHalf(b: byte, v: nat)
    requires v == 1 || v == 2 || v == 4
    ensures Digit(b, 2 * v) <==> Digit(Half8(b), v)
  {
    hide Digit, Half8, Index;
    HalfIndex(b);
    DigitOfIndex(b, 2 * v);
    DigitOfIndex(Half8(b), v);
  }

  lemma DigitOfIndex(b: byte, v: nat)
    requires v > 0
    ensures Digit(b, v) <==> Index(b) / v % 2 == 1
  {}

  lemma HalfIndex(b: byte)
    ensures Index(b) / 2 == Index(Half8(b))
  {
    HalfValue(b);
  }

  lemma BitsOfHalves(b: byte)
    ensures On(b, 2) <==> On(Half8(b), 1)
    ensures On(b, 4) <==> On(Half8(Half8(b)), 1)
    ensures On(b, 8) <==> On(Half8(Half8(Half8(b))), 1)
  {}
}
