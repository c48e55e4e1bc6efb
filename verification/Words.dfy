/**
  Fixed-width words.  `Xor` is the C operator `^` under a name, so that the algebra of linear maps
  can be carried out with its definition hidden: every fact the solver must find by looking at bits
  is a lemma of this module.
  */
module Words {
  type byte = bv8

  function Xor(a: bv32, b: bv32): bv32 {
    a ^ b
  }

  lemma XorZero(a: bv32)
    ensures Xor(a, 0) == a && Xor(0, a) == a && Xor(a, a) == 0
  {}

  lemma XorComm(a: bv32, b: bv32)
    ensures Xor(a, b) == Xor(b, a)
  {}

  lemma XorAssoc(a: bv32, b: bv32, c: bv32)
    ensures Xor(Xor(a, b), c) == Xor(a, Xor(b, c))
  {
    XorAssocBits(a, b, c);
  }

  lemma XorAssocBits(a: bv32, b: bv32, c: bv32)
    ensures (a ^ b) ^ c == a ^ (b ^ c)
  {}

  lemma XorCancel(a: bv32, b: bv32, c: bv32)
    requires Xor(a, c) == Xor(b, c)
    ensures a == b
  {
    XorAssoc(a, c, c);
    XorAssoc(b, c, c);
    XorZero(a);
    XorZero(b);
    XorZero(c);
  }

  /** The C operator `~`. */
  function Not(a: bv32): bv32 {
    !a
  }

  lemma NotNot(a: bv32)
    ensures Not(Not(a)) == a
  {}

  /** The byte `crc & 0xff` that the table lookups index with. */
  function LowByte(s: bv32): byte {
    (s & 0xff) as bv8
  }

  /** A byte as a table index. */
  function Index(b: byte): (i: nat)
    ensures i < 256
  {
    b as int
  }

  /** The byte a table index stands for. */
  function ToByte(n: nat): byte
    requires n < 256
  {
    n as byte
  }

  lemma IndexOfNumber(n: nat)
    requires n < 256
    ensures Index(n as byte) == n
  {}

  lemma IndexOfByte(n: nat)
    requires n < 256
    ensures Index(ToByte(n)) == n
  {
    hide Index;
    IndexOfNumber(n);
  }

  lemma ToByteOfIndex(b: byte)
    ensures ToByte(Index(b)) == b
  {}

  /** `crc >> 8`: the other three bytes, moved down. */
  function Down8(s: bv32): bv32 {
    s >> 8
  }

  /** A byte in position `i` of a word, counting from the least significant. */
  function Place(i: nat, b: byte): bv32
    requires i < 4
  {
    match i
    case 0 => b as bv32
    case 1 => (b as bv32) << 8
    case 2 => (b as bv32) << 16
    case _ => (b as bv32) << 24
  }

  predicate LowByteClear(s: bv32) {
    s & 0xff == 0
  }

  function ClearLowByte(s: bv32): bv32 {
    s & 0xffff_ff00
  }

  lemma LowByteXor(s: bv32, b: byte)
    ensures Down8(Xor(s, b as bv32)) == Down8(s)
    ensures LowByte(Xor(s, b as bv32)) == Xor8(LowByte(s), b)
  {}

  lemma SplitLowByte(s: bv32)
    ensures s == Xor(LowByte(s) as bv32, ClearLowByte(s))
    ensures LowByteClear(ClearLowByte(s))
    ensures Down8(ClearLowByte(s)) == Down8(s)
  {}

  lemma PlaceDown(i: nat, b: byte)
    requires 0 < i < 4
    ensures LowByteClear(Place(i, b)) && Down8(Place(i, b)) == Place(i - 1, b)
  {}

  /** Four bytes as one little-endian word. */
  function Word4(b0: byte, b1: byte, b2: byte, b3: byte): bv32 {
    Xor(Xor(Xor(Place(0, b0), Place(1, b1)), Place(2, b2)), Place(3, b3))
  }

  // ---- eight bytes at a time ----

  /** The 64-bit word whose bytes are `b0` to `b7`, counting from the least significant. */
  function Load64(b0: byte, b1: byte, b2: byte, b3: byte, b4: byte, b5: byte, b6: byte, b7: byte): bv64 {
    (b0 as bv64) | ((b1 as bv64) << 8) | ((b2 as bv64) << 16) | ((b3 as bv64) << 24)
    | ((b4 as bv64) << 32) | ((b5 as bv64) << 40) | ((b6 as bv64) << 48) | ((b7 as bv64) << 56)
  }

  /** `(w >> 8 * i) & 0xff`. */
  function ByteOf(w: bv64, i: nat): byte
    requires i < 8
  {
    match i
    case 0 => (w & 0xff) as byte
    case 1 => ((w >> 8) & 0xff) as byte
    case 2 => ((w >> 16) & 0xff) as byte
    case 3 => ((w >> 24) & 0xff) as byte
    case 4 => ((w >> 32) & 0xff) as byte
    case 5 => ((w >> 40) & 0xff) as byte
    case 6 => ((w >> 48) & 0xff) as byte
    case _ => (w >> 56) as byte
  }

  lemma BytesOfLoad(b0: byte, b1: byte, b2: byte, b3: byte, b4: byte, b5: byte, b6: byte, b7: byte)
    ensures var w := Load64(b0, b1, b2, b3, b4, b5, b6, b7);
            ByteOf(w, 0) == b0 && ByteOf(w, 1) == b1 && ByteOf(w, 2) == b2 && ByteOf(w, 3) == b3
            && ByteOf(w, 4) == b4 && ByteOf(w, 5) == b5 && ByteOf(w, 6) == b6 && ByteOf(w, 7) == b7
  {}

  function Widen(c: bv32): bv64 {
    c as bv64
  }

  /** The conversion from 64 to 32 bits. */
  function Narrow(w: bv64): bv32 {
    (w & 0xffff_ffff) as bv32
  }

  lemma NarrowWiden(c: bv32)
    ensures Narrow(Widen(c)) == c
  {}

  function Xor8(a: byte, b: byte): byte {
    a ^ b
  }

  function Xor64(a: bv64, b: bv64): bv64 {
    a ^ b
  }

  /** The bytes of a register xored into the low half of a word. */
  lemma MixedBytes(c: bv32, w: bv64)
    ensures var m := Xor64(Widen(c), w);
            && ByteOf(m, 0) == Xor8(LowByte(c), ByteOf(w, 0))
            && ByteOf(m, 1) == Xor8(LowByte(Down8(c)), ByteOf(w, 1))
            && ByteOf(m, 2) == Xor8(LowByte(Down8(Down8(c))), ByteOf(w, 2))
            && ByteOf(m, 3) == Xor8(LowByte(Down8(Down8(Down8(c)))), ByteOf(w, 3))
            && ByteOf(m, 4) == ByteOf(w, 4) && ByteOf(m, 5) == ByteOf(w, 5)
            && ByteOf(m, 6) == ByteOf(w, 6) && ByteOf(m, 7) == ByteOf(w, 7)
  {
    hide Xor64, Widen, Xor8, LowByte, Down8, ByteOf;
    MixedLow(c, w);
    MixedMiddle(c, w);
    MixedHigh(c, w);
  }

  lemma MixedLow(c: bv32, w: bv64)
    ensures ByteOf(Xor64(Widen(c), w), 0) == Xor8(LowByte(c), ByteOf(w, 0))
    ensures ByteOf(Xor64(Widen(c), w), 1) == Xor8(LowByte(Down8(c)), ByteOf(w, 1))
  {}

  lemma MixedMiddle(c: bv32, w: bv64)
    ensures ByteOf(Xor64(Widen(c), w), 2) == Xor8(LowByte(Down8(Down8(c))), ByteOf(w, 2))
    ensures ByteOf(Xor64(Widen(c), w), 3) == Xor8(LowByte(Down8(Down8(Down8(c)))), ByteOf(w, 3))
  {}

  lemma MixedHigh(c: bv32, w: bv64)
    ensures var m := Xor64(Widen(c), w);
            && ByteOf(m, 4) == ByteOf(w, 4) && ByteOf(m, 5) == ByteOf(w, 5)
            && ByteOf(m, 6) == ByteOf(w, 6) && ByteOf(m, 7) == ByteOf(w, 7)
  {}

  /** The bytes of a 64-bit word in the opposite order. */
  function Swap(x: bv64): bv64 {
    var a := ((x << 8) & 0xff00_ff00_ff00_ff00) | ((x >> 8) & 0x00ff_00ff_00ff_00ff);
    var b := ((a << 16) & 0xffff_0000_ffff_0000) | ((a >> 16) & 0x0000_ffff_0000_ffff);
    (b << 32) | (b >> 32)
  }

  lemma SwapSwap(x: bv64)
    ensures Swap(Swap(x)) == x
  {}

  lemma SwapXor(x: bv64, y: bv64)
    ensures Swap(Xor64(x, y)) == Xor64(Swap(x), Swap(y))
  {}

  lemma WidenXor(x: bv32, y: bv32)
    ensures Widen(Xor(x, y)) == Xor64(Widen(x), Widen(y))
  {}

  lemma SwapLoad(b0: byte, b1: byte, b2: byte, b3: byte, b4: byte, b5: byte, b6: byte, b7: byte)
    ensures Swap(Load64(b0, b1, b2, b3, b4, b5, b6, b7)) == Load64(b7, b6, b5, b4, b3, b2, b1, b0)
  {}

  lemma SwapBytes(w: bv64)
    ensures ByteOf(Swap(w), 0) == ByteOf(w, 7) && ByteOf(Swap(w), 1) == ByteOf(w, 6)
            && ByteOf(Swap(w), 2) == ByteOf(w, 5) && ByteOf(Swap(w), 3) == ByteOf(w, 4)
            && ByteOf(Swap(w), 4) == ByteOf(w, 3) && ByteOf(Swap(w), 5) == ByteOf(w, 2)
            && ByteOf(Swap(w), 6) == ByteOf(w, 1) && ByteOf(Swap(w), 7) == ByteOf(w, 0)
  {}

  /** Four terms summed from either end. */
  lemma Sum4Reversed(a: bv32, b: bv32, c: bv32, d: bv32)
    ensures Xor(Xor(Xor(a, b), c), d) == Xor(Xor(Xor(d, c), b), a)
  {
    hide Xor;
    XorComm(Xor(Xor(a, b), c), d);
    XorComm(Xor(a, b), c);
    XorComm(a, b);
    XorAssoc(d, c, Xor(b, a));
    XorAssoc(Xor(d, c), b, a);
  }

  /** Eight terms summed from either end. */
  lemma Sum8Reversed(a: bv32, b: bv32, c: bv32, d: bv32, e: bv32, f: bv32, g: bv32, h: bv32)
    ensures Xor(Xor(Xor(Xor(Xor(Xor(Xor(a, b), c), d), e), f), g), h)
         == Xor(Xor(Xor(Xor(Xor(Xor(Xor(h, g), f), e), d), c), b), a)
  {
    hide Xor;
    var s := Xor(Xor(Xor(a, b), c), d);
    var t := Xor(Xor(Xor(h, g), f), e);
    Sum4Reversed(a, b, c, d);
    Sum4Reversed(e, f, g, h);
    SumAppend4(s, e, f, g, h);
    SumAppend4(t, d, c, b, a);
    XorComm(s, t);
  }

  lemma SumAppend4(s: bv32, a: bv32, b: bv32, c: bv32, d: bv32)
    ensures Xor(Xor(Xor(Xor(s, a), b), c), d) == Xor(s, Xor(Xor(Xor(a, b), c), d))
  {
    hide Xor;
    XorAssoc(s, a, b);
    XorAssoc(s, Xor(a, b), c);
    XorAssoc(s, Xor(Xor(a, b), c), d);
  }
}
