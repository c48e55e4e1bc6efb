/**
  CRC-32C, section 12.1 of RFC 3720, one bit at a time: the definition every fast form is proved
  against, and the algebra (linearity, injectivity, composition) that makes the fast forms possible.
  */
module Crc32c {
  import opened Words

  const POLY: bv32 := 0x82f63b78

  /** One message bit: it meets the low bit of the register on its way out. */
  function FeedBit(s: bv32, bit: bool): bv32 {
    if (s & 1 == 1) != bit then (s >> 1) ^ POLY else s >> 1
  }

  /** The low `n` bits of `c`, least significant bit first. */
  function FeedBits(s: bv32, c: bv32, n: nat): bv32
    decreases n
  {
    if n == 0 then s else FeedBits(FeedBit(s, c & 1 == 1), c >> 1, n - 1)
  }

  /** One message byte. */
  function ByteStep(s: bv32, b: byte): bv32 {
    FeedBits(s, b as bv32, 8)
  }

  /** The register after a whole message, without the initial and final complement. */
  function Raw(s: bv32, bytes: seq<byte>): bv32 {
    if bytes == [] then s else ByteStep(Raw(s, bytes[..|bytes| - 1]), bytes[|bytes| - 1])
  }

  /** The CRC-32C of `bytes`, continuing from a previous result `seed` (0 at the start). */
  function Crc(seed: bv32, bytes: seq<byte>): bv32 {
    Not(Raw(Not(seed), bytes))
  }

  /** The shift register alone: one step without a message bit. */
  function BitStep(s: bv32): bv32 {
    if s & 1 == 1 then (s >> 1) ^ POLY else s >> 1
  }

  /** `n` steps without a message bit, that is, `n` zero bits of message. */
  function ZeroBits(n: nat, s: bv32): bv32 {
    if n == 0 then s else ZeroBits(n - 1, BitStep(s))
  }

  // ---- one step ----

  lemma BitStepLinear(a: bv32, b: bv32)
    ensures BitStep(Xor(a, b)) == Xor(BitStep(a), BitStep(b))
  {
    hide BitStep;
    BitStepLinearBits(a, b);
  }

  lemma BitStepLinearBits(a: bv32, b: bv32)
    ensures BitStep(a ^ b) == BitStep(a) ^ BitStep(b)
  {
    ShiftXor(a, b);
    if a & 1 == 1 {
      if b & 1 == 1 { PolyTwice(a >> 1, b >> 1); } else { PolyLeft(a >> 1, b >> 1); }
    } else {
      PolyRight(a >> 1, b >> 1);
    }
  }

  lemma ShiftXor(a: bv32, b: bv32)
    ensures (a ^ b) >> 1 == (a >> 1) ^ (b >> 1)
    ensures (a ^ b) & 1 == (a & 1) ^ (b & 1)
    ensures a & 1 == 0 || a & 1 == 1
    ensures b & 1 == 0 || b & 1 == 1
  {}

  lemma PolyTwice(a: bv32, b: bv32)
    ensures (a ^ POLY) ^ (b ^ POLY) == a ^ b
  {}

  lemma PolyLeft(a: bv32, b: bv32)
    ensures (a ^ POLY) ^ b == (a ^ b) ^ POLY
  {}

  lemma PolyRight(a: bv32, b: bv32)
    ensures a ^ (b ^ POLY) == (a ^ b) ^ POLY
  {}

  lemma BitStepInjective(a: bv32, b: bv32)
    requires BitStep(a) == BitStep(b)
    ensures a == b
  {}

  /** A register and a byte still to come may be merged: the register absorbs the low bit now and
      carries the rest. */
  lemma FeedIsStep(s: bv32, c: bv32)
    ensures BitStep(Xor(s, c)) == Xor(FeedBit(s, c & 1 == 1), c >> 1)
  {
    hide BitStep, FeedBit;
    FeedIsStepBits(s, c);
  }

  lemma FeedIsStepBits(s: bv32, c: bv32)
    ensures BitStep(s ^ c) == FeedBit(s, c & 1 == 1) ^ (c >> 1)
  {
    ShiftXor(s, c);
    PolyLeft(s >> 1, c >> 1);
  }

  // ---- many steps ----

  lemma {:induction false} ZeroBitsLinear(n: nat, a: bv32, b: bv32)
    ensures ZeroBits(n, Xor(a, b)) == Xor(ZeroBits(n, a), ZeroBits(n, b))
  {
    hide BitStep, Xor;
    if n > 0 {
      BitStepLinear(a, b);
      ZeroBitsLinear(n - 1, BitStep(a), BitStep(b));
    }
  }

  lemma {:induction false} ZeroBitsInjective(n: nat, a: bv32, b: bv32)
    requires ZeroBits(n, a) == ZeroBits(n, b)
    ensures a == b
  {
    hide BitStep;
    if n > 0 {
      ZeroBitsInjective(n - 1, BitStep(a), BitStep(b));
      BitStepInjective(a, b);
    }
  }

  lemma {:induction false} ZeroBitsCompose(m: nat, n: nat, s: bv32)
    ensures ZeroBits(m + n, s) == ZeroBits(n, ZeroBits(m, s))
  {
    hide BitStep;
    if m > 0 {
      ZeroBitsCompose(m - 1, n, BitStep(s));
    }
  }

  lemma {:induction false} ZeroBitsOfZero(n: nat)
    ensures ZeroBits(n, 0) == 0
  {
    if n > 0 {
      ZeroBitsOfZero(n - 1);
    }
  }

  /** `c` after `n` right shifts by one. */
  function Halves(n: nat, c: bv32): bv32
    decreases n
  {
    if n == 0 then c else Halves(n - 1, Half(c))
  }

  function Half(c: bv32): bv32 {
    c >> 1
  }

  lemma {:induction false} FeedBitsIsZeroBits(s: bv32, c: bv32, n: nat)
    ensures ZeroBits(n, Xor(s, c)) == Xor(FeedBits(s, c, n), Halves(n, c))
    decreases n
  {
    hide BitStep, FeedBit, Xor;
    if n > 0 {
      FeedIsStep(s, c);
      FeedBitsIsZeroBits(FeedBit(s, c & 1 == 1), c >> 1, n - 1);
    }
  }

  lemma HalvesEight(c: bv32)
    ensures Halves(8, c) == Down8(c)
  {
    hide Half, Down8;
    assert Halves(8, c) == Halves(4, Half(Half(Half(Half(c)))));
    HalfEight(c);
  }

  lemma HalfEight(c: bv32)
    ensures Half(Half(Half(Half(Half(Half(Half(Half(c)))))))) == Down8(c)
  {}

  lemma ByteShiftedOut(b: byte)
    ensures Down8(b as bv32) == 0
  {}

  /** A byte of message is the byte xored into the register, then eight empty steps. */
  lemma ByteStepIsZeroBits(s: bv32, b: byte)
    ensures ByteStep(s, b) == ZeroBits(8, Xor(s, b as bv32))
  {
    hide Xor, FeedBits, ZeroBits, Down8;
    FeedBitsIsZeroBits(s, b as bv32, 8);
    HalvesEight(b as bv32);
    ByteShiftedOut(b);
    XorZero(FeedBits(s, b as bv32, 8));
  }

  /** The table form of a byte step: a table entry depends on the low byte only, and the other three
      bytes just move down. */
  lemma ByteStepByTable(s: bv32, b: byte)
    ensures ByteStep(s, b) == Xor(ZeroBits(8, LowByte(Xor(s, b as bv32)) as bv32), Down8(s))
  {
    hide Xor, LowByte, ZeroBits, ByteStep, Down8, LowByteClear, ClearLowByte;
    var t := Xor(s, b as bv32);
    ByteStepIsZeroBits(s, b);
    SplitLowByte(t);
    ZeroBitsLinear(8, LowByte(t) as bv32, ClearLowByte(t));
    EvenByteShifts(8, ClearLowByte(t));
    ZeroBitsNone(Down8(t));
    LowByteXor(s, b);
  }

  lemma ZeroBitsNone(s: bv32)
    ensures ZeroBits(0, s) == s
  {}

  predicate Even(s: bv32) {
    s & 1 == 0
  }

  lemma EvenShifts(n: nat, s: bv32)
    requires n > 0 && Even(s)
    ensures ZeroBits(n, s) == ZeroBits(n - 1, Half(s))
  {}

  /** While the low byte is clear, eight steps are one shift by eight. */
  lemma EvenByteShifts(n: nat, s: bv32)
    requires n >= 8 && LowByteClear(s)
    ensures ZeroBits(n, s) == ZeroBits(n - 8, Down8(s))
  {
    hide Half, Even, ZeroBits, Down8, LowByteClear;
    EvenByte(s);
    HalfEight(s);
    var s2 := Half(Half(s));
    var s4 := Half(Half(s2));
    var s6 := Half(Half(s4));
    EvenShifts(n, s);
    EvenShifts(n - 1, Half(s));
    EvenShifts(n - 2, s2);
    EvenShifts(n - 3, Half(s2));
    EvenShifts(n - 4, s4);
    EvenShifts(n - 5, Half(s4));
    EvenShifts(n - 6, s6);
    EvenShifts(n - 7, Half(s6));
  }

  lemma EvenByte(s: bv32)
    requires LowByteClear(s)
    ensures Even(s) && Even(Half(s)) && Even(Half(Half(s))) && Even(Half(Half(Half(s))))
    ensures var t := Half(Half(Half(Half(s))));
            Even(t) && Even(Half(t)) && Even(Half(Half(t))) && Even(Half(Half(Half(t))))
  {}

  // ---- messages ----

  lemma {:induction false} RawAppend(s: bv32, a: seq<byte>, b: seq<byte>)
    ensures Raw(s, a + b) == Raw(Raw(s, a), b)
  {
    hide ByteStep;
    if b == [] {
      assert a + b == a;
    } else {
      var n := |b| - 1;
      assert (a + b)[..|a + b| - 1] == a + b[..n];
      RawAppend(s, a, b[..n]);
    }
  }

  lemma RawOne(s: bv32, b: byte)
    ensures Raw(s, [b]) == ByteStep(s, b)
  {
    hide ByteStep;
    assert [b][..0] == [];
  }

  /** Superposition: the register after a message is what the old register becomes under as many
      zero bytes, xored with what the message leaves in an empty register. */
  lemma {:induction false} RawSplit(s: bv32, b: seq<byte>)
    ensures Raw(s, b) == Xor(ZeroBits(8 * |b|, s), Raw(0, b))
  {
    hide ByteStep, ZeroBits, Xor;
    if b == [] {
      ZeroBitsNone(s);
      XorZero(s);
    } else {
      var n := |b| - 1;
      var rest, last := b[..n], b[n];
      var z, r := ZeroBits(8 * n, s), Raw(0, rest);
      RawSplit(s, rest);
      ByteStepIsZeroBits(Xor(z, r), last);
      ByteStepIsZeroBits(r, last);
      XorAssoc(z, r, last as bv32);
      ZeroBitsLinear(8, z, Xor(r, last as bv32));
      ZeroBitsCompose(8 * n, 8, s);
      assert 8 * |b| == 8 * n + 8;
    }
  }

  /** The combination law behind the interleaved form. */
  lemma RawCombine(s: bv32, a: seq<byte>, b: seq<byte>)
    ensures Raw(s, a + b) == Xor(ZeroBits(8 * |b|, Raw(s, a)), Raw(0, b))
  {
    hide Xor, ZeroBits;
    RawAppend(s, a, b);
    RawSplit(Raw(s, a), b);
  }

  lemma RawInjective(s: bv32, t: bv32, b: seq<byte>)
    requires Raw(s, b) == Raw(t, b)
    ensures s == t
  {
    hide Xor, ZeroBits, Raw;
    RawSplit(s, b);
    RawSplit(t, b);
    XorCancel(ZeroBits(8 * |b|, s), ZeroBits(8 * |b|, t), Raw(0, b));
    ZeroBitsInjective(8 * |b|, s, t);
  }

  /** Feeding a buffer in pieces, each call seeded with the previous result, is one call. */
  lemma CrcChunks(seed: bv32, a: seq<byte>, b: seq<byte>)
    ensures Crc(Crc(seed, a), b) == Crc(seed, a + b)
  {
    hide Raw, Not;
    RawAppend(Not(seed), a, b);
    NotNot(Raw(Not(seed), a));
  }

  function Concat(chunks: seq<seq<byte>>): seq<byte> {
    if chunks == [] then [] else Concat(chunks[..|chunks| - 1]) + chunks[|chunks| - 1]
  }

  /** A buffer fed in chunks. */
  function CrcOfChunks(seed: bv32, chunks: seq<seq<byte>>): bv32 {
    if chunks == [] then seed else Crc(CrcOfChunks(seed, chunks[..|chunks| - 1]), chunks[|chunks| - 1])
  }

  /** Every partition of a buffer gives the CRC of the buffer. */
  lemma {:induction false} AnyPartition(seed: bv32, chunks: seq<seq<byte>>)
    ensures CrcOfChunks(seed, chunks) == Crc(seed, Concat(chunks))
  {
    hide Crc;
    if chunks == [] {
      CrcEmpty(seed);
    } else {
      var front := chunks[..|chunks| - 1];
      AnyPartition(seed, front);
      CrcChunks(seed, Concat(front), chunks[|chunks| - 1]);
    }
  }

  /** Distinct seeds never collide on the same bytes. */
  lemma CrcSeedInjective(s: bv32, t: bv32, b: seq<byte>)
    requires Crc(s, b) == Crc(t, b)
    ensures s == t
  {
    hide Raw, Not;
    NotNot(Raw(Not(s), b));
    NotNot(Raw(Not(t), b));
    RawInjective(Not(s), Not(t), b);
    NotNot(s);
    NotNot(t);
  }

  lemma CrcEmpty(seed: bv32)
    ensures Crc(seed, []) == seed
  {
    NotNot(seed);
  }

  // ---- bytes merged into the register ----

  /** A message byte reaching the low end of the register after `i` others might as well have been
      in position `i` of the register from the start. */
  lemma {:induction false} ZeroBitsOfPlace(n: nat, i: nat, b: byte)
    requires i < 4
    ensures ZeroBits(8 * i + n, Place(i, b)) == ZeroBits(n, b as bv32)
  {
    hide ZeroBits, Down8, LowByteClear;
    if i > 0 {
      PlaceDown(i, b);
      EvenByteShifts(8 * i + n, Place(i, b));
      ZeroBitsOfPlace(n, i - 1, b);
    }
  }

  /** `i` bytes already merged into `x`, one more byte merged. */
  lemma AbsorbByte(x: bv32, i: nat, b: byte)
    requires i < 4
    ensures ByteStep(ZeroBits(8 * i, x), b) == ZeroBits(8 * i + 8, Xor(x, Place(i, b)))
  {
    hide ByteStep, ZeroBits, Xor, Place;
    ByteStepIsZeroBits(ZeroBits(8 * i, x), b);
    ZeroBitsLinear(8, ZeroBits(8 * i, x), b as bv32);
    ZeroBitsCompose(8 * i, 8, x);
    ZeroBitsOfPlace(8, i, b);
    ZeroBitsLinear(8 * i + 8, x, Place(i, b));
  }

  lemma Raw4(s: bv32, w: seq<byte>)
    requires |w| == 4
    ensures Raw(s, w) == ZeroBits(32, Xor(s, Word4(w[0], w[1], w[2], w[3])))
  {
    hide ByteStep, ZeroBits, Xor, Place, Raw;
    var x1 := Xor(s, Place(0, w[0]));
    var x2 := Xor(x1, Place(1, w[1]));
    var x3 := Xor(x2, Place(2, w[2]));
    ZeroBitsNone(s);
    AbsorbByte(s, 0, w[0]);
    AbsorbByte(x1, 1, w[1]);
    AbsorbByte(x2, 2, w[2]);
    AbsorbByte(x3, 3, w[3]);
    assert w[..1] == [w[0]] && w[..2] == w[..1] + [w[1]] && w[..3] == w[..2] + [w[2]];
    assert w == w[..3] + [w[3]];
    RawOne(s, w[0]);
    RawSnoc(s, w[..1], w[1]);
    RawSnoc(s, w[..2], w[2]);
    RawSnoc(s, w[..3], w[3]);
    XorAssoc(s, Place(0, w[0]), Place(1, w[1]));
    XorAssoc(s, Xor(Place(0, w[0]), Place(1, w[1])), Place(2, w[2]));
    XorAssoc(s, Xor(Xor(Place(0, w[0]), Place(1, w[1])), Place(2, w[2])), Place(3, w[3]));
  }

  lemma RawSnoc(s: bv32, a: seq<byte>, b: byte)
    ensures Raw(s, a + [b]) == ByteStep(Raw(s, a), b)
  {
    hide ByteStep;
    assert (a + [b])[..|a|] == a;
  }

  // ---- the register as a polynomial, and the published check values ----

  /** The register read with its most significant coefficient first, as the standard writes it. */
  function Reverse(x: bv32): bv32 {
    var a := ((x >> 1) & 0x5555_5555) | ((x & 0x5555_5555) << 1);
    var b := ((a >> 2) & 0x3333_3333) | ((a & 0x3333_3333) << 2);
    var c := ((b >> 4) & 0x0f0f_0f0f) | ((b & 0x0f0f_0f0f) << 4);
    var d := ((c >> 8) & 0x00ff_00ff) | ((c & 0x00ff_00ff) << 8);
    (d >> 16) | (d << 16)
  }

  /** Multiplication by x modulo the generator 0x11edc6f41 of the standard. */
  function TimesX(r: bv32): bv32 {
    if TopBit(r) then ReduceOnce(ShiftLeft(r)) else ShiftLeft(r)
  }

  predicate TopBit(r: bv32) {
    r & 0x8000_0000 != 0
  }

  function ShiftLeft(r: bv32): bv32 {
    r << 1
  }

  function ReduceOnce(r: bv32): bv32 {
    r ^ 0x1edc_6f41
  }

  lemma BitStepIsTimesX(s: bv32)
    ensures Reverse(BitStep(s)) == TimesX(Reverse(s))
  {
    hide Reverse, Half, Even, BitStep, TopBit, ShiftLeft, ReduceOnce;
    StepByParity(s);
    ReverseHalf(s);
    ReversePoly(Half(s));
    ReverseLowBit(s);
  }

  lemma StepByParity(s: bv32)
    ensures BitStep(s) == if Even(s) then Half(s) else Half(s) ^ POLY
  {}

  lemma ReverseHalf(s: bv32)
    ensures Reverse(Half(s)) == ShiftLeft(Reverse(s))
  {
    hide Reverse;
    ReverseShift(s);
  }

  lemma ReverseShift(s: bv32)
    ensures Reverse(s >> 1) == Reverse(s) << 1
  {}

  lemma ReverseLowBit(s: bv32)
    ensures TopBit(Reverse(s)) <==> !Even(s)
  {}

  lemma ReversePoly(s: bv32)
    ensures Reverse(s ^ POLY) == ReduceOnce(Reverse(s))
  {}

  /** The check value of the nine bytes "123456789". */
  lemma CheckValue()
    ensures Crc(0, [0x31, 0x32, 0x33, 0x34, 0x35, 0x36, 0x37, 0x38, 0x39]) == 0xe306_9283
  {
    var m := [0x31, 0x32, 0x33, 0x34, 0x35, 0x36, 0x37, 0x38, 0x39];
    assert m[..1] == m[..0] + [0x31];
    RawSnoc(0xffff_ffff, m[..0], 0x31);
    assert ByteStep(0xffffffff, 0x31) == 0x6f0a661c;
    assert m[..2] == m[..1] + [0x32];
    RawSnoc(0xffff_ffff, m[..1], 0x32);
    assert ByteStep(0x6f0a661c, 0x32) == 0x8caa3b9f;
    assert m[..3] == m[..2] + [0x33];
    RawSnoc(0xffff_ffff, m[..2], 0x33);
    assert ByteStep(0x8caa3b9f, 0x33) == 0xef84d04d;
    assert m[..4] == m[..3] + [0x34];
    RawSnoc(0xffff_ffff, m[..3], 0x34);
    assert ByteStep(0xef84d04d, 0x34) == 0x9c50b11;
    assert m[..5] == m[..4] + [0x35];
    RawSnoc(0xffff_ffff, m[..4], 0x35);
    assert ByteStep(0x9c50b11, 0x35) == 0xe72edcca;
    assert m[..6] == m[..5] + [0x36];
    RawSnoc(0xffff_ffff, m[..5], 0x36);
    assert ByteStep(0xe72edcca, 0x36) == 0xbeca8e79;
    assert m[..7] == m[..6] + [0x37];
    RawSnoc(0xffff_ffff, m[..6], 0x37);
    assert ByteStep(0xbeca8e79, 0x37) == 0xedbd6815;
    assert m[..8] == m[..7] + [0x38];
    RawSnoc(0xffff_ffff, m[..7], 0x38);
    assert ByteStep(0xedbd6815, 0x38) == 0x9f787f65;
    assert m[..9] == m[..8] + [0x39];
    RawSnoc(0xffff_ffff, m[..8], 0x39);
    assert ByteStep(0x9f787f65, 0x39) == 0x1cf96d7c;
    assert m == m[..9];
  }
}
