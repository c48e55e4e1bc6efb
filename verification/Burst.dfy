/**
  Error detection: the message as the bits the register sees, and what damage to 32 consecutive bits does
  to the CRC, wherever in their bytes these bits lie.
  */
module Burst {
  import opened Words
  import opened Crc32c
  import opened Gf2

  // ---- messages as bits ----

  /** The low `n` bits of a word, least significant first. */
  function BitsOf(c: bv32, n: nat): (v: seq<bool>)
    ensures |v| == n
    decreases n
  {
    if n == 0 then [] else [Odd(c)] + BitsOf(Half(c), n - 1)
  }

  /** The bits of a message in the order in which the register meets them. */
  function Bits(bytes: seq<byte>): (v: seq<bool>)
    ensures |v| == 8 * |bytes|
  {
    if bytes == [] then [] else Bits(bytes[..|bytes| - 1]) + BitsOf(bytes[|bytes| - 1] as bv32, 8)
  }

  /** The register after some message bits. */
  function RawBits(s: bv32, bits: seq<bool>): bv32 {
    if bits == [] then s else FeedBit(RawBits(s, bits[..|bits| - 1]), bits[|bits| - 1])
  }

  lemma {:induction false} RawBitsAppend(s: bv32, a: seq<bool>, b: seq<bool>)
    ensures RawBits(s, a + b) == RawBits(RawBits(s, a), b)
  {
    hide FeedBit;
    if b == [] {
      assert a + b == a;
    } else {
      RawBitsAppend(s, a, b[..|b| - 1]);
      assert (a + b)[..|a + b| - 1] == a + b[..|b| - 1];
    }
  }

  lemma {:induction false} FeedBitsIsRawBits(s: bv32, c: bv32, n: nat)
    ensures FeedBits(s, c, n) == RawBits(s, BitsOf(c, n))
    decreases n
  {
    hide FeedBit, Odd, Half;
    if n > 0 {
      FeedBitsHead(s, c, n);
      FeedBitsIsRawBits(FeedBit(s, Odd(c)), Half(c), n - 1);
      RawBitsAppend(s, [Odd(c)], BitsOf(Half(c), n - 1));
      assert [Odd(c)][..0] == [];
    }
  }

  lemma FeedBitsHead(s: bv32, c: bv32, n: nat)
    requires n > 0
    ensures FeedBits(s, c, n) == FeedBits(FeedBit(s, Odd(c)), Half(c), n - 1)
  {}

  lemma {:induction false} RawIsRawBits(s: bv32, bytes: seq<byte>)
    ensures Raw(s, bytes) == RawBits(s, Bits(bytes))
  {
    hide FeedBits, BitsOf;
    if bytes != [] {
      var front, last := bytes[..|bytes| - 1], bytes[|bytes| - 1];
      RawIsRawBits(s, front);
      RawBitsAppend(s, Bits(front), BitsOf(last as bv32, 8));
      FeedBitsIsRawBits(RawBits(s, Bits(front)), last as bv32, 8);
    }
  }

  // ---- up to 32 bits as a word ----

  function WordOf(v: seq<bool>): bv32 {
    if v == [] then 0 else Xor(if v[0] then 1 else 0, Double(WordOf(v[1..])))
  }

  lemma LowBitOn(bit: bool, w: bv32)
    ensures var x := Xor(if bit then 1 else 0, Double(w));
            Odd(x) == bit && Half(x) == Half(Double(w))
  {}

  /** A word made of bits has them, and no others. */
  lemma {:induction false} BitsOfWord(v: seq<bool>)
    requires |v| <= 32
    ensures BitsOf(WordOf(v), |v|) == v && Halves(|v|, WordOf(v)) == 0
  {
    hide WordOf, Odd, Half;
    if v == [] {
      NoBits();
    } else {
      BitsOfWord(v[1..]);
      HeadBit(v);
      assert v == [v[0]] + v[1..];
    }
  }

  lemma NoBits()
    ensures WordOf([]) == 0
  {}

  lemma HeadBit(v: seq<bool>)
    requires 0 < |v| <= 32 && Halves(|v| - 1, WordOf(v[1..])) == 0
    ensures Odd(WordOf(v)) == v[0] && Half(WordOf(v)) == WordOf(v[1..])
  {
    hide Odd, Half, Double, Xor, Halves;
    var w := WordOf(v[1..]);
    HalvesCompose(|v| - 1, 32 - |v|, w);
    HalvesOfZero(32 - |v|);
    TopClear(w);
    LowBitOn(v[0], w);
  }

  /** A word without further bits is made of its bits. */
  lemma {:induction false} WordOfBits(c: bv32, n: nat)
    requires Halves(n, c) == 0
    ensures WordOf(BitsOf(c, n)) == c
    decreases n
  {
    hide Odd, Half, Double, Xor;
    if n > 0 {
      WordOfBits(Half(c), n - 1);
      SplitLowBit(c);
      assert BitsOf(c, n)[1..] == BitsOf(Half(c), n - 1);
    }
  }

  lemma BitsOfByteInjective(b: byte, c: byte)
    requires BitsOf(b as bv32, 8) == BitsOf(c as bv32, 8)
    ensures b == c
  {
    hide Halves, BitsOf, WordOf, Down8;
    HalvesEight(b as bv32);
    HalvesEight(c as bv32);
    ByteShiftedOut(b);
    ByteShiftedOut(c);
    WordOfBits(b as bv32, 8);
    WordOfBits(c as bv32, 8);
    SameByte(b, c);
  }

  lemma SameByte(b: byte, c: byte)
    requires b as bv32 == c as bv32
    ensures b == c
  {}

  lemma BitsSplit(a: seq<byte>)
    requires a != []
    ensures var n := |a| - 1;
            Bits(a)[..8 * n] == Bits(a[..n]) && Bits(a)[8 * n..] == BitsOf(a[n] as bv32, 8)
  {
    hide BitsOf;
  }

  lemma {:induction false} BitsInjective(a: seq<byte>, b: seq<byte>)
    requires Bits(a) == Bits(b)
    ensures a == b
  {
    hide Bits, BitsOf;
    if a != [] {
      var n := |a| - 1;
      BitsSplit(a);
      BitsSplit(b);
      BitsInjective(a[..n], b[..n]);
      BitsOfByteInjective(a[n], b[n]);
      assert a == a[..n] + [a[n]] && b == b[..n] + [b[n]];
    }
  }

  // ---- what the register remembers ----

  /** Up to 32 message bits may be merged into the register before they are fed. */
  lemma RawBitsIsZeroBits(s: bv32, v: seq<bool>)
    requires |v| <= 32
    ensures RawBits(s, v) == ZeroBits(|v|, Xor(s, WordOf(v)))
  {
    hide RawBits, ZeroBits, FeedBits, WordOf, BitsOf, Halves, Xor;
    BitsOfWord(v);
    FeedBitsIsRawBits(s, WordOf(v), |v|);
    FeedBitsIsZeroBits(s, WordOf(v), |v|);
    XorZero(RawBits(s, v));
  }

  /** On 32 bits the register never forgets: different bits leave different registers. */
  lemma ShortBitsInjective(s: bv32, v: seq<bool>, w: seq<bool>)
    requires |v| == |w| <= 32 && RawBits(s, v) == RawBits(s, w)
    ensures v == w
  {
    hide RawBits, ZeroBits, WordOf, BitsOf, Halves, Xor;
    RawBitsIsZeroBits(s, v);
    RawBitsIsZeroBits(s, w);
    ZeroBitsInjective(|v|, Xor(s, WordOf(v)), Xor(s, WordOf(w)));
    XorComm(s, WordOf(v));
    XorComm(s, WordOf(w));
    XorCancel(WordOf(v), WordOf(w), s);
    BitsOfWord(v);
    BitsOfWord(w);
  }

  lemma FeedBitInjective(s: bv32, t: bv32, bit: bool)
    requires FeedBit(s, bit) == FeedBit(t, bit)
    ensures s == t
  {}

  /** Different registers stay different over any message bits. */
  lemma {:induction false} RawBitsInjective(s: bv32, t: bv32, bits: seq<bool>)
    requires RawBits(s, bits) == RawBits(t, bits)
    ensures s == t
  {
    hide FeedBit;
    if bits != [] {
      var front, last := bits[..|bits| - 1], bits[|bits| - 1];
      FeedBitInjective(RawBits(s, front), RawBits(t, front), last);
      RawBitsInjective(s, t, front);
    }
  }

  // ---- bursts ----

  /** `a` and `b` differ at most in the 32 message bits from the `p`-th on. */
  predicate SameOutside(a: seq<byte>, b: seq<byte>, p: nat) {
    |a| == |b| && forall k :: 0 <= k < |Bits(a)| && !(p <= k < p + 32) ==> Bits(a)[k] == Bits(b)[k]
  }

  /** Bits that agree outside a window of 32 and leave the same register agree in the window. */
  lemma WindowInjective(s: bv32, v: seq<bool>, w: seq<bool>, p: nat, q: nat)
    requires |v| == |w| && p <= q <= |v| && q <= p + 32 && v[..p] == w[..p] && v[q..] == w[q..]
    requires RawBits(s, v) == RawBits(s, w)
    ensures v == w
  {
    hide RawBits;
    assert v == v[..p] + v[p..q] + v[q..] && w == w[..p] + w[p..q] + w[q..];
    var t := RawBits(s, v[..p]);
    RawBitsAppend(s, v[..p] + v[p..q], v[q..]);
    RawBitsAppend(s, w[..p] + w[p..q], w[q..]);
    RawBitsAppend(s, v[..p], v[p..q]);
    RawBitsAppend(s, w[..p], w[p..q]);
    RawBitsInjective(RawBits(t, v[p..q]), RawBits(t, w[p..q]), v[q..]);
    ShortBitsInjective(t, v[p..q], w[p..q]);
  }

  /** Burst detection: damage confined to 32 consecutive bits of a message, which may lie across five
      bytes, always changes the CRC. */
  lemma BurstDetected(seed: bv32, a: seq<byte>, b: seq<byte>, p: nat)
    requires SameOutside(a, b, p) && a != b
    ensures Crc(seed, a) != Crc(seed, b)
  {
    hide Raw, RawBits, Bits, Not;
    if Crc(seed, a) == Crc(seed, b) {
      var s := Not(seed);
      NotNot(Raw(s, a));
      NotNot(Raw(s, b));
      RawIsRawBits(s, a);
      RawIsRawBits(s, b);
      var n := |Bits(a)|;
      WindowInjective(s, Bits(a), Bits(b), if p < n then p else n, if p + 32 < n then p + 32 else n);
      BitsInjective(a, b);
    }
  }

  /** The 33 bits of the generator. */
  const GENERATOR: seq<byte> := [0xF1, 0x76, 0xEC, 0x05, 0x01]
  const NO_BITS: seq<byte> := [0, 0, 0, 0, 0]

  /** One bit more is too much: the generator in place of zeros, within 33 bits, never shows. */
  lemma GeneratorUndetected(seed: bv32, before: seq<byte>, after: seq<byte>)
    ensures Crc(seed, before + GENERATOR + after) == Crc(seed, before + NO_BITS + after)
    ensures Bits(GENERATOR)[33..] == Bits(NO_BITS)[33..]
  {
    hide Raw, Not, ZeroBits, Xor, Bits;
    var s := Raw(Not(seed), before);
    RawSplit(s, GENERATOR);
    RawSplit(s, NO_BITS);
    GeneratorLeavesNothing();
    RawAppend(Not(seed), before, GENERATOR);
    RawAppend(Not(seed), before, NO_BITS);
    RawAppend(Not(seed), before + GENERATOR, after);
    RawAppend(Not(seed), before + NO_BITS, after);
    GeneratorEnds();
  }

  lemma GeneratorEnds()
    ensures Bits(GENERATOR)[33..] == Bits(NO_BITS)[33..]
  {
    hide Bits, BitsOf;
    BitsSplit(GENERATOR);
    BitsSplit(NO_BITS);
    LastBits();
    assert Bits(GENERATOR)[33..] == Bits(GENERATOR)[32..][1..];
    assert Bits(NO_BITS)[33..] == Bits(NO_BITS)[32..][1..];
  }

  lemma LastBits()
    ensures BitsOf(0x01 as byte as bv32, 8)[1..] == BitsOf(0 as byte as bv32, 8)[1..]
  {
    assert Half(0x01 as byte as bv32) == 0 == Half(0 as byte as bv32);
  }

  lemma GeneratorLeavesNothing()
    ensures Raw(0, GENERATOR) == 0 == Raw(0, NO_BITS)
  {
    hide Raw, ByteStep;
    GeneratorSteps();
    RawFive(0, GENERATOR);
    RawFive(0, NO_BITS);
  }

  lemma RawFive(s: bv32, b: seq<byte>)
    requires |b| == 5
    ensures Raw(s, b) == ByteStep(ByteStep(ByteStep(ByteStep(ByteStep(s, b[0]), b[1]), b[2]), b[3]), b[4])
  {
    hide ByteStep, Raw;
    assert b[..1] == [b[0]] && b[..2] == b[..1] + [b[1]] && b[..3] == b[..2] + [b[2]];
    assert b[..4] == b[..3] + [b[3]] && b == b[..4] + [b[4]];
    RawOne(s, b[0]);
    RawSnoc(s, b[..1], b[1]);
    RawSnoc(s, b[..2], b[2]);
    RawSnoc(s, b[..3], b[3]);
    RawSnoc(s, b[..4], b[4]);
  }

  lemma GeneratorSteps()
    ensures ByteStep(0, 0xF1) == 0x105_ec76 && ByteStep(0x105_ec76, 0x76) == 0x1_05ec
    ensures ByteStep(0x1_05ec, 0xEC) == 0x105 && ByteStep(0x105, 0x05) == 0x1 && ByteStep(0x1, 0x01) == 0
    ensures ByteStep(0, 0) == 0
  {}
}
