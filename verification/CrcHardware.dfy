/**
  CRC-32C with the processor's crc32 instructions: three independent streams per block, stitched
  together by the "append zero bytes" tables.  The destination register of the instructions is modelled
  by its low 32 bits; the instructions clear the others.
  */
module CrcHardware {
  import opened Words
  import opened Crc32c
  import opened Gf2

  /** Block lengths of the interleaved loops. */
  const LONG: nat := 8192
  const SHORT: nat := 256

  /** The one-byte crc32 instruction. */
  function Crc32b(crc: bv32, b: byte): bv32 {
    ByteStep(crc, b)
  }

  /** The eight-byte crc32 instruction: the bytes of the operand in order of significance. */
  function Crc32q(crc: bv32, w: bv64): bv32 {
    Raw(crc, [ByteOf(w, 0), ByteOf(w, 1), ByteOf(w, 2), ByteOf(w, 3), ByteOf(w, 4), ByteOf(w, 5), ByteOf(w, 6),
              ByteOf(w, 7)])
  }

  /** A 64-bit load on a little-endian machine. */
  function LoadLittle(buf: seq<byte>, next: nat): bv64
    requires next + 8 <= |buf|
  {
    Load64(buf[next], buf[next + 1], buf[next + 2], buf[next + 3], buf[next + 4], buf[next + 5], buf[next + 6],
           buf[next + 7])
  }

  lemma Crc32qStep(s: bv32, buf: seq<byte>, start: nat, next: nat)
    requires start <= next && next + 8 <= |buf|
    ensures Crc32q(Raw(s, buf[start..next]), LoadLittle(buf, next)) == Raw(s, buf[start..next + 8])
  {
    hide Raw, ByteOf, Load64;
    var b := buf[next..next + 8];
    BytesOfLoad(b[0], b[1], b[2], b[3], b[4], b[5], b[6], b[7]);
    assert b == [b[0], b[1], b[2], b[3], b[4], b[5], b[6], b[7]];
    assert buf[start..next + 8] == buf[start..next] + b;
    RawAppend(s, buf[start..next], b);
  }

  lemma ByteAdvance(s: bv32, buf: seq<byte>, next: nat)
    requires next < |buf|
    ensures ByteStep(Raw(s, buf[..next]), buf[next]) == Raw(s, buf[..next + 1])
  {
    hide ByteStep;
    assert buf[..next + 1] == buf[..next] + [buf[next]];
    RawSnoc(s, buf[..next], buf[next]);
  }

  /** Three streams of `size` bytes, combined. */
  lemma ThreeStreams(s: bv32, a: seq<byte>, b: seq<byte>, c: seq<byte>, bits: nat)
    requires |b| == |c| && bits == 8 * |b|
    ensures Raw(s, a + b + c) == Xor(ZeroBits(bits, Xor(ZeroBits(bits, Raw(s, a)), Raw(0, b))), Raw(0, c))
  {
    hide Raw, ZeroBits, Xor;
    RawCombine(s, a, b);
    RawCombine(s, a + b, c);
  }

  /** The combination law with the tables: the register of a concatenation from the registers of the parts,
      the second started empty. */
  lemma CombineByTables(zeros: array2<bv32>, s: bv32, a: seq<byte>, b: seq<byte>)
    requires IsShiftTable(zeros, 8 * |b|)
    ensures Raw(s, a + b) == Xor(Crc32cShift(zeros, Raw(s, a)), Raw(0, b))
  {
    hide Raw, Xor, ZeroBits, Crc32cShift;
    RawCombine(s, a, b);
    ShiftIsZeroBits(zeros, 8 * |b|, Raw(s, a));
  }

  /** One block of 3 * `size` bytes in three interleaved streams. */
  method InterleavedBlock(zeros: array2<bv32>, crc: bv32, buf: seq<byte>, start: nat, size: nat) returns (crc0: bv32)
    requires size > 0 && size % 8 == 0 && start + 3 * size <= |buf|
    requires IsShiftTable(zeros, 8 * size)
    ensures crc0 == Raw(crc, buf[start..start + 3 * size])
  {
    hide Raw, Xor, ZeroBits, Crc32q, LoadLittle, Crc32cShift;
    var crc1: bv32, crc2: bv32 := 0, 0;
    crc0 := crc;
    RawEmpty(crc);
    RawEmpty(0);
    assert buf[start..start] == buf[start + size..start + size] == buf[start + 2 * size..start + 2 * size] == [];
    var next, end := start, start + size;
    while true
      invariant start <= next < end && (end - next) % 8 == 0
      invariant crc0 == Raw(crc, buf[start..next])
      invariant crc1 == Raw(0, buf[start + size..next + size])
      invariant crc2 == Raw(0, buf[start + 2 * size..next + 2 * size])
      decreases end - next
    {
      Crc32qStep(crc, buf, start, next);
      Crc32qStep(0, buf, start + size, next + size);
      Crc32qStep(0, buf, start + 2 * size, next + 2 * size);
      crc0 := Crc32q(crc0, LoadLittle(buf, next));
      crc1 := Crc32q(crc1, LoadLittle(buf, next + size));
      crc2 := Crc32q(crc2, LoadLittle(buf, next + 2 * size));
      next := next + 8;
      if next >= end {
        break;
      }
    }
    var a, b, c := buf[start..start + size], buf[start + size..start + 2 * size],
                   buf[start + 2 * size..start + 3 * size];
    assert buf[start..start + 3 * size] == a + b + c;
    ThreeStreams(crc, a, b, c, 8 * size);
    ShiftIsZeroBits(zeros, 8 * size, crc0);
    crc0 := Xor(Crc32cShift(zeros, crc0), crc1);
    ShiftIsZeroBits(zeros, 8 * size, crc0);
    crc0 := Xor(Crc32cShift(zeros, crc0), crc2);
  }

  lemma RawEmpty(s: bv32)
    ensures Raw(s, []) == s
  {}

  lemma BlockAdvance(s: bv32, buf: seq<byte>, next: nat, n: nat)
    requires next + n <= |buf|
    ensures Raw(Raw(s, buf[..next]), buf[next..next + n]) == Raw(s, buf[..next + n])
  {
    hide Raw;
    assert buf[..next + n] == buf[..next] + buf[next..next + n];
    RawAppend(s, buf[..next], buf[next..next + n]);
  }

  /** Byte by byte up to an address that is a multiple of eight. */
  method ToBoundary(ghost s: bv32, crc: bv32, buf: seq<byte>, address: nat) returns (crc0: bv32, next: nat)
    requires crc == Raw(s, [])
    ensures next <= |buf| && crc0 == Raw(s, buf[..next])
  {
    hide Raw, ByteStep;
    crc0, next := crc, 0;
    assert buf[..0] == [];
    var len: nat := |buf|;
    while len != 0 && (address + next) % 8 != 0
      invariant next + len == |buf| && crc0 == Raw(s, buf[..next])
    {
      ByteAdvance(s, buf, next);
      crc0 := Crc32b(crc0, buf[next]);
      next := next + 1;
      len := len - 1;
    }
  }

  /** As many interleaved blocks as fit. */
  method FeedBlocks(ghost s: bv32, zeros: array2<bv32>, size: nat, crc: bv32, buf: seq<byte>, start: nat)
    returns (crc0: bv32, next: nat)
    requires size > 0 && size % 8 == 0 && IsShiftTable(zeros, 8 * size)
    requires start <= |buf| && crc == Raw(s, buf[..start])
    ensures next <= |buf| && crc0 == Raw(s, buf[..next])
  {
    hide Raw, IsShiftTable;
    crc0, next := crc, start;
    var len: nat := |buf| - start;
    while len >= 3 * size
      invariant next + len == |buf| && crc0 == Raw(s, buf[..next])
    {
      crc0 := InterleavedBlock(zeros, crc0, buf, next, size);
      BlockAdvance(s, buf, next, 3 * size);
      next := next + 3 * size;
      len := len - 3 * size;
    }
  }

  /** Whole words, one at a time. */
  method FeedWords(ghost s: bv32, crc: bv32, buf: seq<byte>, start: nat) returns (crc0: bv32, next: nat)
    requires start <= |buf| && crc == Raw(s, buf[..start])
    ensures next <= |buf| && crc0 == Raw(s, buf[..next])
  {
    hide Raw, Crc32q, LoadLittle;
    crc0, next := crc, start;
    var len: nat := |buf| - start;
    var end := next + (len - len % 8);
    while next < end
      invariant next <= end <= |buf| && (end - next) % 8 == 0 && crc0 == Raw(s, buf[..next])
    {
      assert buf[..next] == buf[0..next] && buf[..next + 8] == buf[0..next + 8];
      Crc32qStep(s, buf, 0, next);
      crc0 := Crc32q(crc0, LoadLittle(buf, next));
      next := next + 8;
    }
  }

  /** The bytes that are left. */
  method FeedBytes(ghost s: bv32, crc: bv32, buf: seq<byte>, start: nat) returns (crc0: bv32, next: nat)
    requires start <= |buf| && crc == Raw(s, buf[..start])
    ensures next == |buf| && crc0 == Raw(s, buf[..next])
  {
    hide Raw, ByteStep;
    crc0, next := crc, start;
    var len: nat := |buf| - start;
    while len != 0
      invariant next + len == |buf| && crc0 == Raw(s, buf[..next])
    {
      ByteAdvance(s, buf, next);
      crc0 := Crc32b(crc0, buf[next]);
      next := next + 1;
      len := len - 1;
    }
  }

  /** The two table sets of the hardware form. */
  class Engine {
    var initialized: bool
    const long: array2<bv32>
    const short: array2<bv32>

    ghost predicate Valid()
      reads this, long, short
    {
      && long != short
      && long.Length0 == short.Length0 == 4 && long.Length1 == short.Length1 == 256
      && (initialized ==> IsShiftTable(long, 8 * LONG) && IsShiftTable(short, 8 * SHORT))
    }

    constructor ()
      ensures Valid() && !initialized && fresh(long) && fresh(short)
    {
      initialized := false;
      long := new bv32[4, 256];
      short := new bv32[4, 256];
    }

    method InitHw()
      requires Valid()
      modifies this, long, short
      ensures Valid() && initialized
    {
      hide ZeroBits, Place, Index;
      if initialized {
        return;
      }
      initialized := true;
      BlockSizesArePowers();
      Crc32cZeros(long, LONG);
      Crc32cZeros(short, SHORT);
    }

    /** The CRC of the whole buffer, wherever it starts in memory. */
    method Crc32cHw(crc: bv32, buf: seq<byte>, address: nat) returns (r: bv32)
      requires Valid()
      modifies this, long, short
      ensures Valid() && r == Crc(crc, buf)
    {
      hide Raw, ByteStep, Crc32q, LoadLittle, Not, IsShiftTable;
      InitHw();
      ghost var s := Not(crc);
      var crc0 := Not(crc);
      var next: nat;
      RawEmpty(s);
      assert buf[..0] == [];
      crc0, next := ToBoundary(s, crc0, buf, address);
      crc0, next := FeedBlocks(s, long, LONG, crc0, buf, next);
      crc0, next := FeedBlocks(s, short, SHORT, crc0, buf, next);
      crc0, next := FeedWords(s, crc0, buf, next);
      crc0, next := FeedBytes(s, crc0, buf, next);
      assert buf[..next] == buf;
      r := Not(crc0);
    }
  }

  lemma BlockSizesArePowers()
    ensures PowerFloor(LONG) == LONG && PowerFloor(SHORT) == SHORT
  {
    assert IsPowerOfTwo(LONG) && IsPowerOfTwo(SHORT);
    PowerFloorOfPower(LONG);
    PowerFloorOfPower(SHORT);
  }
}
