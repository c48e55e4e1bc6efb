/**
  Table-driven CRC-32C, eight bytes per step, for either byte order of the machine.
  */
module CrcSoftware {
  import opened Words
  import opened Crc32c
  import opened CrcHardware

  // ---- slicing by eight ----

  /** Table `k` holds what each byte value becomes under `k + 1` zero bytes. */
  ghost predicate IsSliceTable(table: array2<bv32>)
    reads table
  {
    && table.Length0 == 8 && table.Length1 == 256
    && forall k, n :: 0 <= k < 8 && 0 <= n < 256 ==> table[k, n] == Slice(k, ToByte(n))
  }

  function Slice(k: nat, b: byte): bv32 {
    ZeroBits(8 * k + 8, b as bv32)
  }

  /** The eight lookups, first byte of the word in the table furthest from the end. */
  function SliceSum(w: bv64): bv32 {
    var s2 := Xor(Slice(7, ByteOf(w, 0)), Slice(6, ByteOf(w, 1)));
    var s4 := Xor(Xor(s2, Slice(5, ByteOf(w, 2))), Slice(4, ByteOf(w, 3)));
    var s6 := Xor(Xor(s4, Slice(3, ByteOf(w, 4))), Slice(2, ByteOf(w, 5)));
    Xor(Xor(s6, Slice(1, ByteOf(w, 6))), Slice(0, ByteOf(w, 7)))
  }

  /** Four bytes already in the register. */
  lemma SlicesOfWord(c0: byte, c1: byte, c2: byte, c3: byte)
    ensures ZeroBits(64, Word4(c0, c1, c2, c3))
         == Xor(Xor(Xor(Slice(7, c0), Slice(6, c1)), Slice(5, c2)), Slice(4, c3))
  {
    hide Xor, ZeroBits, Place;
    var p0, p1, p2, p3 := Place(0, c0), Place(1, c1), Place(2, c2), Place(3, c3);
    ZeroBitsLinear(64, Xor(Xor(p0, p1), p2), p3);
    ZeroBitsLinear(64, Xor(p0, p1), p2);
    ZeroBitsLinear(64, p0, p1);
    ZeroBitsOfPlace(64, 0, c0);
    ZeroBitsOfPlace(56, 1, c1);
    ZeroBitsOfPlace(48, 2, c2);
    ZeroBitsOfPlace(40, 3, c3);
  }

  lemma WordXor(s: bv32, b0: byte, b1: byte, b2: byte, b3: byte)
    ensures Xor(s, Word4(b0, b1, b2, b3))
         == Word4(Xor8(LowByte(s), b0), Xor8(LowByte(Down8(s)), b1), Xor8(LowByte(Down8(Down8(s))), b2),
                  Xor8(LowByte(Down8(Down8(Down8(s)))), b3))
  {}

  /** Four bytes with an empty register. */
  lemma Raw4Slices(s: bv32, w: seq<byte>)
    requires |w| == 4
    ensures var z := ZeroBits(32, s);
            Raw(s, w) == Xor(Xor(Xor(Xor(z, Slice(3, w[0])), Slice(2, w[1])), Slice(1, w[2])), Slice(0, w[3]))
  {
    hide Xor, ZeroBits, Place, Raw, Slice;
    Raw4(s, w);
    ZeroBitsLinear(32, s, Word4(w[0], w[1], w[2], w[3]));
    LowSlices(w[0], w[1], w[2], w[3]);
    var z, t3, t2, t1, t0 := ZeroBits(32, s), Slice(3, w[0]), Slice(2, w[1]), Slice(1, w[2]), Slice(0, w[3]);
    XorAssoc(z, Xor(Xor(t3, t2), t1), t0);
    XorAssoc(z, Xor(t3, t2), t1);
    XorAssoc(z, t3, t2);
  }

  lemma LowSlices(c0: byte, c1: byte, c2: byte, c3: byte)
    ensures ZeroBits(32, Word4(c0, c1, c2, c3))
         == Xor(Xor(Xor(Slice(3, c0), Slice(2, c1)), Slice(1, c2)), Slice(0, c3))
  {
    hide Xor, ZeroBits, Place;
    var p0, p1, p2, p3 := Place(0, c0), Place(1, c1), Place(2, c2), Place(3, c3);
    ZeroBitsLinear(32, Xor(Xor(p0, p1), p2), p3);
    ZeroBitsLinear(32, Xor(p0, p1), p2);
    ZeroBitsLinear(32, p0, p1);
    ZeroBitsOfPlace(32, 0, c0);
    ZeroBitsOfPlace(24, 1, c1);
    ZeroBitsOfPlace(16, 2, c2);
    ZeroBitsOfPlace(8, 3, c3);
  }

  /** Eight bytes are eight lookups in the word formed by the register and the bytes. */
  lemma EightBytesAreSlices(s: bv32, b: seq<byte>)
    requires |b| == 8
    ensures Raw(s, b) == SliceSum(Xor64(Widen(s), LoadLittle(b, 0)))
  {
    hide Xor, ZeroBits, Word4, Raw, Slice, Xor64, Widen, Load64, ByteOf, LowByte, Down8, Xor8;
    var w := LoadLittle(b, 0);
    BytesOfLoad(b[0], b[1], b[2], b[3], b[4], b[5], b[6], b[7]);
    MixedBytes(s, w);
    var x := Xor(s, Word4(b[0], b[1], b[2], b[3]));
    assert b == b[..4] + b[4..];
    RawAppend(s, b[..4], b[4..]);
    Raw4(s, b[..4]);
    Raw4Slices(ZeroBits(32, x), b[4..]);
    ZeroBitsCompose(32, 32, x);
    WordXor(s, b[0], b[1], b[2], b[3]);
    SlicesOfWord(Xor8(LowByte(s), b[0]), Xor8(LowByte(Down8(s)), b[1]), Xor8(LowByte(Down8(Down8(s))), b[2]),
                 Xor8(LowByte(Down8(Down8(Down8(s)))), b[3]));
  }

  // ---- the tables ----

  /** `crc` through the eight unrolled steps of table construction. */
  function EightSteps(crc: bv32): bv32 {
    BitStep(BitStep(BitStep(BitStep(BitStep(BitStep(BitStep(BitStep(crc))))))))
  }

  lemma EightStepsAreSlice(b: byte)
    ensures EightSteps(b as bv32) == Slice(0, b)
  {
    hide BitStep;
    var c := b as bv32;
    var d := BitStep(BitStep(BitStep(BitStep(c))));
    assert ZeroBits(8, c) == ZeroBits(6, BitStep(BitStep(c))) == ZeroBits(4, d);
    var e := BitStep(BitStep(d));
    assert ZeroBits(4, d) == ZeroBits(2, e) == ZeroBits(0, BitStep(BitStep(e)));
  }

  /** The next table entry from the one before it. */
  lemma SliceNext(k: nat, b: byte)
    ensures Slice(k + 1, b) == Xor(Slice(0, LowByte(Slice(k, b))), Down8(Slice(k, b)))
  {
    hide ZeroBits, Xor, LowByte, Down8, ByteStep;
    var s := Slice(k, b);
    ZeroBitsCompose(8 * k + 8, 8, b as bv32);
    ByteStepIsZeroBits(s, 0);
    ByteStepByTable(s, 0);
    XorZero(s);
    NoByte();
  }

  lemma NoByte()
    ensures (0 as byte) as bv32 == 0
  {}

  // ---- little-endian machines ----

  class Little {
    var initialized: bool
    const table: array2<bv32>

    ghost predicate Valid()
      reads this, table
    {
      table.Length0 == 8 && table.Length1 == 256 && (initialized ==> IsSliceTable(table))
    }

    constructor ()
      ensures Valid() && !initialized && fresh(table)
    {
      initialized := false;
      table := new bv32[8, 256];
    }

    method InitSwLittle()
      requires Valid()
      modifies this, table
      ensures Valid() && initialized
    {
      hide Slice, Xor, LowByte, Down8, Index, ToByte, EightSteps;
      if initialized {
        return;
      }
      initialized := true;
      for n := 0 to 256
        modifies table
        invariant forall m :: 0 <= m < n ==> table[0, m] == Slice(0, ToByte(m))
      {
        EightStepsAreSlice(ToByte(n));
        table[0, n] := EightSteps(ToByte(n) as bv32);
      }
      for n := 0 to 256
        modifies table
        invariant forall m :: 0 <= m < 256 ==> table[0, m] == Slice(0, ToByte(m))
        invariant forall k, m :: 0 <= k < 8 && 0 <= m < n ==> table[k, m] == Slice(k, ToByte(m))
      {
        FillSlices(n);
      }
    }

    /** The entries of one byte value in the tables behind the first. */
    method FillSlices(n: nat)
      requires table.Length0 == 8 && table.Length1 == 256 && n < 256
      requires forall m :: 0 <= m < 256 ==> table[0, m] == Slice(0, ToByte(m))
      modifies table
      ensures forall k :: 0 <= k < 8 ==> table[k, n] == Slice(k, ToByte(n))
      ensures forall k, m :: 0 <= k < 8 && 0 <= m < 256 && (m != n || k == 0) ==> table[k, m] == old(table[k, m])
    {
      hide Slice, Xor, LowByte, Down8, Index, ToByte;
      var crc := table[0, n];
      for k := 1 to 8
        invariant crc == Slice(k - 1, ToByte(n))
        invariant forall j :: 0 <= j < k ==> table[j, n] == Slice(j, ToByte(n))
        invariant forall j, m :: 0 <= j < 8 && 0 <= m < 256 && (m != n || j == 0) ==> table[j, m] == old(table[j, m])
      {
        SliceNext(k - 1, ToByte(n));
        ToByteOfIndex(LowByte(crc));
        crc := Xor(table[0, Index(LowByte(crc))], Down8(crc));
        table[k, n] := crc;
      }
    }

    /** One byte through table 0. */
    function ByteLookup(crc: bv32, b: byte): bv32
      requires Valid()
      reads this, table
    {
      Xor(table[0, Index(LowByte(Xor(crc, b as bv32)))], Down8(crc))
    }

    lemma ByteLookupIsStep(crc: bv32, b: byte)
      requires Valid() && initialized
      ensures ByteLookup(crc, b) == ByteStep(crc, b)
    {
      hide Xor, LowByte, Down8, Index, ToByte, ByteStep, ZeroBits;
      ByteStepByTable(crc, b);
      ToByteOfIndex(LowByte(Xor(crc, b as bv32)));
    }

    /** Eight lookups. */
    function WordLookup(w: bv64): bv32
      requires Valid()
      reads this, table
    {
      var s2 := Xor(table[7, Index(ByteOf(w, 0))], table[6, Index(ByteOf(w, 1))]);
      var s4 := Xor(Xor(s2, table[5, Index(ByteOf(w, 2))]), table[4, Index(ByteOf(w, 3))]);
      var s6 := Xor(Xor(s4, table[3, Index(ByteOf(w, 4))]), table[2, Index(ByteOf(w, 5))]);
      Xor(Xor(s6, table[1, Index(ByteOf(w, 6))]), table[0, Index(ByteOf(w, 7))])
    }

    lemma WordLookupIsSum(w: bv64)
      requires Valid() && initialized
      ensures WordLookup(w) == SliceSum(w)
    {
      hide Xor, Index, ToByte, Slice, ByteOf;
      forall i: nat | i < 8
        ensures ToByte(Index(ByteOf(w, i))) == ByteOf(w, i)
      {
        ToByteOfIndex(ByteOf(w, i));
      }
    }

    /** The CRC of the whole buffer, wherever it starts in memory. */
    method Crc32cSwLittle(seed: bv32, buf: seq<byte>, address: nat) returns (r: bv32)
      requires Valid()
      modifies this, table
      ensures Valid() && r == Crc(seed, buf)
    {
      hide Raw, ByteStep, Not, LoadLittle, Xor64, Widen, Narrow, ByteLookup, WordLookup, IsSliceTable, SliceSum;
      InitSwLittle();
      ghost var s := Not(seed);
      var crc := Not(seed);
      var next: nat, len: nat := 0, |buf|;
      RawEmpty(s);
      assert buf[..0] == [];
      while len != 0 && (address + next) % 8 != 0
        modifies {}
        invariant next + len == |buf| && crc == Raw(s, buf[..next])
      {
        ByteAdvance(s, buf, next);
        ByteLookupIsStep(crc, buf[next]);
        crc := ByteLookup(crc, buf[next]);
        next := next + 1;
        len := len - 1;
      }
      if len >= 8 {
        var crcw := Widen(crc);
        while true
          modifies {}
          invariant next + len == |buf| && len >= 8 && crcw == Widen(Raw(s, buf[..next]))
          decreases len
        {
          EightAdvance(s, buf, next);
          crcw := Xor64(crcw, LoadLittle(buf, next));
          WordLookupIsSum(crcw);
          crcw := Widen(WordLookup(crcw));
          next := next + 8;
          len := len - 8;
          if len < 8 {
            break;
          }
        }
        NarrowWiden(Raw(s, buf[..next]));
        crc := Narrow(crcw);
      }
      while len != 0
        modifies {}
        invariant next + len == |buf| && crc == Raw(s, buf[..next])
      {
        ByteAdvance(s, buf, next);
        ByteLookupIsStep(crc, buf[next]);
        crc := ByteLookup(crc, buf[next]);
        next := next + 1;
        len := len - 1;
      }
      assert buf[..next] == buf;
      r := Not(crc);
    }
  }

  lemma EightAdvance(s: bv32, buf: seq<byte>, next: nat)
    requires next + 8 <= |buf|
    ensures SliceSum(Xor64(Widen(Raw(s, buf[..next])), LoadLittle(buf, next))) == Raw(s, buf[..next + 8])
  {
    hide Raw, SliceSum, Xor64, Widen, Load64;
    var b := buf[next..next + 8];
    BlockAdvance(s, buf, next, 8);
    EightBytesAreSlices(Raw(s, buf[..next]), b);
    assert LoadLittle(b, 0) == LoadLittle(buf, next);
  }

  // ---- big-endian machines ----

  /** A 64-bit load on a big-endian machine. */
  function LoadBig(buf: seq<byte>, next: nat): bv64
    requires next + 8 <= |buf|
  {
    Load64(buf[next + 7], buf[next + 6], buf[next + 5], buf[next + 4], buf[next + 3], buf[next + 2], buf[next + 1],
           buf[next])
  }

  /** A register as the big-endian form keeps it: byte-swapped, in the top half of the word. */
  function Swapped(c: bv32): bv64 {
    Swap(Widen(c))
  }

  lemma SwappedXor(a: bv32, b: bv32)
    ensures Swapped(Xor(a, b)) == Xor64(Swapped(a), Swapped(b))
  {
    hide Swap, Widen, Xor, Xor64;
    WidenXor(a, b);
    SwapXor(Widen(a), Widen(b));
  }

  /** The swapped register xored with a big-endian load is the swap of the little-endian form's word. */
  lemma BigWord(c: bv32, buf: seq<byte>, next: nat)
    requires next + 8 <= |buf|
    ensures Xor64(Swapped(c), LoadBig(buf, next)) == Swap(Xor64(Widen(c), LoadLittle(buf, next)))
  {
    hide Swap, Widen, Xor64, Load64;
    SwapXor(Widen(c), LoadLittle(buf, next));
    SwapLoad(buf[next], buf[next + 1], buf[next + 2], buf[next + 3], buf[next + 4], buf[next + 5], buf[next + 6],
             buf[next + 7]);
  }

  ghost predicate IsSwappedTable(table: array2<bv64>)
    reads table
  {
    && table.Length0 == 8 && table.Length1 == 256
    && forall k, n :: 0 <= k < 8 && 0 <= n < 256 ==> table[k, n] == Swapped(Slice(k, ToByte(n)))
  }

  class Big {
    var initialized: bool
    const byteTable: array<bv32>
    const table: array2<bv64>

    ghost predicate Valid()
      reads this, table, byteTable
    {
      && table.Length0 == 8 && table.Length1 == 256 && byteTable.Length == 256
      && (initialized ==> IsSwappedTable(table) && IsByteTable(byteTable))
    }

    constructor ()
      ensures Valid() && !initialized && fresh(table) && fresh(byteTable)
    {
      initialized := false;
      table := new bv64[8, 256];
      byteTable := new bv32[256];
    }

    method InitSwBig()
      requires Valid()
      modifies this, table, byteTable
      ensures Valid() && initialized
    {
      hide Slice, Xor, LowByte, Down8, Index, ToByte, EightSteps, Swap, Widen;
      if initialized {
        return;
      }
      initialized := true;
      for n := 0 to 256
        modifies byteTable
        invariant forall m :: 0 <= m < n ==> byteTable[m] == Slice(0, ToByte(m))
      {
        EightStepsAreSlice(ToByte(n));
        byteTable[n] := EightSteps(ToByte(n) as bv32);
      }
      for n := 0 to 256
        modifies table
        invariant forall k, m :: 0 <= k < 8 && 0 <= m < n ==> table[k, m] == Swapped(Slice(k, ToByte(m)))
      {
        FillSlices(n);
      }
    }

    /** The swapped entries of one byte value. */
    method FillSlices(n: nat)
      requires table.Length0 == 8 && table.Length1 == 256 && n < 256 && IsByteTable(byteTable)
      modifies table
      ensures forall k :: 0 <= k < 8 ==> table[k, n] == Swapped(Slice(k, ToByte(n)))
      ensures forall k, m :: 0 <= k < 8 && 0 <= m < 256 && m != n ==> table[k, m] == old(table[k, m])
    {
      hide Slice, Xor, LowByte, Down8, Index, ToByte, Swap, Widen;
      var crc := byteTable[n];
      table[0, n] := Swap(Widen(crc));
      for k := 1 to 8
        invariant crc == Slice(k - 1, ToByte(n))
        invariant forall j :: 0 <= j < k ==> table[j, n] == Swapped(Slice(j, ToByte(n)))
        invariant forall j, m :: 0 <= j < 8 && 0 <= m < 256 && m != n ==> table[j, m] == old(table[j, m])
      {
        SliceNext(k - 1, ToByte(n));
        ToByteOfIndex(LowByte(crc));
        crc := Xor(byteTable[Index(LowByte(crc))], Down8(crc));
        table[k, n] := Swap(Widen(crc));
      }
    }

    /** One byte through the unswapped table. */
    function ByteLookup(crc: bv32, b: byte): bv32
      requires Valid()
      reads this, table, byteTable
    {
      Xor(byteTable[Index(LowByte(Xor(crc, b as bv32)))], Down8(crc))
    }

    lemma ByteLookupIsStep(crc: bv32, b: byte)
      requires Valid() && initialized
      ensures ByteLookup(crc, b) == ByteStep(crc, b)
    {
      hide Xor, LowByte, Down8, Index, ToByte, ByteStep, ZeroBits, IsSwappedTable;
      ByteStepByTable(crc, b);
      ToByteOfIndex(LowByte(Xor(crc, b as bv32)));
    }

    /** Eight lookups, the tables in the opposite order. */
    function WordLookup(w: bv64): bv64
      requires Valid()
      reads this, table, byteTable
    {
      var s2 := Xor64(table[0, Index(ByteOf(w, 0))], table[1, Index(ByteOf(w, 1))]);
      var s4 := Xor64(Xor64(s2, table[2, Index(ByteOf(w, 2))]), table[3, Index(ByteOf(w, 3))]);
      var s6 := Xor64(Xor64(s4, table[4, Index(ByteOf(w, 4))]), table[5, Index(ByteOf(w, 5))]);
      Xor64(Xor64(s6, table[6, Index(ByteOf(w, 6))]), table[7, Index(ByteOf(w, 7))])
    }

    /** On a swapped word the swapped tables give the swapped sum. */
    lemma WordLookupIsSum(w: bv64)
      requires Valid() && initialized
      ensures WordLookup(Swap(w)) == Swapped(SliceSum(w))
    {
      hide Xor, Xor64, Index, ToByte, Slice, ByteOf, Swap, Swapped, IsByteTable;
      var v := Swap(w);
      SwapBytes(w);
      forall i: nat | i < 8
        ensures ToByte(Index(ByteOf(v, i))) == ByteOf(v, i)
      {
        ToByteOfIndex(ByteOf(v, i));
      }
      var t0, t1 := Slice(0, ByteOf(w, 7)), Slice(1, ByteOf(w, 6));
      var t2, t3 := Slice(2, ByteOf(w, 5)), Slice(3, ByteOf(w, 4));
      var t4, t5 := Slice(4, ByteOf(w, 3)), Slice(5, ByteOf(w, 2));
      var t6, t7 := Slice(6, ByteOf(w, 1)), Slice(7, ByteOf(w, 0));
      Sum8Reversed(t0, t1, t2, t3, t4, t5, t6, t7);
      SwappedSum(t0, t1, t2, t3, t4, t5, t6, t7);
    }

    /** The CRC of the whole buffer, wherever it starts in memory. */
    method Crc32cSwBig(seed: bv32, buf: seq<byte>, address: nat) returns (r: bv32)
      requires Valid()
      modifies this, table, byteTable
      ensures Valid() && r == Crc(seed, buf)
    {
      hide Raw, ByteStep, Not, LoadLittle, LoadBig, Xor64, Widen, Narrow, Swap, Swapped, ByteLookup, WordLookup,
        IsSwappedTable, IsByteTable, SliceSum;
      InitSwBig();
      ghost var s := Not(seed);
      var crc := Not(seed);
      var next: nat, len: nat := 0, |buf|;
      RawEmpty(s);
      assert buf[..0] == [];
      while len != 0 && (address + next) % 8 != 0
        modifies {}
        invariant next + len == |buf| && crc == Raw(s, buf[..next])
      {
        ByteAdvance(s, buf, next);
        ByteLookupIsStep(crc, buf[next]);
        crc := ByteLookup(crc, buf[next]);
        next := next + 1;
        len := len - 1;
      }
      if len >= 8 {
        var crcw := Swap(Widen(crc));
        SwappedIs(crc);
        while true
          modifies {}
          invariant next + len == |buf| && len >= 8 && crcw == Swapped(Raw(s, buf[..next]))
          decreases len
        {
          EightAdvance(s, buf, next);
          BigWord(Raw(s, buf[..next]), buf, next);
          WordLookupIsSum(Xor64(Widen(Raw(s, buf[..next])), LoadLittle(buf, next)));
          crcw := Xor64(crcw, LoadBig(buf, next));
          crcw := WordLookup(crcw);
          next := next + 8;
          len := len - 8;
          if len < 8 {
            break;
          }
        }
        Unswapped(Raw(s, buf[..next]));
        crc := Narrow(Swap(crcw));
      }
      while len != 0
        modifies {}
        invariant next + len == |buf| && crc == Raw(s, buf[..next])
      {
        ByteAdvance(s, buf, next);
        ByteLookupIsStep(crc, buf[next]);
        crc := ByteLookup(crc, buf[next]);
        next := next + 1;
        len := len - 1;
      }
      assert buf[..next] == buf;
      r := Not(crc);
    }
  }

  ghost predicate IsByteTable(byteTable: array<bv32>)
    reads byteTable
  {
    byteTable.Length == 256 && forall n :: 0 <= n < 256 ==> byteTable[n] == Slice(0, ToByte(n))
  }

  lemma SwappedIs(c: bv32)
    ensures Swapped(c) == Swap(Widen(c))
  {}

  lemma Unswapped(c: bv32)
    ensures Narrow(Swap(Swapped(c))) == c
  {
    hide Swap, Widen, Narrow;
    SwapSwap(Widen(c));
    NarrowWiden(c);
  }

  lemma SwappedSum(t0: bv32, t1: bv32, t2: bv32, t3: bv32, t4: bv32, t5: bv32, t6: bv32, t7: bv32)
    ensures Swapped(Xor(Xor(Xor(Xor(Xor(Xor(Xor(t0, t1), t2), t3), t4), t5), t6), t7))
         == Xor64(Xor64(Xor64(Xor64(Xor64(Xor64(Xor64(Swapped(t0), Swapped(t1)), Swapped(t2)), Swapped(t3)),
                                    Swapped(t4)),
                              Swapped(t5)), Swapped(t6)), Swapped(t7))
  {
    hide Swapped, Xor, Xor64;
    var s1 := Xor(t0, t1);
    var s2 := Xor(s1, t2);
    var s3 := Xor(s2, t3);
    var s4 := Xor(s3, t4);
    var s5 := Xor(s4, t5);
    var s6 := Xor(s5, t6);
    SwappedXor(t0, t1);
    SwappedXor(s1, t2);
    SwappedXor(s2, t3);
    SwappedXor(s3, t4);
    SwappedXor(s4, t5);
    SwappedXor(s5, t6);
    SwappedXor(s6, t7);
  }
}
