/**
  Linear operators on the CRC register: 32x32 matrices over GF(2) as arrays of 32 columns, the
  operator that appends zero bytes built by repeated squaring, and its four-table form.
  */
module Gf2 {
  import opened Words
  import opened Crc32c

  // ---- what the code computes ----

  predicate Odd(v: bv32) {
    v & 1 == 1
  }

  function Double(v: bv32): bv32 {
    v << 1
  }

  /** A matrix applied to a vector: the sum of the columns that the vector's bits select. */
  function Times(mat: seq<bv32>, vec: bv32): bv32
    decreases |mat|
  {
    if mat == [] then 0 else Xor(if Odd(vec) then mat[0] else 0, Times(mat[1..], Half(vec)))
  }

  /** `v` doubled `n` times; column `n` of a matrix is the image of `Doubles(n, 1)`. */
  function Doubles(n: nat, v: bv32): bv32
    decreases n
  {
    if n == 0 then v else Doubles(n - 1, Double(v))
  }

  /** The matrix of "append `bits` zero bits". */
  ghost predicate IsZerosOp(mat: seq<bv32>, bits: nat) {
    |mat| == 32 && forall i :: 0 <= i < 32 ==> mat[i] == ZeroBits(bits, Doubles(i, 1))
  }

  /** The largest power of two not above `len`, and 1 for 0. */
  function PowerFloor(len: nat): nat {
    if len <= 1 then 1 else 2 * PowerFloor(len / 2)
  }

  lemma {:induction false} PowerFloorBounds(len: nat)
    ensures PowerFloor(len) <= (if len == 0 then 1 else len) < 2 * PowerFloor(len)
    ensures IsPowerOfTwo(PowerFloor(len))
  {
    if len > 1 {
      PowerFloorBounds(len / 2);
    }
  }

  predicate IsPowerOfTwo(n: nat) {
    n == 1 || (n > 1 && n % 2 == 0 && IsPowerOfTwo(n / 2))
  }

  lemma {:induction false} PowerFloorOfPower(n: nat)
    requires IsPowerOfTwo(n)
    ensures PowerFloor(n) == n
  {
    if n > 1 {
      PowerFloorOfPower(n / 2);
    }
  }

  // ---- a matrix whose columns are the images of the unit vectors is the operator ----

  lemma {:induction false} HalvesCompose(m: nat, n: nat, c: bv32)
    ensures Halves(m + n, c) == Halves(n, Halves(m, c))
  {
    hide Half;
    if m > 0 {
      HalvesCompose(m - 1, n, Half(c));
    }
  }

  lemma NoBitsLeft(c: bv32)
    ensures Halves(32, c) == 0
  {
    hide Half, Down8, Halves;
    HalvesCompose(8, 24, c);
    HalvesCompose(8, 16, Down8(c));
    HalvesCompose(8, 8, Down8(Down8(c)));
    HalvesEight(c);
    HalvesEight(Down8(c));
    HalvesEight(Down8(Down8(c)));
    HalvesEight(Down8(Down8(Down8(c))));
    DownFour(c);
  }

  lemma DownFour(c: bv32)
    ensures Down8(Down8(Down8(Down8(c)))) == 0
  {}

  lemma SplitLowBit(v: bv32)
    ensures v == Xor(if Odd(v) then 1 else 0, Double(Half(v)))
  {}

  lemma {:induction false} DoublesXor(n: nat, a: bv32, b: bv32)
    ensures Doubles(n, Xor(a, b)) == Xor(Doubles(n, a), Doubles(n, b))
  {
    hide Double, Xor;
    if n > 0 {
      DoubleXor(a, b);
      DoublesXor(n - 1, Double(a), Double(b));
    }
  }

  lemma DoubleXor(a: bv32, b: bv32)
    ensures Double(Xor(a, b)) == Xor(Double(a), Double(b))
  {}

  lemma {:induction false} DoublesOfZero(n: nat)
    ensures Doubles(n, 0) == 0
  {
    if n > 0 {
      DoublesOfZero(n - 1);
    }
  }

  lemma {:induction false} TimesTail(mat: seq<bv32>, bits: nat, i: nat, w: bv32)
    requires IsZerosOp(mat, bits) && i <= 32 && Halves(32 - i, w) == 0
    ensures Times(mat[i..], w) == ZeroBits(bits, Doubles(i, w))
    decreases 32 - i
  {
    hide Xor, Odd, Half, Double, ZeroBits;
    if i == 32 {
      assert w == 0;
      DoublesOfZero(32);
      ZeroBitsOfZero(bits);
    } else {
      var bit: bv32 := if Odd(w) then 1 else 0;
      SplitLowBit(w);
      DoublesXor(i, bit, Double(Half(w)));
      ZeroBitsLinear(bits, Doubles(i, bit), Doubles(i, Double(Half(w))));
      DoublesOfZero(i);
      ZeroBitsOfZero(bits);
      assert mat[i..][1..] == mat[i + 1..];
      TimesTail(mat, bits, i + 1, Half(w));
    }
  }

  lemma TimesIsZeroBits(mat: seq<bv32>, bits: nat, v: bv32)
    requires IsZerosOp(mat, bits)
    ensures Times(mat, v) == ZeroBits(bits, v)
  {
    hide Times, ZeroBits, Halves;
    NoBitsLeft(v);
    TimesTail(mat, bits, 0, v);
    assert mat[0..] == mat;
  }

  /** Squaring the matrix doubles the number of zero bits. */
  lemma SquareIsZerosOp(square: seq<bv32>, mat: seq<bv32>, bits: nat)
    requires IsZerosOp(mat, bits)
    requires |square| == 32 && forall i :: 0 <= i < 32 ==> square[i] == Times(mat, mat[i])
    ensures IsZerosOp(square, 2 * bits)
  {
    hide Times, ZeroBits, Doubles;
    forall i | 0 <= i < 32
      ensures square[i] == ZeroBits(2 * bits, Doubles(i, 1))
    {
      TimesIsZeroBits(mat, bits, mat[i]);
      ZeroBitsCompose(bits, bits, Doubles(i, 1));
      assert 2 * bits == bits + bits;
    }
  }

  // ---- the operator for one zero bit ----

  lemma {:induction false} DoublesSnoc(n: nat, v: bv32)
    ensures Doubles(n + 1, v) == Double(Doubles(n, v))
  {
    hide Double;
    if n > 0 {
      DoublesSnoc(n - 1, Double(v));
    }
  }

  /** A unit vector below the top keeps its bit when doubled. */
  lemma {:induction false} UnitFits(n: nat)
    requires n < 31
    ensures Halves(n + 1, Doubles(n, 1)) == 0
    ensures Half(Double(Doubles(n, 1))) == Doubles(n, 1)
  {
    hide Double, Half;
    if n == 0 {
      OneHalved();
    } else {
      UnitFits(n - 1);
      DoublesSnoc(n - 1, 1);
    }
    HalvesCompose(n + 1, 30 - n, Doubles(n, 1));
    HalvesOfZero(30 - n);
    TopClear(Doubles(n, 1));
  }

  lemma OneHalved()
    ensures Halves(1, 1) == 0
  {}

  lemma {:induction false} HalvesOfZero(n: nat)
    ensures Halves(n, 0) == 0
  {
    if n > 0 {
      HalvesOfZero(n - 1);
    }
  }

  lemma TopClear(v: bv32)
    requires Halves(31, v) == 0
    ensures Half(Double(v)) == v
  {
    hide Half, Down8, Double, Halves;
    HalvesCompose(8, 23, v);
    HalvesCompose(8, 15, Down8(v));
    HalvesCompose(8, 7, Down8(Down8(v)));
    HalvesEight(v);
    HalvesEight(Down8(v));
    HalvesEight(Down8(Down8(v)));
    HalvesSeven(Down8(Down8(Down8(v))));
    TopClearBits(v);
  }

  lemma HalvesSeven(v: bv32)
    ensures Halves(7, v) == Half(Half(Half(Half(Half(Half(Half(v)))))))
  {
    hide Half;
    assert Halves(7, v) == Halves(4, Half(Half(Half(v))));
  }

  lemma TopClearBits(v: bv32)
    requires Half(Half(Half(Half(Half(Half(Half(Down8(Down8(Down8(v)))))))))) == 0
    ensures Half(Double(v)) == v
  {}

  lemma StepOfDouble(v: bv32)
    ensures BitStep(Double(v)) == Half(Double(v))
  {}

  lemma UnitStep(n: nat)
    requires n < 31
    ensures ZeroBits(1, Doubles(n + 1, 1)) == Doubles(n, 1)
  {
    hide Double, BitStep, Half;
    DoublesSnoc(n, 1);
    UnitFits(n);
    StepOfDouble(Doubles(n, 1));
  }

  lemma OneStep()
    ensures ZeroBits(1, 1) == POLY
  {}

  // ---- the methods ----

  method Gf2MatrixTimes(mat: array<bv32>, vec: bv32) returns (sum: bv32)
    requires mat.Length == 32
    ensures sum == Times(mat[..], vec)
  {
    hide Xor, Half, Odd;
    sum := 0;
    var v, i := vec, 0;
    NoBitsLeft(vec);
    XorZero(Times(mat[..], vec));
    assert mat[..] == mat[0..];
    while v != 0
      invariant 0 <= i <= 32
      invariant Halves(32 - i, v) == 0
      invariant Xor(sum, Times(mat[i..], v)) == Times(mat[..], vec)
      decreases 32 - i
    {
      assert mat[i..][1..] == mat[i + 1..];
      XorZero(Times(mat[i + 1..], Half(v)));
      if Odd(v) {
        XorAssoc(sum, mat[i], Times(mat[i + 1..], Half(v)));
        sum := Xor(sum, mat[i]);
      }
      v := Half(v);
      i := i + 1;
    }
    TimesZero(mat[i..]);
    XorZero(sum);
  }

  lemma {:induction false} TimesZero(mat: seq<bv32>)
    ensures Times(mat, 0) == 0
  {
    if mat != [] {
      TimesZero(mat[1..]);
    }
  }

  method Gf2MatrixSquare(square: array<bv32>, mat: array<bv32>)
    requires square.Length == mat.Length == 32 && square != mat
    modifies square
    ensures forall i :: 0 <= i < 32 ==> square[i] == Times(mat[..], mat[i])
  {
    hide Times;
    for n := 0 to 32
      invariant forall i :: 0 <= i < n ==> square[i] == Times(mat[..], mat[i])
    {
      square[n] := Gf2MatrixTimes(mat, mat[n]);
    }
  }

  method SquareZerosOp(square: array<bv32>, mat: array<bv32>, ghost bits: nat)
    requires square.Length == mat.Length == 32 && square != mat
    requires IsZerosOp(mat[..], bits)
    modifies square
    ensures IsZerosOp(square[..], 2 * bits)
  {
    hide Times, ZeroBits, Doubles;
    Gf2MatrixSquare(square, mat);
    SquareIsZerosOp(square[..], mat[..], bits);
  }

  /** The operator for one zero bit. */
  method OneZeroBitOp(odd: array<bv32>)
    requires odd.Length == 32
    modifies odd
    ensures IsZerosOp(odd[..], 1)
  {
    hide Double, ZeroBits;
    odd[0] := POLY;
    OneStep();
    var row: bv32 := 1;
    for n := 1 to 32
      invariant row == Doubles(n - 1, 1)
      invariant forall i :: 0 <= i < n ==> odd[i] == ZeroBits(1, Doubles(i, 1))
    {
      odd[n] := row;
      UnitStep(n - 1);
      DoublesSnoc(n - 1, 1);
      row := Double(row);
    }
  }

  /** Leaves in `even` the operator that appends `PowerFloor(len)` zero bytes. */
  method Crc32cZerosOp(even: array<bv32>, len: nat)
    requires even.Length == 32
    modifies even
    ensures IsZerosOp(even[..], 8 * PowerFloor(len))
  {
    hide IsZerosOp, PowerFloor;
    PowerFloorBounds(len);
    var odd := new bv32[32];
    OneZeroBitOp(odd);
    SquareZerosOp(even, odd, 1);
    SquareZerosOp(odd, even, 2);
    var n := len;
    ghost var done: nat := 1;
    while true
      invariant IsZerosOp(odd[..], 4 * done)
      invariant PowerFloor(len) == done * PowerFloor(n)
      invariant n == len || n > 0
      decreases n
    {
      SquareZerosOp(even, odd, 4 * done);
      PowerFloorHalved(n, done);
      n := n / 2;
      if n == 0 {
        return;
      }
      SquareZerosOp(odd, even, 8 * done);
      PowerFloorHalved(n, 2 * done);
      n := n / 2;
      done := 4 * done;
      if n == 0 {
        break;
      }
    }
    ghost var answer := odd[..];
    for i := 0 to 32
      modifies even
      invariant even[..i] == odd[..i]
    {
      even[i] := odd[i];
    }
    assert even[..] == answer;
    assert 8 * PowerFloor(len) == 4 * done;
  }

  lemma PowerFloorHalved(n: nat, scale: nat)
    ensures scale * PowerFloor(n) == if n / 2 == 0 then scale else 2 * scale * PowerFloor(n / 2)
  {
    if n / 2 != 0 {
      var p := PowerFloor(n / 2);
      assert PowerFloor(n) == 2 * p;
      Regroup(scale, p);
    }
  }

  lemma Regroup(a: nat, p: nat)
    ensures a * (2 * p) == 2 * a * p
  {}

  // ---- the operator as four byte-indexed tables ----

  /** The four tables together are "append `bits` zero bits", one byte of the register each. */
  ghost predicate IsShiftTable(zeros: array2<bv32>, bits: nat)
    reads zeros
  {
    && zeros.Length0 == 4 && zeros.Length1 == 256
    && forall k, n :: 0 <= k < 4 && 0 <= n < 256 ==> zeros[k, n] == ZeroBits(bits, Place(k, ToByte(n)))
  }

  /** Fills the tables for `len` zero bytes. */
  method Crc32cZeros(zeros: array2<bv32>, len: nat)
    requires zeros.Length0 == 4 && zeros.Length1 == 256
    modifies zeros
    ensures IsShiftTable(zeros, 8 * PowerFloor(len))
  {
    hide Times, ZeroBits, Place, PowerFloor, IsZerosOp, ToByte;
    ghost var bits := 8 * PowerFloor(len);
    var op := new bv32[32];
    Crc32cZerosOp(op, len);
    for n := 0 to 256
      invariant IsZerosOp(op[..], bits)
      invariant forall k, m :: 0 <= k < 4 && 0 <= m < n ==> zeros[k, m] == ZeroBits(bits, Place(k, ToByte(m)))
    {
      FillEntries(zeros, op, n, bits);
    }
  }

  /** The entries of one byte value in all four positions. */
  method FillEntries(zeros: array2<bv32>, op: array<bv32>, n: nat, ghost bits: nat)
    requires zeros.Length0 == 4 && zeros.Length1 == 256 && n < 256 && op.Length == 32
    requires IsZerosOp(op[..], bits)
    modifies zeros
    ensures forall k :: 0 <= k < 4 ==> zeros[k, n] == ZeroBits(bits, Place(k, ToByte(n)))
    ensures forall k, m :: 0 <= k < 4 && 0 <= m < 256 && m != n ==> zeros[k, m] == old(zeros[k, m])
  {
    hide Times, ZeroBits, Place, IsZerosOp, ToByte;
    var b := ToByte(n);
    TimesIsZeroBits(op[..], bits, Place(0, b));
    TimesIsZeroBits(op[..], bits, Place(1, b));
    TimesIsZeroBits(op[..], bits, Place(2, b));
    TimesIsZeroBits(op[..], bits, Place(3, b));
    zeros[0, n] := Gf2MatrixTimes(op, Place(0, b));
    zeros[1, n] := Gf2MatrixTimes(op, Place(1, b));
    zeros[2, n] := Gf2MatrixTimes(op, Place(2, b));
    zeros[3, n] := Gf2MatrixTimes(op, Place(3, b));
  }

  /** Applies the tables to a register. */
  function Crc32cShift(zeros: array2<bv32>, crc: bv32): bv32
    requires zeros.Length0 == 4 && zeros.Length1 == 256
    reads zeros
  {
    Xor(Xor(Xor(zeros[0, Index(LowByte(crc))], zeros[1, Index(LowByte(Down8(crc)))]),
            zeros[2, Index(LowByte(Down8(Down8(crc))))]), zeros[3, Index(LowByte(Down8(Down8(Down8(crc)))))])
  }

  lemma ShiftIsZeroBits(zeros: array2<bv32>, bits: nat, crc: bv32)
    requires IsShiftTable(zeros, bits)
    ensures Crc32cShift(zeros, crc) == ZeroBits(bits, crc)
  {
    hide Xor, ZeroBits, Place, LowByte, Down8, Index, ToByte;
    var b0, b1, b2, b3 := LowByte(crc), LowByte(Down8(crc)), LowByte(Down8(Down8(crc))),
                          LowByte(Down8(Down8(Down8(crc))));
    var p0, p1, p2, p3 := Place(0, b0), Place(1, b1), Place(2, b2), Place(3, b3);
    ToByteOfIndex(b0);
    ToByteOfIndex(b1);
    ToByteOfIndex(b2);
    ToByteOfIndex(b3);
    WordOfBytes(crc);
    ZeroBitsLinear(bits, Xor(Xor(p0, p1), p2), p3);
    ZeroBitsLinear(bits, Xor(p0, p1), p2);
    ZeroBitsLinear(bits, p0, p1);
  }

  lemma WordOfBytes(w: bv32)
    ensures w == Word4(LowByte(w), LowByte(Down8(w)), LowByte(Down8(Down8(w))), LowByte(Down8(Down8(Down8(w)))))
  {}
}
