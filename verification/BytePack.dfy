/**
  Little-endian numbers in byte buffers, read and written half by half through a moving offset.
  Words are numbers here; `x & 0xFF` is `x % 256` and `x >> 8` is `x / 256`.
  */
module BytePack {
  import opened Words

  type u8 = n: nat | n < 0x100
  type u16 = n: nat | n < 0x1_0000
  type u32 = n: nat | n < 0x1_0000_0000
  type u64 = n: nat | n < 0x1_0000_0000_0000_0000

  /** The low `k` bytes of `v`, least significant first. */
  function Le(k: nat, v: nat): (b: seq<byte>)
    ensures |b| == k
    decreases k
  {
    if k == 0 then [] else [ToByte(v % 256)] + Le(k - 1, v / 256)
  }

  /** The number a little-endian byte sequence stands for. */
  function LeValue(b: seq<byte>): nat {
    if b == [] then 0 else Index(b[0]) + 256 * LeValue(b[1..])
  }

  /** `256` to the power `k`. */
  function Capacity(k: nat): (c: nat)
    ensures c > 0
  {
    if k == 0 then 1 else 256 * Capacity(k - 1)
  }

  lemma {:induction false} LeValueBound(b: seq<byte>)
    ensures LeValue(b) < Capacity(|b|)
  {
    if b != [] {
      LeValueBound(b[1..]);
    }
  }

  /** The bytes of a number are its digits to the base 256, the lowest first. */
  lemma LeDigits(k: nat, v: nat)
    ensures forall j :: 0 <= j < k ==> Le(k, v)[j] as int == v / Capacity(j) % 256
  {
    hide Le, Capacity;
    LeIndices(k, v);
  }

  /** The bytes from `from` to `to` are the low digits of `v` to the base 256, the lowest first. */
  predicate NumberAt(b: seq<byte>, from: nat, to: nat, v: nat) {
    to <= |b| && forall k :: from <= k < to ==> b[k] as int == v / Capacity(k - from) % 256
  }

  lemma LeAt(b: seq<byte>, from: nat, to: nat, v: nat)
    requires from <= to <= |b| && b[from..to] == Le(to - from, v)
    ensures NumberAt(b, from, to, v)
  {
    hide Le, Capacity;
    LeDigits(to - from, v);
    forall k | from <= k < to
      ensures b[k] as int == v / Capacity(k - from) % 256
    {
      assert b[k] == Le(to - from, v)[k - from];
    }
  }

  lemma {:induction false} LeIndices(k: nat, v: nat)
    ensures forall j :: 0 <= j < k ==> Index(Le(k, v)[j]) == v / Capacity(j) % 256
    decreases k
  {
    hide ToByte, Index, Capacity;
    if k > 0 {
      LeIndices(k - 1, v / 256);
      IndexOfByte(v % 256);
      forall j | 0 <= j < k
        ensures Index(Le(k, v)[j]) == v / Capacity(j) % 256
      {
        DigitsShift(v, j);
      }
    }
  }

  lemma DigitsShift(v: nat, j: nat)
    ensures v / Capacity(j) == if j == 0 then v else v / 256 / Capacity(j - 1)
  {
    if j > 0 {
      DivideTwice(v, Capacity(j - 1));
    }
  }

  lemma DivideTwice(v: nat, c: nat)
    requires c > 0
    ensures v / 256 / c == v / (256 * c)
  {
    var q, r := v / (256 * c), v % (256 * c);
    assert v == 256 * (c * q) + r;
    assert v / 256 == c * q + r / 256;
    Quotient(c, q, r / 256);
  }

  lemma Quotient(c: nat, q: nat, r: nat)
    requires r < c
    ensures (c * q + r) / c == q
  {
    var d := (c * q + r) / c;
    assert c * d <= c * q + r < c * d + c;
    Cancel(c, d, q);
    Cancel(c, q, d);
  }

  lemma Cancel(c: nat, a: nat, b: nat)
    requires c * a < c * b + c
    ensures a <= b
  {
    Distributes(c, b + 1, if a > b then a - b - 1 else 0);
  }

  lemma Distributes(c: nat, x: nat, y: nat)
    ensures c * (x + y) == c * x + c * y
  {}

  /** Reading back what was written gives the number, as long as it fits. */
  lemma {:induction false} LeRoundTrip(k: nat, v: nat)
    requires v < Capacity(k)
    ensures LeValue(Le(k, v)) == v
  {
    if k > 0 {
      LeRoundTrip(k - 1, v / 256);
      IndexOfByte(v % 256);
      assert Le(k, v)[1..] == Le(k - 1, v / 256);
    }
  }

  lemma {:induction false} LeInjective(b: seq<byte>, c: seq<byte>)
    requires |b| == |c| && LeValue(b) == LeValue(c)
    ensures b == c
  {
    hide Index;
    if b != [] {
      ToByteOfIndex(b[0]);
      ToByteOfIndex(c[0]);
      LeInjective(b[1..], c[1..]);
      assert b == [b[0]] + b[1..] && c == [c[0]] + c[1..];
    }
  }

  /** `v` without its low `j` bytes. */
  function High(j: nat, v: nat): nat
    decreases j
  {
    if j == 0 then v else High(j - 1, v / 256)
  }

  /** The low and the high part of a number, one after the other. */
  lemma {:induction false} LeSplit(j: nat, k: nat, v: nat)
    ensures Le(j + k, v) == Le(j, v) + Le(k, High(j, v))
    decreases j
  {
    if j > 0 {
      LeSplit(j - 1, k, v / 256);
      assert j + k - 1 == (j - 1) + k;
    }
  }

  lemma Le2Halves(v: u16)
    ensures Le(2, v) == Le(1, v % 0x100) + Le(1, v / 0x100 % 0x100)
  {
    LeSplit(1, 1, v);
    assert High(1, v) == v / 256;
  }

  lemma Low2(v: nat)
    ensures Le(2, v % 0x1_0000) == Le(2, v)
  {
    hide ToByte;
    LowDigits(v);
    Le2(v);
    Le2(v % 0x1_0000);
  }

  lemma Le2(v: nat)
    ensures Le(2, v) == [ToByte(v % 256), ToByte(v / 256 % 256)]
  {
    hide ToByte;
    assert Le(1, v / 256) == [ToByte(v / 256 % 256)] + Le(0, v / 256 / 256);
  }

  lemma LowDigits(v: nat)
    ensures v % 0x1_0000 % 256 == v % 256
    ensures v % 0x1_0000 / 256 % 256 == v / 256 % 256
  {
    var q, r := v / 0x1_0000, v % 0x1_0000;
    assert v == 256 * (256 * q + r / 256) + r % 256;
    assert v / 256 == 256 * q + r / 256;
  }

  lemma LowWords(v: nat)
    ensures v % 0x1_0000_0000 % 0x1_0000 == v % 0x1_0000
    ensures v % 0x1_0000_0000 / 0x1_0000 % 0x1_0000 == v / 0x1_0000 % 0x1_0000
  {
    var q, r := v / 0x1_0000_0000, v % 0x1_0000_0000;
    assert v == 0x1_0000 * (0x1_0000 * q + r / 0x1_0000) + r % 0x1_0000;
    assert v / 0x1_0000 == 0x1_0000 * q + r / 0x1_0000;
  }

  lemma Le8(v: u64)
    ensures Le(8, v) == Le(4, v % 0x1_0000_0000) + Le(4, v / 0x1_0000_0000 % 0x1_0000_0000)
  {
    hide Le;
    LeSplit(4, 4, v);
    Low4(v);
    assert High(4, v) == High(2, v / 256 / 256) == v / 256 / 256 / 256 / 256 == v / 0x1_0000_0000;
  }

  /** A four-byte field keeps a number modulo 2^32. */
  lemma Low4(v: nat)
    ensures Le(4, v % 0x1_0000_0000) == Le(4, v)
  {
    hide Le;
    LowWords(v);
    Le4(v);
    Le4(v % 0x1_0000_0000);
  }

  lemma Le4(v: nat)
    ensures Le(4, v) == Le(2, v % 0x1_0000) + Le(2, v / 0x1_0000 % 0x1_0000)
  {
    hide Le;
    LeSplit(2, 2, v);
    Low2(v);
    Low2(v / 0x1_0000);
    assert High(2, v) == v / 256 / 256 == v / 0x1_0000;
  }

  // ---- buffers ----

  /** How many of `k` bytes fit at `offset` below `size`. */
  function Fit(size: nat, offset: nat, k: nat): (n: nat)
    ensures n <= k && (offset <= size ==> offset + n <= size) && (n < k ==> size <= offset + n)
  {
    if offset + k <= size then k else if offset < size then size - offset else 0
  }

  /** `buf` after as much of `b` as fits has been stored at `offset`. */
  function Put(buf: seq<byte>, size: nat, offset: nat, b: seq<byte>): (r: seq<byte>)
    requires size <= |buf|
    ensures |r| == |buf|
  {
    var n := Fit(size, offset, |b|);
    if n == 0 then buf else buf[..offset] + b[..n] + buf[offset + n..]
  }

  /** Two stores in a row, the first complete, are one store. */
  lemma PutPut(buf: seq<byte>, size: nat, offset: nat, b: seq<byte>, c: seq<byte>)
    requires offset + |b| <= size <= |buf|
    ensures Put(buf, size, offset, b + c) == Put(Put(buf, size, offset, b), size, offset + |b|, c)
    ensures Fit(size, offset, |b + c|) == |b| + Fit(size, offset + |b|, |c|)
  {
    hide Put;
    var m := Fit(size, offset + |b|, |c|);
    var end := offset + |b|;
    var p := Put(buf, size, offset, b);
    PutFits(buf, size, offset, b, |b|);
    PutFits(p, size, end, c, m);
    PutFits(buf, size, offset, b + c, |b| + m);
    assert (b + c)[..|b| + m] == b + c[..m] && b[..|b|] == b;
    assert p[..end] == buf[..offset] + b;
    assert p[end + m..] == buf[end + m..];
  }

  lemma PutFits(buf: seq<byte>, size: nat, offset: nat, b: seq<byte>, n: nat)
    requires offset <= size <= |buf| && n == Fit(size, offset, |b|)
    ensures Put(buf, size, offset, b) == buf[..offset] + b[..n] + buf[offset + n..]
  {}

  /** A first store that fails leaves no room for a second. */
  lemma PutFull(buf: seq<byte>, size: nat, offset: nat, b: seq<byte>, c: seq<byte>)
    requires size <= |buf| && size < offset + |b|
    ensures Put(buf, size, offset, b + c) == Put(buf, size, offset, b)
    ensures Fit(size, offset, |b + c|) == Fit(size, offset, |b|)
  {
    var n := Fit(size, offset, |b|);
    assert (b + c)[..n] == b[..n];
  }

  /** Storing two pieces in a row, the second only if the first was stored whole, is storing their concatenation. */
  lemma PutTwice(buf: seq<byte>, size: nat, offset: nat, b: seq<byte>, c: seq<byte>)
    requires size <= |buf|
    ensures var n := Fit(size, offset, |b|);
            && Fit(size, offset, |b + c|) == (if n < |b| then n else n + Fit(size, offset + n, |c|))
            && Put(buf, size, offset, b + c)
               == (if n < |b| then Put(buf, size, offset, b) else Put(Put(buf, size, offset, b), size, offset + n, c))
  {
    hide Put;
    if offset + |b| <= size {
      PutPut(buf, size, offset, b, c);
    } else if |b| > 0 {
      PutFull(buf, size, offset, b, c);
    } else {
      NothingPut(buf, size, offset, c);
    }
  }

  lemma NothingPut(buf: seq<byte>, size: nat, offset: nat, c: seq<byte>)
    requires size <= |buf|
    ensures Put(buf, size, offset, [] + c) == Put(Put(buf, size, offset, []), size, offset, c)
    ensures |[] + c| == |c|
  {
    assert [] + c == c;
  }

  /** Where there is room, storing extends the part of the buffer already filled. */
  lemma PutExtends(buf: seq<byte>, size: nat, offset: nat, b: seq<byte>)
    requires offset + |b| <= size <= |buf|
    ensures Put(buf, size, offset, b)[..offset + |b|] == buf[..offset] + b
    ensures Put(buf, size, offset, b)[offset + |b|..] == buf[offset + |b|..]
  {
    if |b| == 0 {
      assert buf[..offset] + b == buf[..offset];
    } else {
      assert b[..|b|] == b;
    }
  }

  lemma OneByte(b: byte)
    ensures Le(1, Index(b)) == [b]
  {
    hide Index;
    ToByteOfIndex(b);
    assert Le(0, Index(b) / 256) == [];
  }

  method WriteU8(buffer: array<byte>, size: nat, offset: nat, v: u8) returns (ok: bool, next: nat)
    requires size <= buffer.Length
    modifies buffer
    ensures ok == (offset + 1 <= size) && next == offset + Fit(size, offset, 1)
    ensures buffer[..] == Put(old(buffer[..]), size, offset, Le(1, v))
  {
    if offset >= size {
      return false, offset;
    }
    buffer[offset] := ToByte(v);
    assert Le(1, v) == [ToByte(v)] + Le(0, 0);
    return true, offset + 1;
  }

  method WriteU16(buffer: array<byte>, size: nat, offset: nat, v: u16) returns (ok: bool, next: nat)
    requires size <= buffer.Length
    modifies buffer
    ensures ok == (offset + 2 <= size) && next == offset + Fit(size, offset, 2)
    ensures buffer[..] == Put(old(buffer[..]), size, offset, Le(2, v))
  {
    hide Put, Le;
    Le2Halves(v);
    PutTwice(buffer[..], size, offset, Le(1, v % 0x100), Le(1, v / 0x100 % 0x100));
    ok, next := WriteU8(buffer, size, offset, v % 0x100);
    if ok {
      ok, next := WriteU8(buffer, size, next, v / 0x100 % 0x100);
    }
  }

  method WriteU32(buffer: array<byte>, size: nat, offset: nat, v: u32) returns (ok: bool, next: nat)
    requires size <= buffer.Length
    modifies buffer
    ensures ok == (offset + 4 <= size) && next == offset + Fit(size, offset, 4)
    ensures buffer[..] == Put(old(buffer[..]), size, offset, Le(4, v))
  {
    hide Put, Le;
    Le4(v);
    PutTwice(buffer[..], size, offset, Le(2, v % 0x1_0000), Le(2, v / 0x1_0000 % 0x1_0000));
    ok, next := WriteU16(buffer, size, offset, v % 0x1_0000);
    if ok {
      ok, next := WriteU16(buffer, size, next, v / 0x1_0000 % 0x1_0000);
    }
  }

  method WriteU64(buffer: array<byte>, size: nat, offset: nat, v: u64) returns (ok: bool, next: nat)
    requires size <= buffer.Length
    modifies buffer
    ensures ok == (offset + 8 <= size) && next == offset + Fit(size, offset, 8)
    ensures buffer[..] == Put(old(buffer[..]), size, offset, Le(8, v))
  {
    hide Put, Le;
    Le8(v);
    PutTwice(buffer[..], size, offset, Le(4, v % 0x1_0000_0000), Le(4, v / 0x1_0000_0000 % 0x1_0000_0000));
    ok, next := WriteU32(buffer, size, offset, v % 0x1_0000_0000);
    if ok {
      ok, next := WriteU32(buffer, size, next, v / 0x1_0000_0000 % 0x1_0000_0000);
    }
  }

  /** The value read, where the whole field lies below `size`; otherwise the destination is not
      defined, as a failed read leaves it. */
  ghost predicate Got(buffer: seq<byte>, size: nat, offset: nat, k: nat, ok: bool, next: nat, v: nat)
    requires size <= |buffer|
  {
    && ok == (offset + k <= size)
    && next == offset + Fit(size, offset, k)
    && (ok ==> v == LeValue(buffer[offset..offset + k]))
  }

  lemma {:induction false} LeValueSplit(b: seq<byte>, c: seq<byte>)
    ensures LeValue(b + c) == LeValue(b) + Capacity(|b|) * LeValue(c)
  {
    if b == [] {
      assert b + c == c;
    } else {
      LeValueSplit(b[1..], c);
      assert (b + c)[1..] == b[1..] + c;
      Distribute(LeValue(b[1..]), Capacity(|b| - 1), LeValue(c));
    }
  }

  lemma Distribute(x: nat, c: nat, y: nat)
    ensures 256 * (x + c * y) == 256 * x + 256 * c * y
  {}

  lemma Capacities()
    ensures Capacity(1) == 0x100 && Capacity(2) == 0x1_0000 && Capacity(4) == 0x1_0000_0000
    ensures Capacity(8) == 0x1_0000_0000_0000_0000
  {
    assert Capacity(4) == 256 * 256 * Capacity(2);
    assert Capacity(6) == 256 * 256 * Capacity(4);
    assert Capacity(8) == 256 * 256 * Capacity(6);
  }

  lemma OneByteValue(b: byte)
    ensures LeValue([b]) == Index(b)
  {
    hide Index;
    assert [b][1..] == [];
  }

  method ReadU8(buffer: seq<byte>, size: nat, offset: nat) returns (ok: bool, next: nat, v: u8)
    requires size <= |buffer|
    ensures Got(buffer, size, offset, 1, ok, next, v)
  {
    if offset >= size {
      v := *;
      return false, offset, v;
    }
    assert buffer[offset..offset + 1] == [buffer[offset]];
    OneByteValue(buffer[offset]);
    return true, offset + 1, Index(buffer[offset]);
  }

  method ReadU16(buffer: seq<byte>, size: nat, offset: nat) returns (ok: bool, next: nat, v: u16)
    requires size <= |buffer|
    ensures Got(buffer, size, offset, 2, ok, next, v)
    ensures offset + 1 == size ==> v % 0x100 == Index(buffer[offset])
  {
    hide LeValue;
    if offset + 1 == size {
      OneByteValue(buffer[offset]);
      assert buffer[offset..offset + 1] == [buffer[offset]];
    }
    var lowRead, mid, low := ReadU8(buffer, size, offset);
    var highRead, end, high := ReadU8(buffer, size, mid);
    if offset + 2 <= size {
      LeValueSplit(buffer[offset..offset + 1], buffer[offset + 1..offset + 2]);
      assert buffer[offset..offset + 2] == buffer[offset..offset + 1] + buffer[offset + 1..offset + 2];
      Capacities();
    }
    return lowRead && highRead, end, (low as int) + 0x100 * (high as int);
  }

  method ReadU32(buffer: seq<byte>, size: nat, offset: nat) returns (ok: bool, next: nat, v: u32)
    requires size <= |buffer|
    ensures Got(buffer, size, offset, 4, ok, next, v)
  {
    hide LeValue;
    var lowRead, mid, low := ReadU16(buffer, size, offset);
    var highRead, end, high := ReadU16(buffer, size, mid);
    if offset + 4 <= size {
      LeValueSplit(buffer[offset..offset + 2], buffer[offset + 2..offset + 4]);
      assert buffer[offset..offset + 4] == buffer[offset..offset + 2] + buffer[offset + 2..offset + 4];
      Capacities();
    }
    return lowRead && highRead, end, (low as int) + 0x1_0000 * (high as int);
  }

  method ReadU64(buffer: seq<byte>, size: nat, offset: nat) returns (ok: bool, next: nat, v: u64)
    requires size <= |buffer|
    ensures Got(buffer, size, offset, 8, ok, next, v)
  {
    hide LeValue;
    var lowRead, mid, low := ReadU32(buffer, size, offset);
    var highRead, end, high := ReadU32(buffer, size, mid);
    if offset + 8 <= size {
      LeValueSplit(buffer[offset..offset + 4], buffer[offset + 4..offset + 8]);
      assert buffer[offset..offset + 8] == buffer[offset..offset + 4] + buffer[offset + 4..offset + 8];
      Capacities();
    }
    return lowRead && highRead, end, (low as int) + 0x1_0000_0000 * (high as int);
  }
}
