/**
  Records: their header fields, the 16-bit header CRC, and serialisation.
  */
module Record {
  import opened Words
  import opened Digits
  import opened Crc32c
  import opened BytePack

  // ---- flags ----

  const HAS_ADDED_DATA_CRC32: byte := 0x20
  const HAS_ADDED_SIZE_4: byte := 0x80
  const HAS_ADDED_SIZE_8: byte := 0xC0

  predicate HasAddedSize(flags: byte) {
    flags & HAS_ADDED_SIZE_4 != 0
  }

  predicate HasAddedSize8(flags: byte) {
    flags & HAS_ADDED_SIZE_8 == HAS_ADDED_SIZE_8
  }

  predicate HasAddedSize4(flags: byte) {
    flags & HAS_ADDED_SIZE_8 == HAS_ADDED_SIZE_4
  }

  predicate HasAddedDataCrc(flags: byte) {
    flags & HAS_ADDED_DATA_CRC32 != 0
  }

  lemma SizeFlags(flags: byte)
    ensures HasAddedSize(flags) <==> HasAddedSize8(flags) || HasAddedSize4(flags)
    ensures !(HasAddedSize8(flags) && HasAddedSize4(flags))
  {}

  function SetAddedSize4(flags: byte): byte {
    flags | HAS_ADDED_SIZE_4
  }

  function SetAddedSize8(flags: byte): byte {
    flags | HAS_ADDED_SIZE_8
  }

  function ClearAdded(flags: byte): byte {
    flags & !HAS_ADDED_DATA_CRC32 & !HAS_ADDED_SIZE_8
  }

  // ---- flags by their binary digits ----

  /** What the flags announce, and with it the length of the header, by binary digits. */
  lemma FlagDigits(flags: byte)
    ensures HasAddedSize(flags) <==> Digit(flags, 0x80)
    ensures HasAddedSize8(flags) <==> Digit(flags, 0x80) && Digit(flags, 0x40)
    ensures HasAddedSize4(flags) <==> Digit(flags, 0x80) && !Digit(flags, 0x40)
    ensures HasAddedDataCrc(flags) <==> Digit(flags, 0x20)
    ensures HeaderLen(flags) == 6 + (if !Digit(flags, 0x80) then 0 else if Digit(flags, 0x40) then 8 else 4)
                                + if Digit(flags, 0x20) then 4 else 0
  {
    hide HasAddedSize, HasAddedSize8, HasAddedSize4, HasAddedDataCrc, Digit;
    SizeDigit(flags);
    WideDigit(flags);
    CrcDigit(flags);
  }

  lemma SizeDigit(flags: byte)
    ensures HasAddedSize(flags) <==> Digit(flags, 0x80)
  {}

  lemma WideDigit(flags: byte)
    ensures HasAddedSize8(flags) <==> Digit(flags, 0x80) && Digit(flags, 0x40)
    ensures HasAddedSize4(flags) <==> Digit(flags, 0x80) && !Digit(flags, 0x40)
  {}

  lemma CrcDigit(flags: byte)
    ensures HasAddedDataCrc(flags) <==> Digit(flags, 0x20)
  {}

  /** The flags written for `n` bytes of added data given with a record: the low five digits as they were;
      without data nothing announced; with data a size, the CRC if it was asked for, and eight bytes if they
      were asked for or needed. */
  predicate FlagsFor(given: byte, n: nat, written: byte) {
    && written as int % 0x20 == given as int % 0x20
    && if n == 0 then written as int < 0x20
       else
         && Digit(written, 0x80) && (Digit(written, 0x20) <==> Digit(given, 0x20))
         && (Digit(written, 0x40) <==> Digit(given, 0x40) || n > 2147483647)
  }

  lemma ClearedDigits(flags: byte)
    ensures FlagsFor(flags, 0, ClearAdded(flags))
  {
    LowFive(flags);
    ClearedIs(flags);
  }

  lemma ClearedIs(flags: byte)
    ensures ClearAdded(flags) == flags & 0x1F
  {}

  lemma LowFive(flags: byte)
    ensures (flags & 0x1F) as int == flags as int % 0x20
  {}

  lemma FourDigits(flags: byte)
    ensures FlagsFor(flags, 1, SetAddedSize4(flags))
  {
    hide Digit, SetAddedSize4;
    LowDigitsKept(flags);
    FourAdds(flags);
  }

  lemma EightDigits(flags: byte)
    ensures FlagsFor(flags, 0x8000_0000, SetAddedSize8(flags))
  {
    hide Digit, SetAddedSize8;
    LowDigitsKept(flags);
    EightAdds(flags);
  }

  lemma LowDigitsKept(flags: byte)
    ensures SetAddedSize4(flags) as int % 0x20 == flags as int % 0x20
    ensures SetAddedSize8(flags) as int % 0x20 == flags as int % 0x20
  {
    LowBits(flags);
  }

  lemma LowBits(flags: byte)
    ensures (flags | 0x80) as int % 0x20 == flags as int % 0x20
    ensures (flags | 0xC0) as int % 0x20 == flags as int % 0x20
  {}

  lemma FourAdds(flags: byte)
    ensures var w := SetAddedSize4(flags);
            && Digit(w, 0x80) && (Digit(w, 0x20) <==> Digit(flags, 0x20)) && (Digit(w, 0x40) <==> Digit(flags, 0x40))
  {
    hide Digit, On, SetAddedSize4, SetAddedSize8;
    DigitsAreBits(flags);
    DigitsAreBits(SetAddedSize4(flags));
    BitsAdded(flags);
  }

  lemma EightAdds(flags: byte)
    ensures var w := SetAddedSize8(flags);
            && Digit(w, 0x80) && (Digit(w, 0x20) <==> Digit(flags, 0x20)) && Digit(w, 0x40)
  {
    hide Digit, On, SetAddedSize4, SetAddedSize8;
    DigitsAreBits(flags);
    DigitsAreBits(SetAddedSize8(flags));
    BitsAdded(flags);
  }

  lemma BitsAdded(flags: byte)
    ensures var w := SetAddedSize4(flags);
            On(w, 0x80) && (On(w, 0x20) <==> On(flags, 0x20)) && (On(w, 0x40) <==> On(flags, 0x40))
    ensures var w := SetAddedSize8(flags);
            On(w, 0x80) && (On(w, 0x20) <==> On(flags, 0x20)) && On(w, 0x40)
  {}

  // ---- records as values ----

  datatype Rec = Rec(headCRC: u16, headType: byte, headFlags: byte, headSize: u16,
                     addedSize: u64, addedDataCRC32: bv32, data: seq<byte>)

  /** The length of the added-size field. */
  function SizeLen(flags: byte): (n: nat)
    ensures n <= 8
  {
    if HasAddedSize8(flags) then 8 else if HasAddedSize4(flags) then 4 else 0
  }

  function CrcLen(flags: byte): (n: nat)
    ensures n <= 4
  {
    if HasAddedDataCrc(flags) then 4 else 0
  }

  /** The length of everything before the data. */
  function HeaderLen(flags: byte): (n: nat)
    ensures 6 <= n <= 18
  {
    6 + SizeLen(flags) + CrcLen(flags)
  }

  lemma FieldLens(flags: byte)
    ensures SizeLen(flags) == 0 || SizeLen(flags) == 4 || SizeLen(flags) == 8
    ensures CrcLen(flags) == 0 || CrcLen(flags) == 4
  {}

  function Unsigned(c: bv32): u32 {
    c as int
  }

  function Word(v: u32): bv32 {
    v as bv32
  }

  lemma WordOfUnsigned(c: bv32)
    ensures Word(Unsigned(c)) == c
  {}

  /** `c & 0xFFFF`. */
  function Low16(c: bv32): u16 {
    Short(LowHalf(c))
  }

  function LowHalf(c: bv32): bv16 {
    (c & 0xffff) as bv16
  }

  function HighHalf(c: bv32): bv16 {
    (c >> 16) as bv16
  }

  lemma Low16Is(c: bv32)
    ensures Low16(c) == c as int % 0x1_0000
  {
    hide Low16, Unsigned;
    Low16Unsigned(c);
    UnsignedIs(c);
  }

  lemma UnsignedIs(c: bv32)
    ensures Unsigned(c) == c as int
  {}

  lemma Low16Unsigned(c: bv32)
    ensures Low16(c) == Unsigned(c) % 0x1_0000
  {
    hide LowHalf, HighHalf, Joined, Short, Unsigned;
    HalvesJoined(c);
    JoinedValue(HighHalf(c), LowHalf(c));
  }

  function Short(c: bv16): u16 {
    c as int
  }

  function Joined(high: bv16, low: bv16): bv32 {
    ((high as bv32) << 16) | (low as bv32)
  }

  lemma HalvesJoined(c: bv32)
    ensures c == Joined(HighHalf(c), LowHalf(c))
  {}

  lemma JoinedValue(high: bv16, low: bv16)
    ensures Unsigned(Joined(high, low)) == 0x1_0000 * Short(high) + Short(low)
  {
    JoinedBits(high, low);
  }

  lemma JoinedBits(high: bv16, low: bv16)
    ensures (((high as bv32) << 16) | (low as bv32)) as int == 0x1_0000 * (high as int) + low as int
  {}

  /** The header from `HeadType` on, in file order. */
  function Fields(r: Rec): (b: seq<byte>)
    ensures |b| == HeaderLen(r.headFlags) - 2
  {
    FixedFields(r) + SizeField(r.headFlags, r.addedSize) + CrcField(r.headFlags, r.addedDataCRC32)
  }

  function FixedFields(r: Rec): (b: seq<byte>)
    ensures |b| == 4
  {
    [r.headType, r.headFlags] + Le(2, r.headSize)
  }

  function SizeField(flags: byte, addedSize: u64): (b: seq<byte>)
    ensures |b| == SizeLen(flags)
  {
    Le(SizeLen(flags), addedSize)
  }

  function CrcField(flags: byte, crc: bv32): (b: seq<byte>)
    ensures |b| == CrcLen(flags)
  {
    Le(CrcLen(flags), Unsigned(crc))
  }

  /** The low half of the CRC-32C over everything after the CRC field. */
  function HeaderCrc(r: Rec): u16 {
    Low16(Crc(0, Fields(r) + r.data))
  }

  /** The record as it lies in the file. */
  function ToBytes(r: Rec): (b: seq<byte>)
    ensures |b| == HeaderLen(r.headFlags) + |r.data|
  {
    Le(2, r.headCRC) + Fields(r) + r.data
  }

  /** Everything before the data. */
  function Header(r: Rec): (b: seq<byte>)
    ensures |b| == HeaderLen(r.headFlags)
  {
    Le(2, r.headCRC) + Fields(r)
  }

  lemma HeaderThenData(r: Rec)
    ensures ToBytes(r) == Header(r) + r.data
  {
    hide Fields, Le;
  }

  /** What serialising a record into a buffer of a given size stores: the header's stores stop at that
      size, the data is copied behind them without regard to it. */
  function Image(r: Rec, size: nat): seq<byte> {
    Header(r)[..Fit(size, 0, HeaderLen(r.headFlags))] + r.data
  }

  /** `HeadSize` can hold the record's length. */
  predicate Legal(r: Rec) {
    HeaderLen(r.headFlags) + |r.data| < 0x1_0000
  }

  /** The record with its size and CRC made to agree with the rest. */
  function Fixed(r: Rec): Rec {
    var sized := r.(headSize := (HeaderLen(r.headFlags) + |r.data|) % 0x1_0000);
    sized.(headCRC := HeaderCrc(sized))
  }

  predicate Validated(r: Rec) {
    HeaderCrc(r) == r.headCRC
  }

  lemma FixedKeeps(r: Rec)
    ensures var f := Fixed(r);
            f == r.(headCRC := f.headCRC, headSize := f.headSize)
  {}

  lemma FixedFacts(r: Rec)
    requires Legal(r)
    ensures Fixed(r).headSize == |ToBytes(Fixed(r))| && Validated(Fixed(r)) && Legal(Fixed(r))
    ensures Fixed(Fixed(r)) == Fixed(r)
    ensures |ToBytes(Fixed(r))| == HeaderLen(r.headFlags) + |r.data|
  {
    hide Crc, Low16, SizeField, CrcField, SizeLen, CrcLen, Le;
  }

  lemma WholeImage(r: Rec, size: nat)
    requires HeaderLen(r.headFlags) + |r.data| <= size
    ensures Image(r, size) == ToBytes(r)
  {
    hide Header, ToBytes, HeaderLen;
    HeaderThenData(r);
    assert Header(r)[..HeaderLen(r.headFlags)] == Header(r);
  }

  /** A fixed record serialised into a buffer of the size it declares, as the writers do it, is stored whole
      and inside the buffer exactly when its size can hold its length. */
  lemma FitsItsBufferIff(r: Rec)
    ensures var f := Fixed(r);
            Image(f, f.headSize) == ToBytes(f) && |Image(f, f.headSize)| <= f.headSize <==> Legal(r)
  {
    hide HeaderCrc, Header, ToBytes, HeaderLen;
    var f := Fixed(r);
    FixedKeeps(r);
    HeaderThenData(f);
    if Legal(r) {
      WholeImage(f, f.headSize);
    }
  }

  /** The header CRC is the checksum of the serialised bytes from the third to the last, modulo 2^16. */
  lemma HeaderCrcIs(r: Rec)
    ensures HeaderCrc(r) == Crc(0, ToBytes(r)[2..]) as int % 0x1_0000
  {
    hide Crc, Low16, Fields, Le;
    assert ToBytes(r)[2..] == Fields(r) + r.data;
    Low16Is(Crc(0, ToBytes(r)[2..]));
  }

  /** Fixing a record stores that number, and the size modulo 2^16. */
  lemma HeaderCrcCoversBytes(r: Rec)
    ensures Fixed(r).headCRC == Crc(0, ToBytes(Fixed(r))[2..]) as int % 0x1_0000
    ensures Fixed(r).headSize == |ToBytes(Fixed(r))| % 0x1_0000
  {
    hide Crc, HeaderLen;
    FixedKeeps(r);
    HeaderCrcIs(Fixed(r));
    FixedTwice(r);
  }

  /** The header CRC does not cover itself. */
  lemma FixedTwice(r: Rec)
    ensures HeaderCrc(Fixed(r)) == Fixed(r).headCRC
  {
    hide Crc, Low16, SizeField, CrcField, HeaderLen, Le;
  }

  /** A record is accepted exactly when the stored CRC is the one of its bytes. */
  lemma ValidatedIff(r: Rec)
    ensures Validated(r) <==> r.headCRC == Crc(0, ToBytes(r)[2..]) as int % 0x1_0000
  {
    hide Crc, ToBytes, HeaderCrc;
    HeaderCrcIs(r);
  }

  /** The checksums of two byte sequences agree in their low 16 bits. */
  predicate SameLow16(a: seq<byte>, b: seq<byte>) {
    Crc(0, a) as int % 0x1_0000 == Crc(0, b) as int % 0x1_0000
  }

  /** With any other CRC a fixed record is refused, and a record that came to differ from it elsewhere is
      accepted exactly when the checksums of their bytes agree modulo 2^16. */
  lemma DamageRefusedIff(r: Rec, c: u16, q: Rec)
    ensures Validated(Fixed(r).(headCRC := c)) <==> c == Fixed(r).headCRC
    ensures q.headCRC == Fixed(r).headCRC ==> (Validated(q) <==> SameLow16(ToBytes(q)[2..], ToBytes(Fixed(r))[2..]))
  {
    hide Crc, ToBytes, HeaderCrc, Fixed, Validated;
    HeaderCrcCoversBytes(r);
    ValidatedIff(Fixed(r).(headCRC := c));
    OwnCrcApart(Fixed(r), c);
    ValidatedIff(q);
  }

  lemma OwnCrcApart(r: Rec, c: u16)
    ensures ToBytes(r.(headCRC := c))[2..] == ToBytes(r)[2..]
  {
    hide Le, SizeField, CrcField;
    assert Fields(r.(headCRC := c)) == Fields(r);
  }

  /** `b` holds the fields of `r` at these places, every number with its least significant byte first: the size
      from 6 to `m`, the CRC of the added data, as a number, from `m` to `n`, and then the data. */
  predicate LaidOut(b: seq<byte>, r: Rec, m: nat, n: nat, crc: nat) {
    && 6 <= m <= n <= |b| && b[n..] == r.data && b[2] == r.headType && b[3] == r.headFlags
    && NumberAt(b, 0, 2, r.headCRC) && NumberAt(b, 4, 6, r.headSize)
    && NumberAt(b, 6, m, r.addedSize) && NumberAt(b, m, n, crc)
  }

  /** The record in the file, byte by byte. */
  lemma Layout(r: Rec)
    ensures var f := r.headFlags;
            var m := 6 + if !Digit(f, 0x80) then 0 else if Digit(f, 0x40) then 8 else 4;
            LaidOut(ToBytes(r), r, m, m + if Digit(f, 0x20) then 4 else 0, r.addedDataCRC32 as int)
  {
    hide SizeLen, CrcLen, HeaderLen, Digit, LaidOut, ToBytes, Unsigned;
    FieldLengths(r.headFlags);
    FieldsAt(r);
    UnsignedIs(r.addedDataCRC32);
  }

  lemma FieldsAt(r: Rec)
    ensures var m := 6 + SizeLen(r.headFlags);
            LaidOut(ToBytes(r), r, m, m + CrcLen(r.headFlags), Unsigned(r.addedDataCRC32))
  {
    hide Le, SizeLen, CrcLen, NumberAt, ToBytes, Unsigned;
    var b, f := ToBytes(r), r.headFlags;
    var m, n := 6 + SizeLen(f), 6 + SizeLen(f) + CrcLen(f);
    Pieces(r);
    LeAt(b, 0, 2, r.headCRC);
    LeAt(b, 4, 6, r.headSize);
    LeAt(b, 6, m, r.addedSize);
    LeAt(b, m, n, Unsigned(r.addedDataCRC32));
  }

  lemma FieldLengths(f: byte)
    ensures SizeLen(f) == if !Digit(f, 0x80) then 0 else if Digit(f, 0x40) then 8 else 4
    ensures CrcLen(f) == if Digit(f, 0x20) then 4 else 0
    ensures HeaderLen(f) == 6 + SizeLen(f) + CrcLen(f)
  {
    hide HasAddedSize, HasAddedSize8, HasAddedSize4, HasAddedDataCrc, Digit;
    FlagDigits(f);
  }

  lemma Pieces(r: Rec)
    ensures var b, f := ToBytes(r), r.headFlags;
            var m, n := 6 + SizeLen(f), 6 + SizeLen(f) + CrcLen(f);
            && b[0..2] == Le(2, r.headCRC) && b[2] == r.headType && b[3] == f && b[4..6] == Le(2, r.headSize)
            && b[6..m] == Le(SizeLen(f), r.addedSize) && b[m..n] == Le(CrcLen(f), Unsigned(r.addedDataCRC32))
            && b[n..] == r.data
  {
    hide Le, SizeLen, CrcLen, Unsigned;
  }

  /** The number an added-size field shows. */
  function Shown(flags: byte, v: nat): nat {
    if HasAddedSize8(flags) then v % 0x1_0000_0000_0000_0000
    else if HasAddedSize4(flags) then v % 0x1_0000_0000
    else 0
  }

  lemma SizeFieldShows(flags: byte, v: u64)
    ensures LeValue(SizeField(flags, v)) == Shown(flags, v)
  {
    hide Le, LeValue, HasAddedSize8, HasAddedSize4;
    Capacities();
    if HasAddedSize8(flags) {
      LeRoundTrip(8, v);
    } else if HasAddedSize4(flags) {
      Low4(v);
      LeRoundTrip(4, v % 0x1_0000_0000);
    } else {
      EmptyValue();
    }
  }

  lemma EmptyValue()
    ensures LeValue([]) == 0
    ensures forall v: nat :: Le(0, v) == []
  {}

  // ---- records as objects ----

  /** The header length added up field by field in 16 bits. */
  function SizeSteps(flags: byte, n: nat): u16 {
    var a: u16 := (6 + n) % 0x1_0000;
    var b := if HasAddedSize4(flags) then WrapAdd(a, 4) else if HasAddedSize8(flags) then WrapAdd(a, 8) else a;
    if HasAddedDataCrc(flags) then WrapAdd(b, 4) else b
  }

  lemma SizeStepsAreLength(flags: byte, n: nat)
    ensures SizeSteps(flags, n) == (HeaderLen(flags) + n) % 0x1_0000
  {
    hide HasAddedSize8, HasAddedSize4, HasAddedDataCrc, WrapAdd;
    SizeFlags(flags);
    WrapTwice(6 + n, SizeLen(flags));
    WrapTwice(6 + n + SizeLen(flags), CrcLen(flags));
  }

  /** Addition in 16 bits. */
  function WrapAdd(a: u16, b: nat): u16 {
    ((a as int) + b) % 0x1_0000
  }

  lemma WrapTwice(a: nat, b: nat)
    ensures WrapAdd(a % 0x1_0000, b) == (a + b) % 0x1_0000
    ensures b == 0 ==> WrapAdd(a % 0x1_0000, b) == a % 0x1_0000
  {
    assert a + b == (a % 0x1_0000 + b) + 0x1_0000 * (a / 0x1_0000);
  }

  class KcfRecord {
    var headCRC: u16
    var headType: byte
    var headFlags: byte
    var headSize: u16
    var addedSize: u64
    var addedDataCRC32: bv32
    var data: seq<byte>

    constructor (r: Rec)
      ensures V() == r
    {
      headCRC, headType, headFlags, headSize := r.headCRC, r.headType, r.headFlags, r.headSize;
      addedSize, addedDataCRC32, data := r.addedSize, r.addedDataCRC32, r.data;
    }

    ghost function V(): Rec
      reads this
    {
      Rec(headCRC, headType, headFlags, headSize, addedSize, addedDataCRC32, data)
    }

    method Clear()
      modifies this
      ensures V() == Rec(0, 0, 0, 0, 0, 0, [])
    {
      data := [];
      headCRC, headType, headFlags, headSize := 0, 0, 0, 0;
      addedSize, addedDataCRC32 := 0, 0;
    }

    method Copy(source: KcfRecord)
      modifies this
      ensures V() == old(source.V())
    {
      headCRC, headFlags, headType, headSize := source.headCRC, source.headFlags, source.headType, source.headSize;
      addedSize, addedDataCRC32 := source.addedSize, source.addedDataCRC32;
      data := source.data;
    }

    method WriteFixedFields(buffer: array<byte>, size: nat, offset: nat) returns (ok: bool, next: nat)
      requires size <= buffer.Length
      modifies buffer
      ensures ok == (offset + 4 <= size) && next == offset + Fit(size, offset, 4)
      ensures buffer[..] == Put(old(buffer[..]), size, offset, FixedFields(V()))
    {
      hide Put, Le, Index;
      OneByte(headType);
      OneByte(headFlags);
      ghost var was := buffer[..];
      PutTwice(was, size, offset, [headType], [headFlags]);
      PutTwice(was, size, offset, [headType, headFlags], Le(2, headSize));
      assert [headType] + [headFlags] == [headType, headFlags];
      ok, next := WriteU8(buffer, size, offset, Index(headType));
      if ok {
        ok, next := WriteU8(buffer, size, next, Index(headFlags));
      }
      if ok {
        ok, next := WriteU16(buffer, size, next, headSize);
      }
    }

    method WriteSizeField(buffer: array<byte>, size: nat, offset: nat) returns (ok: bool, next: nat)
      requires offset <= size <= buffer.Length
      modifies buffer
      ensures ok == (offset + SizeLen(headFlags) <= size) && next == offset + Fit(size, offset, SizeLen(headFlags))
      ensures buffer[..] == Put(old(buffer[..]), size, offset, SizeField(headFlags, addedSize))
    {
      hide Put, Le, HasAddedSize8, HasAddedSize4;
      ok, next := true, offset;
      if HasAddedSize8(headFlags) {
        ok, next := WriteU64(buffer, size, offset, addedSize);
      } else if HasAddedSize4(headFlags) {
        Low4(addedSize);
        ok, next := WriteU32(buffer, size, offset, addedSize % 0x1_0000_0000);
      } else {
        PutNothing(buffer[..], size, offset, SizeField(headFlags, addedSize));
      }
    }

    method WriteCrcField(buffer: array<byte>, size: nat, offset: nat) returns (ok: bool, next: nat)
      requires offset <= size <= buffer.Length
      modifies buffer
      ensures ok == (offset + CrcLen(headFlags) <= size) && next == offset + Fit(size, offset, CrcLen(headFlags))
      ensures buffer[..] == Put(old(buffer[..]), size, offset, CrcField(headFlags, addedDataCRC32))
    {
      hide Put, Le, HasAddedDataCrc;
      ok, next := true, offset;
      if HasAddedDataCrc(headFlags) {
        ok, next := WriteU32(buffer, size, offset, Unsigned(addedDataCRC32));
      } else {
        PutNothing(buffer[..], size, offset, CrcField(headFlags, addedDataCRC32));
      }
    }

    /** Writes the fields from `HeadType` on at `offset`, as far as there is room. */
    method WriteFields(buffer: array<byte>, size: nat, offset: nat) returns (ok: bool, next: nat)
      requires size <= buffer.Length
      modifies buffer
      ensures ok == (offset + HeaderLen(headFlags) - 2 <= size)
      ensures next == offset + Fit(size, offset, HeaderLen(headFlags) - 2)
      ensures buffer[..] == Put(old(buffer[..]), size, offset, Fields(V()))
    {
      hide Put, FixedFields, SizeField, CrcField, SizeLen, CrcLen;
      ghost var a, b, c := FixedFields(V()), SizeField(headFlags, addedSize), CrcField(headFlags, addedDataCRC32);
      PutTwice(buffer[..], size, offset, a, b);
      PutTwice(buffer[..], size, offset, a + b, c);
      ok, next := WriteFixedFields(buffer, size, offset);
      if ok {
        ok, next := WriteSizeField(buffer, size, next);
      }
      if ok {
        ok, next := WriteCrcField(buffer, size, next);
      }
    }

    /** The CRC over the serialised fields, in a scratch buffer of 16 bytes, and the data. */
    method CalculateCrc() returns (crc16: u16)
      ensures crc16 == HeaderCrc(V()) == Crc(0, ToBytes(V())[2..]) as int % 0x1_0000
    {
      hide Crc, HeaderLen, Low16, Fields, Put;
      var buffer := new byte[16](_ => 0);
      PutExtends(buffer[..], 16, 0, Fields(V()));
      var ok, offset := WriteFields(buffer, 16, 0);
      var crc := Crc(0, buffer[..offset]);
      assert buffer[..offset] == Fields(V());
      if |data| > 0 {
        CrcChunks(0, Fields(V()), data);
        crc := Crc(crc, data);
      } else {
        assert Fields(V()) + data == Fields(V());
      }
      crc16 := Low16(crc);
      HeaderCrcIs(V());
    }

    method Validate() returns (ok: bool)
      ensures ok == Validated(V()) == (headCRC == Crc(0, ToBytes(V())[2..]) as int % 0x1_0000)
    {
      hide ToBytes, Crc;
      var crc := CalculateCrc();
      ok := crc == headCRC;
    }

    method Fix()
      modifies this
      ensures V() == Fixed(old(V()))
    {
      hide HeaderCrc, ToBytes, Crc, HasAddedSize8, HasAddedSize4, HasAddedDataCrc, WrapAdd, HeaderLen;
      SizeStepsAreLength(headFlags, |data|);
      headSize := (6 + |data|) % 0x1_0000;
      if HasAddedSize4(headFlags) {
        headSize := WrapAdd(headSize, 4);
      } else if HasAddedSize8(headFlags) {
        headSize := WrapAdd(headSize, 8);
      }
      if HasAddedDataCrc(headFlags) {
        headSize := WrapAdd(headSize, 4);
      }
      headCRC := CalculateCrc();
    }

    /** Serialises the record into `buffer`, unless `size` is below the declared length.  Only the header is
        kept inside that size. */
    method ToBuffer(buffer: array<byte>, size: nat) returns (result: bool)
      requires size <= buffer.Length && |Image(V(), size)| <= buffer.Length
      modifies buffer
      ensures result == (headSize <= size && HeaderLen(headFlags) <= size)
      ensures headSize <= size ==> buffer[..] == Image(V(), size) + old(buffer[|Image(V(), size)|..])
      ensures headSize > size ==> buffer[..] == old(buffer[..])
    {
      hide HeaderLen, Header;
      if size < headSize {
        return false;
      }
      ghost var was := buffer[..];
      var offset;
      result, offset := WriteHeader(buffer, size);
      ghost var head := buffer[..];
      CopyData(buffer, offset);
      CopiedBehind(head, was, Header(V())[..offset], data);
    }

    method CopyData(buffer: array<byte>, offset: nat)
      requires offset + |data| <= buffer.Length
      modifies buffer
      ensures buffer[..] == old(buffer[..offset]) + data + old(buffer[offset + |data|..])
    {
      forall i | 0 <= i < |data| {
        buffer[offset + i] := data[i];
      }
    }

    /** Writes the header at the start of the buffer, as far as there is room. */
    method WriteHeader(buffer: array<byte>, size: nat) returns (ok: bool, next: nat)
      requires size <= buffer.Length
      modifies buffer
      ensures ok == (HeaderLen(headFlags) <= size) && next == Fit(size, 0, HeaderLen(headFlags))
      ensures buffer[..] == Header(V())[..next] + old(buffer[next..])
    {
      hide Put, Le, HeaderLen, Fields;
      ghost var was := buffer[..];
      PutTwice(was, size, 0, Le(2, headCRC), Fields(V()));
      ok, next := WriteU16(buffer, size, 0, headCRC);
      if ok {
        ok, next := WriteFields(buffer, size, next);
      }
      PutAtStart(was, size, Header(V()), next);
    }
  }

  lemma PutAtStart(buf: seq<byte>, size: nat, b: seq<byte>, n: nat)
    requires size <= |buf| && n == Fit(size, 0, |b|)
    ensures Put(buf, size, 0, b) == b[..n] + buf[n..]
  {
    PutFits(buf, size, 0, b, n);
    assert buf[..0] == [] && [] + b[..n] == b[..n];
  }

  lemma PutNothing(buf: seq<byte>, size: nat, offset: nat, b: seq<byte>)
    requires size <= |buf| && b == []
    ensures Put(buf, size, offset, b) == buf
  {}

  lemma CopiedBehind(head: seq<byte>, was: seq<byte>, h: seq<byte>, data: seq<byte>)
    requires |h + data| <= |was| && head == h + was[|h|..]
    ensures head[..|h|] + data + head[|h| + |data|..] == (h + data) + was[|h + data|..]
  {
    assert head[..|h|] == h;
    assert head[|h| + |data|..] == head[|h|..][|data|..] == was[|h + data|..];
  }
}
