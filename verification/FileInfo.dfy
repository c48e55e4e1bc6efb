/**
  File information in the data of a file record: optional fields announced by a flag byte.  The serialiser
  and the parser of the repository carry each other's names; here each is named for what it does.
  */
module FileInfo {
  import opened Words
  import opened Digits
  import opened Crc32c
  import opened BytePack
  import opened Record
  import opened Stream
  import opened Machine
  import opened Reader

  const FILE_HEADER: byte := 0x46

  const FILE_HAS_TIMESTAMP: byte := 0x01
  const FILE_HAS_FILE_CRC32: byte := 0x02
  const FILE_HAS_UNPACKED_4: byte := 0x04
  const FILE_HAS_UNPACKED_8: byte := 0x0C

  datatype Info = Info(timeStamp: u64, unpackedSize: u64, fileName: seq<byte>, fileCRC32: u32, compressionInfo: u32,
                       fileType: byte, hasTimeStamp: bool, hasFileCRC32: bool, hasUnpackedSize: bool,
                       hasUnpackedSize8: bool)

  // ---- the layout ----

  function FlagByte(i: Info): byte {
    (if i.hasTimeStamp then FILE_HAS_TIMESTAMP else 0) | (if i.hasFileCRC32 then FILE_HAS_FILE_CRC32 else 0)
    | (if i.hasUnpackedSize then FILE_HAS_UNPACKED_4 else 0) | (if i.hasUnpackedSize8 then FILE_HAS_UNPACKED_8 else 0)
  }

  function SizeWidth(i: Info): (n: nat)
    ensures n <= 8
  {
    if !i.hasUnpackedSize then 0 else if i.hasUnpackedSize8 then 8 else 4
  }

  /** The number of bytes the serialiser allocates. */
  function DataSize(i: Info): nat {
    2 + SizeWidth(i) + (if i.hasFileCRC32 then 4 else 0) + (if i.hasTimeStamp then 8 else 0) + 4 + 2 + |i.fileName|
  }

  /** The serialised information. */
  function InfoBytes(i: Info): seq<byte> {
    var crc := Le(if i.hasFileCRC32 then 4 else 0, i.fileCRC32);
    var time := Le(if i.hasTimeStamp then 8 else 0, i.timeStamp);
    var nameSize := Le(2, |i.fileName| % 0x1_0000);
    [FlagByte(i), i.fileType] + Le(SizeWidth(i), i.unpackedSize) + crc + Le(4, i.compressionInfo) + time + nameSize
    + i.fileName
  }

  /** The flag byte as a number. */
  lemma FlagByteNumber(i: Info)
    ensures FlagByte(i) as int == (if i.hasTimeStamp then 1 else 0) + (if i.hasFileCRC32 then 2 else 0)
                                  + (if i.hasUnpackedSize || i.hasUnpackedSize8 then 4 else 0)
                                  + if i.hasUnpackedSize8 then 8 else 0
  {}

  // ---- what a parser takes from the flag byte ----

  predicate SaysTimeStamp(f: byte) {
    f & FILE_HAS_TIMESTAMP != 0
  }

  predicate SaysFileCrc(f: byte) {
    f & FILE_HAS_FILE_CRC32 != 0
  }

  predicate SaysSize(f: byte) {
    f & FILE_HAS_UNPACKED_4 != 0
  }

  predicate SaysSize8(f: byte) {
    f & FILE_HAS_UNPACKED_8 == FILE_HAS_UNPACKED_8
  }

  predicate SaysSize4(f: byte) {
    f & FILE_HAS_UNPACKED_8 == FILE_HAS_UNPACKED_4
  }

  lemma FlagByteSays(i: Info)
    ensures var f := FlagByte(i);
            && SaysTimeStamp(f) == i.hasTimeStamp && SaysFileCrc(f) == i.hasFileCRC32
            && SaysSize(f) == (i.hasUnpackedSize || i.hasUnpackedSize8) && SaysSize8(f) == i.hasUnpackedSize8
            && SaysSize4(f) == (i.hasUnpackedSize && !i.hasUnpackedSize8)
  {}

  /** What is taken from a flag byte, by its binary digits. */
  lemma SaysDigits(f: byte)
    ensures SaysTimeStamp(f) <==> Digit(f, 1)
    ensures SaysFileCrc(f) <==> Digit(f, 2)
    ensures SaysSize(f) <==> Digit(f, 4)
    ensures SaysSize8(f) <==> Digit(f, 4) && Digit(f, 8)
    ensures SaysSize4(f) <==> Digit(f, 4) && !Digit(f, 8)
  {
    hide SaysTimeStamp, SaysFileCrc, SaysSize, SaysSize8, SaysSize4, Digit, On;
    LowDigitsAreBits(f);
    SaysBits(f);
  }

  lemma SaysBits(f: byte)
    ensures SaysTimeStamp(f) <==> On(f, 1)
    ensures SaysFileCrc(f) <==> On(f, 2)
    ensures SaysSize(f) <==> On(f, 4)
    ensures SaysSize8(f) <==> On(f, 4) && On(f, 8)
    ensures SaysSize4(f) <==> On(f, 4) && !On(f, 8)
  {}

  /** Where each field lies, given the flag byte. */
  function CrcAt(f: byte): nat {
    2 + if SaysSize8(f) then 8 else if SaysSize4(f) then 4 else 0
  }

  function CompressionAt(f: byte): nat {
    CrcAt(f) + if SaysFileCrc(f) then 4 else 0
  }

  function TimeAt(f: byte): nat {
    CompressionAt(f) + 4
  }

  function NameSizeAt(f: byte): nat {
    TimeAt(f) + if SaysTimeStamp(f) then 8 else 0
  }

  function Number(b: seq<byte>, at: nat, k: nat): (v: nat)
    requires at + k <= |b| && k in {2, 4, 8}
    ensures v < Capacity(k)
  {
    LeValueBound(b[at..at + k]);
    LeValue(b[at..at + k])
  }

  /** The data is as long as its flags and its name length say. */
  predicate Complete(b: seq<byte>) {
    && |b| >= 2 && NameSizeAt(b[0]) + 2 <= |b|
    && NameSizeAt(b[0]) + 2 + Number(b, NameSizeAt(b[0]), 2) <= |b|
  }

  /** What parsing makes of `prior`: fields that are not there keep their values, and so does the file type. */
  function Parsed(prior: Info, b: seq<byte>): Info
    requires Complete(b)
  {
    Capacities();
    var f := b[0];
    var at := NameSizeAt(f) + 2;
    Info(if SaysTimeStamp(f) then Number(b, TimeAt(f), 8) else prior.timeStamp,
         if SaysSize8(f) then Number(b, 2, 8) else if SaysSize4(f) then Number(b, 2, 4) else prior.unpackedSize,
         b[at..at + Number(b, NameSizeAt(f), 2)],
         if SaysFileCrc(f) then Number(b, CrcAt(f), 4) else prior.fileCRC32,
         Number(b, CompressionAt(f), 4), prior.fileType,
         SaysTimeStamp(f), SaysFileCrc(f), SaysSize(f), SaysSize8(f))
  }

  // ---- data shorter than it says ----

  /** What the parser's variables hold where the data has ended: the flags, and the two halves of the
      length of the name. */
  datatype Unread = Unread(flags: byte, low: byte, high: byte)

  function FlagsRead(b: seq<byte>, u: Unread): byte {
    if b == [] then u.flags else b[0]
  }

  /** An offset into the data, not beyond its end. */
  function Upto(b: seq<byte>, at: nat): (n: nat)
    ensures n <= |b|
  {
    if at <= |b| then at else |b|
  }

  function NameLength(b: seq<byte>, u: Unread): (n: nat)
    ensures n < 0x1_0000
  {
    var at := NameSizeAt(FlagsRead(b, u));
    Index(if at < |b| then b[at] else u.low) + 256 * Index(if at + 1 < |b| then b[at + 1] else u.high)
  }

  function NameAt(b: seq<byte>, u: Unread): (n: nat)
    ensures n <= |b|
  {
    Upto(b, NameSizeAt(FlagsRead(b, u)) + 2)
  }

  /** The end of the copied name, counted from the start of the data. */
  function NameEnd(b: seq<byte>, u: Unread): (n: nat)
    ensures NameAt(b, u) <= n < |b| + 0x1_0000
  {
    NameAt(b, u) + NameLength(b, u)
  }

  /** The name copied is inside the data, whatever the unread variables hold, exactly when the data is as
      long as it says: otherwise the copy runs on into what lies behind. */
  lemma NameInsideIff(b: seq<byte>)
    ensures (forall u :: NameEnd(b, u) <= |b|) <==> Complete(b)
  {
    hide NameSizeAt, Index, LeValue, Number;
    if |b| >= 2 && NameSizeAt(b[0]) + 2 <= |b| {
      NameLengthIs(b);
      var u := Unread(0, 0, 0);
      assert NameEnd(b, u) == NameSizeAt(b[0]) + 2 + Number(b, NameSizeAt(b[0]), 2);
    } else {
      var u := Unread(0, 0xFF, 0xFF);
      LongName();
      assert NameEnd(b, u) > |b| by {
        NameSizeIsLate(FlagsRead(b, u));
      }
    }
  }

  lemma LongName()
    ensures Index(0xFF) == 255
  {}

  lemma NameSizeIsLate(f: byte)
    ensures NameSizeAt(f) >= 6
  {}

  lemma NameLengthIs(b: seq<byte>)
    requires |b| >= 2 && NameSizeAt(b[0]) + 2 <= |b|
    ensures forall u :: NameLength(b, u) == Number(b, NameSizeAt(b[0]), 2)
  {
    hide NameSizeAt, Index, LeValue;
    var at := NameSizeAt(b[0]);
    TwoBytes(b[at], b[at + 1]);
    assert b[at..at + 2] == [b[at], b[at + 1]];
  }

  lemma TwoBytes(low: byte, high: byte)
    ensures LeValue([low, high]) == Index(low) + 256 * Index(high)
  {
    hide Index, LeValue;
    assert [low, high] == [low] + [high];
    LeValueSplit([low], [high]);
    OneByteValue(low);
    OneByteValue(high);
    Capacities();
  }

  /** What parsing may make of `prior`, for any data: the fields before the name, and the name, copied from
      memory in which `beyond` follows the data. */
  ghost predicate ParsedFrom(prior: Info, b: seq<byte>, beyond: seq<byte>, u: Unread, out: Info)
    requires |beyond| == 0x1_0000
  {
    FieldsFrom(prior, b, FlagsRead(b, u), out) && out.fileName == (b + beyond)[NameAt(b, u)..NameEnd(b, u)]
  }

  /** Fields that are not there keep their values, and fields that lie in the data are read. */
  ghost predicate FieldsFrom(prior: Info, b: seq<byte>, f: byte, out: Info) {
    && out.fileType == prior.fileType
    && out.hasTimeStamp == SaysTimeStamp(f) && out.hasFileCRC32 == SaysFileCrc(f)
    && out.hasUnpackedSize == SaysSize(f) && out.hasUnpackedSize8 == SaysSize8(f)
    && SizeRead(b, f, prior.unpackedSize, out.unpackedSize)
    && (if SaysFileCrc(f) then Lies(b, CrcAt(f), 4, out.fileCRC32) else out.fileCRC32 == prior.fileCRC32)
    && Lies(b, CompressionAt(f), 4, out.compressionInfo)
    && (if SaysTimeStamp(f) then Lies(b, TimeAt(f), 8, out.timeStamp) else out.timeStamp == prior.timeStamp)
  }

  /** `v` is the number at `at`, if it lies in the data. */
  ghost predicate Lies(b: seq<byte>, at: nat, k: nat, v: nat)
    requires k in {2, 4, 8}
  {
    at + k <= |b| ==> v == Number(b, at, k)
  }

  ghost predicate SizeRead(b: seq<byte>, f: byte, prior: nat, v: nat) {
    if SaysSize8(f) then Lies(b, 2, 8, v) else if SaysSize4(f) then Lies(b, 2, 4, v) else v == prior
  }

  /** For data as long as it says, nothing of this is left open. */
  lemma CompleteIsParsed(prior: Info, b: seq<byte>, beyond: seq<byte>, u: Unread, out: Info)
    requires Complete(b) && |beyond| == 0x1_0000 && ParsedFrom(prior, b, beyond, u, out)
    ensures out == Parsed(prior, b)
  {
    hide LeValue, SaysTimeStamp, SaysFileCrc, SaysSize, SaysSize8, SaysSize4, Number, NameSizeAt, TimeAt,
      CompressionAt, CrcAt, NameLength;
    Order(b[0]);
    NameLengthIs(b);
    assert (b + beyond)[NameAt(b, u)..NameEnd(b, u)] == b[NameAt(b, u)..NameEnd(b, u)];
  }

  /** The little-endian number in the bytes from `from` to `to`. */
  function Little(b: seq<byte>, from: nat, to: nat): nat {
    if from <= to <= |b| then LeValue(b[from..to]) else 0
  }

  /** What is parsed from complete data, by the binary digits of its first byte: which fields there are, where
      they lie, and that the others keep their values. */
  lemma ParsedLayout(prior: Info, b: seq<byte>)
    requires Complete(b)
    ensures var i, f := Parsed(prior, b), b[0];
            var c := 2 + if !Digit(f, 4) then 0 else if Digit(f, 8) then 8 else 4;
            var p := c + if Digit(f, 2) then 4 else 0;
            var n := p + 4 + if Digit(f, 1) then 8 else 0;
            && n + 2 + Little(b, n, n + 2) <= |b|
            && i.hasUnpackedSize == Digit(f, 4) && i.hasUnpackedSize8 == (Digit(f, 4) && Digit(f, 8))
            && i.hasFileCRC32 == Digit(f, 2) && i.hasTimeStamp == Digit(f, 1) && i.fileType == prior.fileType
            && i.unpackedSize == (if Digit(f, 4) then Little(b, 2, c) else prior.unpackedSize)
            && i.fileCRC32 == (if Digit(f, 2) then Little(b, c, p) else prior.fileCRC32)
            && i.compressionInfo == Little(b, p, p + 4)
            && i.timeStamp == (if Digit(f, 1) then Little(b, p + 4, n) else prior.timeStamp)
            && i.fileName == b[n + 2..n + 2 + Little(b, n, n + 2)]
  {
    hide SaysTimeStamp, SaysFileCrc, SaysSize, SaysSize8, SaysSize4, Digit, LeValue;
    SaysDigits(b[0]);
  }

  /** Everything present in `i` recovered, on top of `prior`. */
  function Recovered(prior: Info, i: Info): Info {
    i.(timeStamp := if i.hasTimeStamp then i.timeStamp else prior.timeStamp,
    unpackedSize := if i.hasUnpackedSize then i.unpackedSize else prior.unpackedSize,
    fileCRC32 := if i.hasFileCRC32 then i.fileCRC32 else prior.fileCRC32,
    fileType := prior.fileType)
  }

  /** What the fields can hold of `i`: a four-byte size modulo 2^32, and of the name as much as the 16-bit
      length says. */
  function Stored(prior: Info, i: Info): Info {
    var n := |i.fileName| % 0x1_0000;
    var size := if i.hasUnpackedSize8 then i.unpackedSize
                else if i.hasUnpackedSize then i.unpackedSize % 0x1_0000_0000
                else prior.unpackedSize;
    Recovered(prior, i).(fileName := i.fileName[..n], unpackedSize := size)
  }

  // ---- the round trip ----

  lemma {:induction false} BytesMatchSize(i: Info)
    ensures |InfoBytes(i)| == DataSize(i)
  {
    hide FlagByte, Le;
  }

  /** The size flags are consistent. */
  predicate SizeFlagsAgree(i: Info) {
    i.hasUnpackedSize8 ==> i.hasUnpackedSize
  }

  /** A size announced with four bytes fits them. */
  predicate SizeFitsWidth(i: Info) {
    i.hasUnpackedSize && !i.hasUnpackedSize8 ==> i.unpackedSize < 0x1_0000_0000
  }

  /** The fields of serialised information, one by one. */
  lemma Slices(i: Info)
    requires SizeFlagsAgree(i)
    ensures var b := InfoBytes(i);
            var f := FlagByte(i);
            && |b| == NameSizeAt(f) + 2 + |i.fileName| && b[0] == f
            && (i.hasUnpackedSize ==> b[2..2 + SizeWidth(i)] == Le(SizeWidth(i), i.unpackedSize))
            && (i.hasFileCRC32 ==> b[CrcAt(f)..CrcAt(f) + 4] == Le(4, i.fileCRC32))
            && b[CompressionAt(f)..CompressionAt(f) + 4] == Le(4, i.compressionInfo)
            && (i.hasTimeStamp ==> b[TimeAt(f)..TimeAt(f) + 8] == Le(8, i.timeStamp))
            && b[NameSizeAt(f)..NameSizeAt(f) + 2] == Le(2, |i.fileName| % 0x1_0000)
            && b[NameSizeAt(f) + 2..] == i.fileName
  {
    hide FlagByte, Le, SaysTimeStamp, SaysFileCrc, SaysSize, SaysSize8, SaysSize4;
    FlagByteSays(i);
    Cut([FlagByte(i), i.fileType], Le(SizeWidth(i), i.unpackedSize), Le(if i.hasFileCRC32 then 4 else 0, i.fileCRC32),
        Le(4, i.compressionInfo), Le(if i.hasTimeStamp then 8 else 0, i.timeStamp), Le(2, |i.fileName| % 0x1_0000),
        i.fileName);
  }

  /** Seven pieces, and where each lies in their concatenation. */
  lemma Cut(p: seq<byte>, m1: seq<byte>, m2: seq<byte>, m3: seq<byte>, m4: seq<byte>, m5: seq<byte>, rest: seq<byte>)
    ensures var b := p + m1 + m2 + m3 + m4 + m5 + rest;
            var n1 := |p|;
            var n2 := n1 + |m1|;
            var n3 := n2 + |m2|;
            var n4 := n3 + |m3|;
            var n5 := n4 + |m4|;
            var n6 := n5 + |m5|;
            && |b| == n6 + |rest| && b[..n1] == p && b[n1..n2] == m1 && b[n2..n3] == m2 && b[n3..n4] == m3
            && b[n4..n5] == m4
            && b[n5..n6] == m5 && b[n6..] == rest
  {
    var q2 := p + m1;
    var q3 := q2 + m2;
    var q4 := q3 + m3;
    var q5 := q4 + m4;
    var q6 := q5 + m5;
    var b := q6 + rest;
    Piece(q5, m5, b);
    Earlier(q4, m4, q5, b);
    Earlier(q3, m3, q4, b);
    Earlier(q2, m2, q3, b);
    Earlier(p, m1, q2, b);
    Earlier([], p, p, b);
  }

  lemma Piece(q: seq<byte>, m: seq<byte>, b: seq<byte>)
    requires q + m <= b
    ensures q <= b && b[|q|..|q| + |m|] == m
  {
    assert b[..|q + m|] == q + m;
  }

  lemma Earlier(q: seq<byte>, m: seq<byte>, next: seq<byte>, b: seq<byte>)
    requires q + m == next && next <= b
    ensures q <= b && b[|q|..|q| + |m|] == m
  {
    Piece(q, m, b);
  }

  /** The data of a file record, byte by byte: the flags as a number, the type, and every number with its
      least significant byte first, in the order size, CRC, compression, time stamp, length of the name. */
  lemma InfoLayout(i: Info)
    ensures var b := InfoBytes(i);
            var c := 2 + if !i.hasUnpackedSize then 0 else if i.hasUnpackedSize8 then 8 else 4;
            var p := c + if i.hasFileCRC32 then 4 else 0;
            var n := p + 4 + if i.hasTimeStamp then 8 else 0;
            && |b| == n + 2 + |i.fileName| && b[1] == i.fileType && b[n + 2..] == i.fileName
            && b[0] as int == (if i.hasTimeStamp then 1 else 0) + (if i.hasFileCRC32 then 2 else 0)
                              + (if i.hasUnpackedSize || i.hasUnpackedSize8 then 4 else 0)
                              + (if i.hasUnpackedSize8 then 8 else 0)
            && NumberAt(b, 2, c, i.unpackedSize) && NumberAt(b, c, p, i.fileCRC32)
            && NumberAt(b, p, p + 4, i.compressionInfo) && NumberAt(b, p + 4, n, i.timeStamp)
            && NumberAt(b, n, n + 2, |i.fileName|)
  {
    hide FlagByte, Le, NumberAt;
    FlagByteNumber(i);
    var size, crc := Le(SizeWidth(i), i.unpackedSize), Le(if i.hasFileCRC32 then 4 else 0, i.fileCRC32);
    var time, name := Le(if i.hasTimeStamp then 8 else 0, i.timeStamp), Le(2, |i.fileName| % 0x1_0000);
    Cut([FlagByte(i), i.fileType], size, crc, Le(4, i.compressionInfo), time, name, i.fileName);
    var b := InfoBytes(i);
    assert b[0] == b[..2][0] && b[1] == b[..2][1];
    var c := 2 + |size|;
    var p := c + |crc|;
    var n := p + 4 + |time|;
    Low2(|i.fileName|);
    LeAt(b, 2, c, i.unpackedSize);
    LeAt(b, c, p, i.fileCRC32);
    LeAt(b, p, p + 4, i.compressionInfo);
    LeAt(b, p + 4, n, i.timeStamp);
    LeAt(b, n, n + 2, |i.fileName|);
  }

  lemma NumberOfLe(b: seq<byte>, at: nat, k: nat, v: nat)
    requires at + k <= |b| && k in {2, 4, 8} && b[at..at + k] == Le(k, v) && v < Capacity(k)
    ensures Number(b, at, k) == v
  {
    LeRoundTrip(k, v);
  }

  lemma NumberOfLow4(b: seq<byte>, at: nat, v: nat)
    requires at + 4 <= |b| && b[at..at + 4] == Le(4, v)
    ensures Number(b, at, 4) == v % 0x1_0000_0000
  {
    hide Le, LeValue;
    Capacities();
    Low4(v);
    LeRoundTrip(4, v % 0x1_0000_0000);
  }

  /** With agreeing size flags the data is complete and every present field is read back, sizes and the
      name length as far as their fields hold them. */
  lemma AgreeingParse(prior: Info, i: Info)
    requires SizeFlagsAgree(i)
    ensures var b := InfoBytes(i);
            && Complete(b)
            && Parsed(prior, b) == Stored(prior, i)
  {
    hide FlagByte, InfoBytes, Le, LeValue, SaysTimeStamp, SaysFileCrc, SaysSize, SaysSize8, SaysSize4, Number,
      NameSizeAt, TimeAt, CompressionAt, CrcAt;
    FlagByteSays(i);
    Slices(i);
    Capacities();
    var b := InfoBytes(i);
    var f := FlagByte(i);
    var n := |i.fileName| % 0x1_0000;
    Order(f);
    NumberOfLe(b, NameSizeAt(f), 2, n);
    NumberOfLe(b, CompressionAt(f), 4, i.compressionInfo);
    if i.hasTimeStamp {
      NumberOfLe(b, TimeAt(f), 8, i.timeStamp);
    }
    if i.hasFileCRC32 {
      NumberOfLe(b, CrcAt(f), 4, i.fileCRC32);
    }
    if i.hasUnpackedSize8 {
      NumberOfLe(b, 2, 8, i.unpackedSize);
    } else if i.hasUnpackedSize {
      NumberOfLow4(b, 2, i.unpackedSize);
    }
    var at := NameSizeAt(f) + 2;
    assert b[at..at + n] == b[at..][..n];
  }

  lemma Order(f: byte)
    ensures 2 <= CrcAt(f) <= CompressionAt(f) && CompressionAt(f) + 4 == TimeAt(f) <= NameSizeAt(f)
    ensures SaysFileCrc(f) ==> CrcAt(f) + 4 == CompressionAt(f)
    ensures SaysTimeStamp(f) ==> TimeAt(f) + 8 == NameSizeAt(f)
    ensures SaysSize8(f) ==> CrcAt(f) == 10
    ensures SaysSize4(f) && !SaysSize8(f) ==> CrcAt(f) == 6
  {}

  /** File information survives the round trip exactly when an eight-byte size is announced only with a
      size, a four-byte size fits its field, and so does the length of the name. */
  lemma InfoRoundTripIff(prior: Info, i: Info)
    ensures Complete(InfoBytes(i)) && Parsed(prior, InfoBytes(i)) == Recovered(prior, i)
       <==> SizeFlagsAgree(i) && SizeFitsWidth(i) && |i.fileName| < 0x1_0000
  {
    hide FlagByte, Le, LeValue, SaysTimeStamp, SaysFileCrc, SaysSize, SaysSize8, SaysSize4, Number, NameSizeAt,
      TimeAt, CompressionAt, CrcAt;
    if SizeFlagsAgree(i) {
      AgreeingParse(prior, i);
      if |i.fileName| < 0x1_0000 {
        assert i.fileName[..|i.fileName| % 0x1_0000] == i.fileName;
      }
    } else {
      FlagByteSays(i);
      assert InfoBytes(i)[0] == FlagByte(i);
    }
  }

  /** The file record that serialising `i` makes of `r`. */
  function FileRecord(r: Rec, i: Info): Rec {
    Fixed(r.(headType := FILE_HEADER, data := InfoBytes(i)))
  }

  /** File information written to an archive and read back from it: the record validates as a file record,
      and parsing it recovers the information exactly when the size flags agree and a four-byte size fits. */
  lemma FileRecordRoundTripIff(s: State, r: Rec, i: Info, prior: Info, heap: seq<byte>, rest: seq<byte>)
    requires s.ps.ReadRecordHeader? && |heap| == 0x1_0000
    requires Legal(r.(headType := FILE_HEADER, data := InfoBytes(i)))
    requires StartsWith(s.io, ToBytes(FileRecord(r, i)) + rest)
    ensures var (t, err, got) := GetRecord(s, heap);
            && err.Ok? && Validated(got) && got.headType as int == 0x46 && got.data == InfoBytes(i)
            && (Complete(got.data) && Parsed(prior, got.data) == Recovered(prior, i)
                <==> SizeFlagsAgree(i) && SizeFitsWidth(i))
  {
    hide InfoBytes, Complete, Parsed, Recovered, SizeFlagsAgree, GetRecord, Validated, ToBytes, HeaderLen, Canon,
      StartsWith, Fixed, DataSize;
    TypeByte(FILE_HEADER);
    var q := r.(headType := FILE_HEADER, data := InfoBytes(i));
    FixedKeeps(q);
    FixedFacts(q);
    RecordRoundTrip(s, FileRecord(r, i), heap, rest);
    CanonValidates(FileRecord(r, i));
    CanonKeeps(FileRecord(r, i));
    BytesMatchSize(i);
    NameLast(i);
    InfoRoundTripIff(prior, i);
  }

  // ---- the methods ----

  class KcfFileInfo {
    var timeStamp: u64
    var unpackedSize: u64
    var fileName: seq<byte>
    var fileCRC32: u32
    var compressionInfo: u32
    var fileType: byte
    var hasTimeStamp: bool
    var hasFileCRC32: bool
    var hasUnpackedSize: bool
    var hasUnpackedSize8: bool

    ghost function V(): Info
      reads this
    {
      Info(timeStamp, unpackedSize, fileName, fileCRC32, compressionInfo, fileType,
           hasTimeStamp, hasFileCRC32, hasUnpackedSize, hasUnpackedSize8)
    }

    method FlagsOf() returns (flags: byte)
      ensures flags == FlagByte(V())
    {
      flags := 0;
      if hasTimeStamp {
        flags := flags | FILE_HAS_TIMESTAMP;
      }
      if hasFileCRC32 {
        flags := flags | FILE_HAS_FILE_CRC32;
      }
      if hasUnpackedSize {
        flags := flags | FILE_HAS_UNPACKED_4;
      }
      if hasUnpackedSize8 {
        flags := flags | FILE_HAS_UNPACKED_8;
      }
    }

    method SizeOf() returns (result: nat)
      ensures result == DataSize(V())
    {
      result := 2;
      if hasUnpackedSize && hasUnpackedSize8 {
        result := result + 8;
      } else if hasUnpackedSize && !hasUnpackedSize8 {
        result := result + 4;
      }
      if hasFileCRC32 {
        result := result + 4;
      }
      if hasTimeStamp {
        result := result + 8;
      }
      result := result + 4 + 2 + |fileName|;
    }

    /** Flag byte, type and size. */
    method WriteSizes(buffer: array<byte>) returns (offset: nat)
      requires buffer.Length >= 2 + SizeWidth(V())
      modifies buffer
      ensures offset == 2 + SizeWidth(V())
      ensures buffer[..offset] == [FlagByte(V()), fileType] + Le(SizeWidth(V()), unpackedSize)
    {
      hide Put, Le, FlagByte;
      var flags := FlagsOf();
      var size := buffer.Length;
      var ok;
      OneByte(flags);
      OneByte(fileType);
      PutExtends(buffer[..], size, 0, [flags]);
      ok, offset := WriteU8(buffer, size, 0, Index(flags));
      assert buffer[..1] == [flags];
      PutExtends(buffer[..], size, 1, [fileType]);
      ok, offset := WriteU8(buffer, size, offset, Index(fileType));
      assert buffer[..2] == [flags, fileType];
      PutExtends(buffer[..], size, 2, Le(SizeWidth(V()), unpackedSize));
      if hasUnpackedSize && hasUnpackedSize8 {
        ok, offset := WriteU64(buffer, size, 2, unpackedSize);
      } else if hasUnpackedSize {
        Low4(unpackedSize);
        ok, offset := WriteU32(buffer, size, 2, unpackedSize % 0x1_0000_0000);
      } else {
        NoField(unpackedSize);
        assert buffer[..2] + [] == buffer[..2];
      }
    }

    /** CRC, compression, time stamp and the length of the name. */
    method WriteRest(buffer: array<byte>, at: nat) returns (offset: nat)
      requires buffer.Length == at + DataSize(V()) - 2 - SizeWidth(V())
      modifies buffer
      ensures offset == buffer.Length - |fileName|
      ensures var crc := Le(if hasFileCRC32 then 4 else 0, fileCRC32);
              var time := Le(if hasTimeStamp then 8 else 0, timeStamp);
              buffer[..offset]
              == old(buffer[..at]) + crc + Le(4, compressionInfo) + time + Le(2, |fileName| % 0x1_0000)
    {
      hide Put, Le, SizeWidth;
      var size := buffer.Length;
      var ok;
      offset := at;
      PutExtends(buffer[..], size, offset, Le(if hasFileCRC32 then 4 else 0, fileCRC32));
      if hasFileCRC32 {
        ok, offset := WriteU32(buffer, size, offset, fileCRC32);
      } else {
        NoField(fileCRC32);
        assert buffer[..at] + [] == buffer[..at];
      }
      PutExtends(buffer[..], size, offset, Le(4, compressionInfo));
      ok, offset := WriteU32(buffer, size, offset, compressionInfo);
      ghost var mid := buffer[..offset];
      PutExtends(buffer[..], size, offset, Le(if hasTimeStamp then 8 else 0, timeStamp));
      if hasTimeStamp {
        ok, offset := WriteU64(buffer, size, offset, timeStamp);
      } else {
        NoField(timeStamp);
        assert mid + [] == mid;
      }
      PutExtends(buffer[..], size, offset, Le(2, |fileName| % 0x1_0000));
      ok, offset := WriteU16(buffer, size, offset, |fileName| % 0x1_0000);
    }

    /** Fills a file record from this information; the record's flags and added data stay as they are. */
    method Serialise(record: KcfRecord)
      modifies record
      ensures record.V() == FileRecord(old(record.V()), V())
    {
      hide Fixed, FlagByte, Le, SizeWidth, DataSize;
      record.headType := FILE_HEADER;
      var size := SizeOf();
      BytesMatchSize(V());
      NameLast(V());
      var buffer := new byte[size];
      var offset := WriteSizes(buffer);
      offset := WriteRest(buffer, offset);
      CopyName(buffer, offset);
      record.data := buffer[..];
      record.Fix();
    }

    /** Copies the name behind the other fields. */
    method CopyName(buffer: array<byte>, offset: nat)
      requires offset + |fileName| == buffer.Length
      modifies buffer
      ensures buffer[..] == old(buffer[..offset]) + fileName
    {
      forall k | 0 <= k < |fileName| {
        buffer[offset + k] := fileName[k];
      }
    }

    /** The size, where the flags announce one. */
    method ParseSize(b: seq<byte>, flags: byte, at: nat) returns (offset: nat)
      requires at == Upto(b, 2)
      modifies this`unpackedSize
      ensures offset == Upto(b, CrcAt(flags))
      ensures SizeRead(b, flags, old(unpackedSize), unpackedSize)
    {
      hide LeValue, SaysSize8, SaysSize4, Capacity;
      var ok;
      offset := at;
      if SaysSize8(flags) {
        ok, offset, unpackedSize := ReadU64(b, |b|, offset);
      } else if SaysSize4(flags) {
        ok, offset, unpackedSize := ReadU32(b, |b|, offset);
      }
    }

    /** CRC, compression and time stamp. */
    method ParseMiddle(b: seq<byte>, flags: byte, at: nat) returns (offset: nat)
      requires at == Upto(b, CrcAt(flags))
      requires hasFileCRC32 == SaysFileCrc(flags) && hasTimeStamp == SaysTimeStamp(flags)
      modifies this`fileCRC32, this`compressionInfo, this`timeStamp
      ensures offset == Upto(b, NameSizeAt(flags))
      ensures if hasFileCRC32 then Lies(b, CrcAt(flags), 4, fileCRC32) else fileCRC32 == old(fileCRC32)
      ensures Lies(b, CompressionAt(flags), 4, compressionInfo)
      ensures if hasTimeStamp then Lies(b, TimeAt(flags), 8, timeStamp) else timeStamp == old(timeStamp)
    {
      hide LeValue, SaysFileCrc, SaysTimeStamp, CrcAt, Capacity;
      var ok;
      offset := at;
      if hasFileCRC32 {
        ok, offset, fileCRC32 := ReadU32(b, |b|, offset);
      }
      ok, offset, compressionInfo := ReadU32(b, |b|, offset);
      if hasTimeStamp {
        ok, offset, timeStamp := ReadU64(b, |b|, offset);
      }
    }

    /** The length of the name. */
    method ParseNameSize(b: seq<byte>, flags: byte, at: nat) returns (offset: nat, size: u16, ghost u: Unread)
      requires at == Upto(b, NameSizeAt(flags)) && (b != [] ==> flags == b[0])
      ensures u.flags == flags && offset == NameAt(b, u) && size == NameLength(b, u)
    {
      hide LeValue, NameSizeAt, Index, ToByte;
      var ok;
      ok, offset, size := ReadU16(b, |b|, at);
      u := Unread(flags, ToByte(size % 256), ToByte(size / 256));
      IndexOfByte(size % 256);
      IndexOfByte(size / 256);
      NameSizeIsLate(flags);
      if ok {
        NameLengthIs(b);
      }
    }

    /** Reads the information from a file record.  `beyond` is what lies in memory behind its data. */
    method Parse(record: KcfRecord, beyond: seq<byte>) returns (err: InfoError)
      requires |beyond| == 0x1_0000
      modifies this
      ensures err.InvalidData?
         <==> record.headCRC != Crc(0, ToBytes(record.V())[2..]) as int % 0x1_0000 || record.headType as int != 0x46
      ensures err.InvalidData? ==> V() == old(V())
      ensures err.Fine? ==> exists u :: ParsedFrom(old(V()), record.data, beyond, u, V())
      ensures err.Fine? && Complete(record.data) ==> V() == Parsed(old(V()), record.data)
    {
      hide Crc, ToBytes, Validated, Complete, Parsed, ParsedFrom;
      TypeByte(record.headType);
      var valid := record.Validate();
      if !valid || record.headType != FILE_HEADER {
        return InvalidData;
      }
      ghost var u := ParseData(record.data, beyond);
      if Complete(record.data) {
        CompleteIsParsed(old(V()), record.data, beyond, u, V());
      }
      return Fine;
    }

    method ParseData(b: seq<byte>, beyond: seq<byte>) returns (ghost u: Unread)
      requires |beyond| == 0x1_0000
      modifies this
      ensures ParsedFrom(old(V()), b, beyond, u, V())
    {
      hide FieldsFrom, NameSizeAt, NameLength, NameAt, NameEnd;
      var flags, offset := ParseFields(b);
      var nameSize;
      offset, nameSize, u := ParseNameSize(b, flags, offset);
      NameEndIs(b, u);
      fileName := (b + beyond)[offset..offset + nameSize];
      FieldsOnly(old(V()), b, flags, V().(fileName := old(fileName)), V());
    }

    /** Everything before the name. */
    method ParseFields(b: seq<byte>) returns (flags: byte, offset: nat)
      modifies this
      ensures offset == Upto(b, NameSizeAt(flags)) && (b != [] ==> flags == b[0])
      ensures FieldsFrom(old(V()), b, flags, V()) && fileName == old(fileName)
    {
      hide SaysTimeStamp, SaysFileCrc, SaysSize, SaysSize8, SaysSize4, NameSizeAt, TimeAt, CompressionAt, CrcAt,
        Lies, SizeRead;
      flags, offset := ParseFlags(b);
      hasTimeStamp := SaysTimeStamp(flags);
      hasFileCRC32 := SaysFileCrc(flags);
      hasUnpackedSize := SaysSize(flags);
      hasUnpackedSize8 := SaysSize8(flags);
      offset := ParseSize(b, flags, offset);
      offset := ParseMiddle(b, flags, offset);
    }

    /** The flags, and past the file type, which is not used. */
    method ParseFlags(b: seq<byte>) returns (flags: byte, offset: nat)
      ensures offset == Upto(b, 2) && (b != [] ==> flags == b[0])
    {
      hide Index, ToByte;
      var ok, f, fileType;
      ok, offset, f := ReadU8(b, |b|, 0);
      if ok {
        assert b[0..1] == [b[0]];
        OneByteValue(b[0]);
        ToByteOfIndex(b[0]);
      }
      flags := ToByte(f);
      ok, offset, fileType := ReadU8(b, |b|, offset);
    }
  }

  lemma FieldsOnly(prior: Info, b: seq<byte>, f: byte, out: Info, named: Info)
    requires FieldsFrom(prior, b, f, out) && named == out.(fileName := named.fileName)
    ensures FieldsFrom(prior, b, f, named)
  {
    hide SaysTimeStamp, SaysFileCrc, SaysSize, SaysSize8, SaysSize4, TimeAt, CompressionAt, CrcAt, Lies, SizeRead;
  }

  lemma NameEndIs(b: seq<byte>, u: Unread)
    ensures NameEnd(b, u) == NameAt(b, u) + NameLength(b, u)
  {}

  datatype InfoError = Fine | InvalidData

  lemma NoField(v: nat)
    ensures Le(0, v) == []
  {}

  lemma TypeByte(t: byte)
    ensures t == FILE_HEADER <==> t as int == 0x46
  {}

  lemma NameLast(i: Info)
    ensures DataSize(i) >= 2 + SizeWidth(i) + |i.fileName|
  {}
}
