/**
  The container format from outside: the archives published with the program, byte by byte.
  */
module Format {
  import opened Words
  import opened Crc32c
  import opened BytePack
  import opened Stream
  import opened Record
  import opened Machine
  import opened Writer
  import opened WriterLaws
  import opened Reader
  import opened RoundTrip
  import opened Phases
  import opened Switching

  // ---- the archive header ----

  /** The header CRC of the published archive header. */
  lemma HeaderCheckValue()
    ensures Fixed(ARCHIVE_HEADER).headCRC == 0xB7E9 && Fixed(ARCHIVE_HEADER).headSize == 8
  {
    hide Crc, Le, Low16;
    PlainHeader();
    var f := ARCHIVE_HEADER.(headSize := 8);
    SizeBytes();
    assert Fields(f) + f.data == [0x41, 0, 8, 0, 1, 0];
    HeaderChecksum();
    LowOfChecksum();
  }

  lemma PlainHeader()
    ensures HeaderLen(0) == 6 && SizeLen(0) == 0 && CrcLen(0) == 0
  {}

  lemma SizeBytes()
    ensures Le(2, 8) == [8, 0] && Le(2, 0xB7E9) == [0xE9, 0xB7] && forall v: nat :: Le(0, v) == []
  {
    hide Le, ToByte;
    SmallBytes();
    NoBytesLe();
    Le2(8);
    Le2(0xB7E9);
  }

  lemma LowOfChecksum()
    ensures Low16(0x53F8_B7E9) == 0xB7E9
  {}

  lemma HeaderChecksum()
    ensures Crc(0, [0x41, 0, 8, 0, 1, 0]) == 0x53F8_B7E9
  {
    hide Raw, ByteStep;
    var m: seq<byte> := [0x41, 0, 8, 0, 1, 0];
    HeaderSteps();
    assert m == m[..5] + [0] && m[..5] == m[..4] + [1] && m[..4] == m[..3] + [0] && m[..3] == m[..2] + [8];
    assert m[..2] == m[..1] + [0] && m[..1] == [0x41];
    RawOne(0xffff_ffff, 0x41);
    RawSnoc(0xffff_ffff, m[..1], 0);
    RawSnoc(0xffff_ffff, m[..2], 8);
    RawSnoc(0xffff_ffff, m[..3], 0);
    RawSnoc(0xffff_ffff, m[..4], 1);
    RawSnoc(0xffff_ffff, m[..5], 0);
  }

  lemma HeaderSteps()
    ensures ByteStep(0xffff_ffff, 0x41) == 0x1e92_3211 && ByteStep(0x1e92_3211, 0) == 0xe22b_d65e
    ensures ByteStep(0xe22b_d65e, 8) == 0x7766_16ed && ByteStep(0x7766_16ed, 0) == 0x5c6f_82df
    ensures ByteStep(0x5c6f_82df, 1) == 0x7ff7_310e && ByteStep(0x7ff7_310e, 0) == 0xac07_4816
    ensures Not(0) == 0xffff_ffff && Not(0xac07_4816) == 0x53f8_b7e9
  {
    hide ByteStep;
    Steps1();
    Steps2();
    Steps3();
  }

  lemma Steps1()
    ensures ByteStep(0xffff_ffff, 0x41) == 0x1e92_3211
    ensures ByteStep(0x1e92_3211, 0) == 0xe22b_d65e
  {
    assert ByteStep(0xffff_ffff, 0x41) == 0x1e92_3211;
    assert ByteStep(0x1e92_3211, 0) == 0xe22b_d65e;
  }

  lemma Steps2()
    ensures ByteStep(0xe22b_d65e, 8) == 0x7766_16ed
    ensures ByteStep(0x7766_16ed, 0) == 0x5c6f_82df
  {
    assert ByteStep(0xe22b_d65e, 8) == 0x7766_16ed;
    assert ByteStep(0x7766_16ed, 0) == 0x5c6f_82df;
  }

  lemma Steps3()
    ensures ByteStep(0x5c6f_82df, 1) == 0x7ff7_310e
    ensures ByteStep(0x7ff7_310e, 0) == 0xac07_4816
  {
    assert ByteStep(0x5c6f_82df, 1) == 0x7ff7_310e;
    assert ByteStep(0x7ff7_310e, 0) == 0xac07_4816;
  }

  lemma ArchiveHeaderBytes()
    ensures ToBytes(Fixed(ARCHIVE_HEADER)) == [0xE9, 0xB7, 0x41, 0, 8, 0, 1, 0]
  {
    hide Le, HeaderCrc;
    HeaderCheckValue();
    PlainHeader();
    SizeBytes();
    FixedKeeps(ARCHIVE_HEADER);
    assert Fields(Fixed(ARCHIVE_HEADER)) == [0x41, 0, 8, 0];
  }

  /** The marker and the archive header as published. */
  const MARKER_AND_HEADER: seq<byte> := [0x4B, 0x43, 0x21, 0x1A, 0x06, 0, 0xE9, 0xB7, 0x41, 0, 8, 0, 1, 0]

  /** A new archive is those fourteen bytes. */
  lemma NewArchive()
    ensures var (t, err) := InitArchive(Fresh([]));
            err.Ok? && t.ps.WriteRecord? && t.io == IoState(MARKER_AND_HEADER, 14)
  {
    hide InitArchive;
    FreshRests([]);
    InitWrites(Fresh([]));
  }

  /** Initialising writes the marker where none has been passed, finishes an open record, and writes the eight
      bytes of the archive header; inside a record it is refused. */
  lemma InitWrites(s: State)
    requires Resting(s.ps)
    ensures var (t, err) := InitArchive(s);
            && (err.Ok? <==> !s.ps.ReadRecordData? && !s.ps.ReadAddedData?) && (!err.Ok? ==> t == s)
            && (err.Ok? ==> t.ps.WriteRecord?)
            && (s.ps.Neutral? || s.ps.ReadMarker? ==> t.io == AfterWrite(s.io, MARKER_AND_HEADER))
            && (s.ps.ReadRecordHeader? || s.ps.WriteRecord? ==> t.io == AfterWrite(s.io, MARKER_AND_HEADER[6..]))
            && (s.ps.WriteAddedData? ==> t.io == AfterWrite(Finish(s).0.io, MARKER_AND_HEADER[6..]))
  {
    hide ToBytes, Fixed, HasAddedSize, StartWriting, PutRecord, Overwrite, AfterWrite;
    SwitchToWriting(s, ARCHIVE_HEADER);
    StartEnds(s);
    if StartWriting(s).1.Ok? {
      HeaderWritten(StartWriting(s).0);
    }
    TwoWrites(s.io, [0x4B, 0x43, 0x21, 0x1A, 0x06, 0], MARKER_AND_HEADER[6..]);
    assert [0x4B, 0x43, 0x21, 0x1A, 0x06, 0] + MARKER_AND_HEADER[6..] == MARKER_AND_HEADER;
  }

  lemma HeaderWritten(s: State)
    requires s.ps.WriteRecord? || s.ps.WriteAddedData?
    ensures var t := PutRecord(s, ARCHIVE_HEADER).0;
            && t.ps.WriteRecord?
            && t.io == AfterWrite(if s.ps.WriteAddedData? then Finish(s).0.io else s.io, MARKER_AND_HEADER[6..])
  {
    hide ToBytes, Fixed, HasAddedSize, AfterWrite, Finish;
    ArchiveHeaderBytes();
    NoAddedSizeInHeader();
    FixedKeeps(ARCHIVE_HEADER);
    FinishedState(s);
    assert MARKER_AND_HEADER[6..] == [0xE9, 0xB7, 0x41, 0, 8, 0, 1, 0];
  }

  lemma TwoWrites(io: IoState, b: seq<byte>, c: seq<byte>)
    ensures AfterWrite(AfterWrite(io, b), c) == AfterWrite(io, b + c)
  {
    hide Overwrite;
    OverwriteAppend(io.data, io.pos, b, c);
  }

  // ---- a published archive ----

  const DIGITS: seq<byte> := [0x30, 0x31, 0x32, 0x33, 0x34, 0x35, 0x36, 0x37, 0x38, 0x39]

  /** The archive header, three records with data alone, and one with added data. */
  const BYTES_41: seq<byte> := [0xE9, 0xB7, 0x41, 0, 8, 0, 1, 0]
  const BYTES_30: seq<byte> := [0, 0, 0x30, 0, 0x10, 0] + DIGITS
  const BYTES_31: seq<byte> := [0, 0, 0x31, 0, 0x10, 0] + DIGITS
  const BYTES_32: seq<byte> := [0, 0, 0x32, 0x80, 0x14, 0, 0x0A, 0, 0, 0] + DIGITS + DIGITS
  const BYTES_33: seq<byte> := [0, 0, 0x33, 0, 0x10, 0] + DIGITS

  const PUBLISHED: seq<byte> :=
    [0x4B, 0x43, 0x21, 0x1A, 0x06, 0] + (BYTES_41 + BYTES_30 + BYTES_31 + BYTES_32 + BYTES_33)

  /** What is in it. */
  const CONTENTS: seq<Item> := [
    Item(Rec(0xB7E9, 0x41, 0, 8, 0, 0, [1, 0]), []),
    Item(Rec(0, 0x30, 0, 0x10, 0, 0, DIGITS), []),
    Item(Rec(0, 0x31, 0, 0x10, 0, 0, DIGITS), []),
    Item(Rec(0, 0x32, 0x80, 0x14, 10, 0, DIGITS), DIGITS),
    Item(Rec(0, 0x33, 0, 0x10, 0, 0, DIGITS), [])
  ]

  predicate Gives(got: Got, i: Item) {
    got.err.Ok? && got.rec == i.rec && got.added == i.added
  }

  /** Reading it finds these records and this added data. */
  lemma PublishedArchive(plans: seq<Plan>)
    requires AdequateAll(plans, CONTENTS)
    ensures forall p :: p in plans ==> |p.heap| == 0x1_0000
    ensures var (t, err) := FindMarker(StartReading(Fresh(PUBLISHED)).0);
            var got := ReadBack(t, plans).1;
            err.Ok? && |got| == 5 && forall k :: 0 <= k < 5 ==> Gives(got[k], CONTENTS[k])
  {
    hide ReadBack, Expected, ItemsBytes, FirstMarker, StartsWith, AdequateAll, Measured, Canon;
    ContentsBytes();
    ContentsMeasured();
    assert ItemsBytes(CONTENTS) + [] == ItemsBytes(CONTENTS);
    WholeStream(PUBLISHED);
    MarkerFirst(PUBLISHED, ItemsBytes(CONTENTS) + []);
    ItemsRoundTrip(FindMarker(StartReading(Fresh(PUBLISHED)).0).0, CONTENTS, plans, []);
    AdequateSameLength(plans, CONTENTS);
    forall k | 0 <= k < 5
      ensures Gives(ExpectedAll(CONTENTS)[k], CONTENTS[k])
    {
      ExpectedIs(CONTENTS[k]);
    }
  }

  lemma AdequateSameLength(plans: seq<Plan>, items: seq<Item>)
    requires AdequateAll(plans, items)
    ensures |plans| == |items|
  {}

  lemma ExpectedIs(i: Item)
    ensures Expected(i).err.Ok? && Expected(i).rec == Canon(i.rec) && Expected(i).added == i.added
  {
    hide Crc;
  }

  lemma ContentsMeasured()
    ensures forall i :: i in CONTENTS ==> Measured(i) && Canon(i.rec) == i.rec
  {}

  lemma ContentsBytes()
    ensures MARKER + ItemsBytes(CONTENTS) == PUBLISHED
  {
    hide ItemBytes, ItemsBytes;
    var h, a, b, c, d := CONTENTS[0], CONTENTS[1], CONTENTS[2], CONTENTS[3], CONTENTS[4];
    FiveItems(h, a, b, c, d);
    assert CONTENTS == [h, a, b, c, d];
    HeaderItem();
    PlainItem(0x30);
    PlainItem(0x31);
    PlainItem(0x33);
    AddedItem();
  }

  lemma FiveItems(h: Item, a: Item, b: Item, c: Item, d: Item)
    ensures ItemsBytes([h, a, b, c, d]) == ItemBytes(h) + ItemBytes(a) + ItemBytes(b) + ItemBytes(c) + ItemBytes(d)
  {
    hide ItemBytes, ItemsBytes;
    NoItems();
    ItemsSnoc([], h);
    ItemsSnoc([h], a);
    ItemsSnoc([h, a], b);
    ItemsSnoc([h, a, b], c);
    ItemsSnoc([h, a, b, c], d);
    assert [] + [h] == [h] && [h] + [a] == [h, a] && [h, a] + [b] == [h, a, b];
    assert [h, a, b] + [c] == [h, a, b, c] && [h, a, b, c] + [d] == [h, a, b, c, d];
    assert [] + ItemBytes(h) == ItemBytes(h);
  }

  lemma NoItems()
    ensures ItemsBytes([]) == []
  {}

  lemma HeaderItem()
    ensures ItemBytes(CONTENTS[0]) == [0xE9, 0xB7, 0x41, 0, 8, 0, 1, 0]
  {
    hide ToBytes, Fixed;
    ArchiveHeaderBytes();
    HeaderCheckValue();
    FixedKeeps(ARCHIVE_HEADER);
    assert ToBytes(Fixed(ARCHIVE_HEADER)) + [] == ToBytes(Fixed(ARCHIVE_HEADER));
  }

  lemma PlainItem(t: byte)
    ensures ItemBytes(Item(Rec(0, t, 0, 0x10, 0, 0, DIGITS), [])) == [0, 0, t, 0, 0x10, 0] + DIGITS
  {
    hide Le;
    PlainHeader();
    SmallSizes();
  }

  lemma AddedItem()
    ensures ItemBytes(CONTENTS[3]) == [0, 0, 0x32, 0x80, 0x14, 0, 0x0A, 0, 0, 0] + DIGITS + DIGITS
  {
    hide Le, SizeLen, CrcLen;
    FragmentHeader();
    SmallSizes();
  }

  lemma FragmentHeader()
    ensures HeaderLen(0x80) == 10 && SizeLen(0x80) == 4 && CrcLen(0x80) == 0
  {}

  lemma SmallSizes()
    ensures Le(2, 0) == [0, 0] && Le(2, 0x10) == [0x10, 0] && Le(2, 0x14) == [0x14, 0]
    ensures Le(4, 10) == [0x0A, 0, 0, 0] && forall v: nat :: Le(0, v) == []
  {
    hide Le, ToByte;
    SmallBytes();
    NoBytesLe();
    Le2(0);
    Le2(0x10);
    Le2(0x14);
    Le2(10);
    Le4(10);
  }

  lemma SmallBytes()
    ensures ToByte(0) == 0 && ToByte(8) == 8 && ToByte(10) == 10 && ToByte(0x10) == 0x10 && ToByte(0x14) == 0x14
    ensures ToByte(0xB7) == 0xB7 && ToByte(0xE9) == 0xE9
  {}

  lemma NoBytesLe()
    ensures forall v: nat :: Le(0, v) == []
  {}

  /** A file without a marker is refused after being read to its end. */
  lemma NoMarker()
    ensures var data := [0x41, 0x42, 0x43, 0x44, 0x45, 0x46, 0x47, 0x48, 0x49, 0x0A];
            var (t, err) := FindMarker(StartReading(Fresh(data)).0);
            err.InvalidFormat? && t.io.pos == 10
  {
    var data: seq<byte> := [0x41, 0x42, 0x43, 0x44, 0x45, 0x46, 0x47, 0x48, 0x49, 0x0A];
    FindMarkerExact(StartReading(Fresh(data)).0);
    forall k: nat
      ensures !MarkerAt(data, k)
    {
      if k + 6 <= 10 {
        assert data[k..k + 6][0] == data[k] != 0x4B;
      }
    }
  }
}
