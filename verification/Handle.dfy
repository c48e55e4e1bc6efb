/**
  The archive handle as the program has it: fields updated in place, one method per operation, each
  taking the step of `Machine` that carries its name.
  */
module Handle {
  import opened Words
  import opened Crc32c
  import opened BytePack
  import opened Stream
  import opened Record
  import opened Machine

  /** Reading on after a read sees the following bytes, zeros where the stream ran out. */
  lemma PaddedAppend(io: IoState, m: nat, n: nat)
    ensures Padded(io, m + n) == Padded(io, m) + Padded(AfterRead(io, m), n)
    ensures AfterRead(io, m + n) == AfterRead(AfterRead(io, m), n)
  {
    hide Ahead, Zeros;
    var a, b := Ahead(io, m), Ahead(AfterRead(io, m), n);
    AheadAppend(io, m, n);
    ZerosSplit(m - |a|, m + n - |a|);
    ZerosSplit(0, n);
    if |a| == m {
      assert a + Zeros(0) == a;
    }
  }

  lemma AheadAppend(io: IoState, m: nat, n: nat)
    ensures var a, b := Ahead(io, m), Ahead(AfterRead(io, m), n);
            Ahead(io, m + n) == a + b && (|a| < m ==> b == [])
  {}

  lemma PaddedPrefix(io: IoState, m: nat, n: nat)
    requires m <= n
    ensures Padded(io, n)[..m] == Padded(io, m)
  {
    hide Padded;
    PaddedAppend(io, m, n - m);
  }

  lemma PaddedNone(io: IoState)
    ensures Padded(io, 0) == [] && AfterRead(io, 0) == io
  {}

  lemma ZerosSplit(m: nat, n: nat)
    requires m <= n
    ensures Zeros(n) == Zeros(m) + Zeros(n - m)
  {}

  lemma ZerosAre(b: seq<byte>)
    requires forall i :: 0 <= i < |b| ==> b[i] == 0
    ensures b == Zeros(|b|)
  {}

  lemma NoBytes(b: seq<byte>)
    requires b == []
    ensures U64(b) == 0
  {}

  /** The header, field by field, as successive reads see it. */
  lemma HeaderParts(io: IoState)
    ensures var b := HeaderAhead(io);
            var six := Padded(io, 6);
            var n := 6 + SizeLen(six[3]);
            && six[3] == b[3]
            && ParseHeader(b) == Rec(U16(six[..2]), six[2], six[3], U16(six[4..6]), U64(Padded(io, n)[6..]),
                                     CrcOf(Padded(io, n + CrcLen(six[3]))[n..]), [])
            && |b| == n + CrcLen(six[3])
  {
    hide Padded, U16, U64, CrcOf, SizeLen, CrcLen;
    var b := HeaderAhead(io);
    var n := 6 + SizeLen(b[3]);
    PaddedPrefix(io, 6, |b|);
    PaddedPrefix(io, n, |b|);
    assert b[..6][..2] == b[..2] && b[..6][4..6] == b[4..6] && b[..n][6..] == b[6..n];
    assert b[n..HeaderLen(b[3])] == b[n..];
  }

  /** Reading a header touches the parser state, the CRC and the stream only. */
  lemma HeaderKeeps(s: State)
    ensures var (h, r) := ReadHeader(s);
            r.data == [] && h == s.(ps := ReadRecordData, crc := r.addedDataCRC32, io := h.io)
  {}

  lemma DataOutcome(h: State, r: Rec, heap: seq<byte>)
    requires |heap| == 0x1_0000
    ensures var e := GetData(h, r, heap).1;
            e.Ok? || e.OutOfMemory?
  {}

  class Kcf {
    var parserState: PState
    var total: u64
    var done: u64
    var addedDataCRC32: bv32
    var actualAddedDataCRC32: bv32
    var recordOffset: nat
    var recordEndOffset: nat
    var hasAddedDataCRC32: bool
    var hasAddedSize: bool
    const stream: Io
    const lastRecord: KcfRecord

    ghost function Snapshot(): State
      reads this, stream, lastRecord
    {
      State(parserState, total, done, addedDataCRC32, actualAddedDataCRC32, recordOffset, recordEndOffset,
            hasAddedDataCRC32, hasAddedSize, lastRecord.V(), stream.State())
    }

    /** The record kept for patching can be serialised. */
    ghost predicate Valid()
      reads this, lastRecord
    {
      parserState.WriteAddedData? ==> Legal(lastRecord.V())
    }

    constructor (stream: Io)
      ensures Snapshot() == Fresh(stream.data).(io := stream.State()) && Valid() && this.stream == stream
              && fresh(lastRecord)
    {
      parserState, total, done, addedDataCRC32, actualAddedDataCRC32 := Neutral, 0, 0, 0, 0;
      recordOffset, recordEndOffset, hasAddedDataCRC32, hasAddedSize := 0, 0, false, false;
      this.stream := stream;
      lastRecord := new KcfRecord(EMPTY_REC);
    }

    // ---- the marker ----

    method FindMarker() returns (err: KcfError)
      requires Valid()
      modifies this, stream
      ensures Valid() && (Snapshot(), err) == Machine.FindMarker(old(Snapshot()))
    {
      hide FirstMarker;
      if !parserState.ReadMarker? {
        return InvalidState;
      }
      var found := ScanForMarker();
      if !found {
        return InvalidFormat;
      }
      parserState := PState.ReadRecordHeader;
      return Ok;
    }

    /** Slides the window over the stream until it shows the marker or the stream ends. */
    method ScanForMarker() returns (found: bool)
      modifies stream
      ensures match FirstMarker(stream.data, old(stream.pos))
              case Some(p) => found && stream.State() == old(stream.State()).(pos := p + 6)
              case None => !found && stream.data == old(stream.data)
                           && stream.pos == if old(stream.pos) < |stream.data| then |stream.data| else old(stream.pos)
    {
      hide Window, Scanned, FirstMarker, MarkerAt;
      var buf := new byte[6](_ => 0);
      ghost var start := stream.pos;
      ghost var data := stream.data;
      WindowAtStart(data, start);
      assert buf[..] == Zeros(6);
      found := false;
      while true
        modifies stream`pos, buf
        invariant stream.data == data && start <= stream.pos && (stream.pos <= |data| || stream.pos == start)
        invariant buf[..] == Window(data, start, stream.pos)
        invariant FirstMarker(data, start) == FirstMarker(data, Scanned(start, stream.pos))
        decreases if stream.pos < |data| then |data| - stream.pos else 0
      {
        MarkerInWindow(data, start, stream.pos);
        if IsMarker(buf) {
          FoundIsFirst(data, start, stream.pos);
          found := true;
          break;
        }
        ScanNext(data, start, stream.pos);
        if stream.pos < |data| {
          WindowNext(data, start, stream.pos);
        }
        var n := Slide(buf);
        if n == 0 {
          break;
        }
      }
    }

    /** Shifts the window by one byte and reads the next, if there is one, into its last place. */
    method Slide(buf: array<byte>) returns (n: nat)
      requires buf.Length == 6
      modifies stream`pos, buf
      ensures stream.data == old(stream.data)
      ensures n == 0 <==> old(stream.pos) >= |stream.data|
      ensures n > 0 ==> stream.pos == old(stream.pos) + 1 && buf[..] == old(buf[1..]) + [stream.data[stream.pos - 1]]
      ensures n == 0 ==> stream.pos == old(stream.pos)
    {
      ghost var was := stream.State();
      buf[0] := buf[1];
      buf[1] := buf[2];
      buf[2] := buf[3];
      buf[3] := buf[4];
      buf[4] := buf[5];
      assert buf[..5] == old(buf[1..]);
      n := stream.Read(buf, 5, 1);
      assert stream.State() == AfterRead(was, 1);
      if n > 0 {
        assert Ahead(was, 1) == [stream.data[stream.pos - 1]];
      }
    }

    method WriteMarker() returns (err: KcfError)
      requires Valid()
      modifies this, stream
      ensures Valid() && (Snapshot(), err) == Machine.PutMarker(old(Snapshot()))
    {
      if !parserState.WriteMarker? {
        return InvalidState;
      }
      stream.Write([0x4B, 0x43, 0x21, 0x1A, 0x06, 0x00]);
      parserState := PState.WriteRecord;
      return Ok;
    }

    // ---- writing ----

    /** Serialises a record and writes it. */
    method WriteBytes(record: KcfRecord)
      requires Legal(record.V()) && record.headSize == HeaderLen(record.headFlags) + |record.data|
      modifies stream
      ensures stream.State() == AfterWrite(old(stream.State()), ToBytes(record.V()))
    {
      hide HeaderLen, ToBytes, Overwrite, Image;
      var buffer := new byte[record.headSize];
      WholeImage(record.V(), record.headSize);
      var ok := record.ToBuffer(buffer, record.headSize);
      assert buffer[..] == ToBytes(record.V());
      stream.Write(buffer[..]);
    }

    /** Goes back to the record's header, rewrites it with the counted size and CRC, and returns. */
    method Backpatch()
      requires Legal(lastRecord.V())
      modifies this`recordEndOffset, stream, lastRecord
      ensures stream.State() == AfterPatch(old(Snapshot()))
    {
      hide Fixed, ToBytes, Overwrite, HeaderLen;
      recordEndOffset := stream.Tell();
      stream.Seek(recordOffset);
      lastRecord.addedSize := done;
      lastRecord.addedDataCRC32 := addedDataCRC32;
      FixedSizes(lastRecord.V());
      lastRecord.Fix();
      WriteBytes(lastRecord);
      stream.Seek(recordEndOffset);
    }

    method FinishAddedData() returns (err: KcfError)
      requires Valid()
      modifies this, stream, lastRecord
      ensures Valid() && (Snapshot(), err) == Machine.Finish(old(Snapshot()))
    {
      hide AfterPatch, HeaderLen, Legal;
      if !IsWriting(parserState) {
        return InvalidState;
      }
      if !parserState.WriteAddedData? {
        return InvalidState;
      }
      if !(total > 0 && !hasAddedDataCRC32) {
        Backpatch();
      }
      Cleanup();
      return Ok;
    }

    /** Forgets the record that was open. */
    method Cleanup()
      modifies this, lastRecord
      ensures Snapshot() == Cleared(old(Snapshot()), stream.State())
    {
      lastRecord.Clear();
      recordOffset, recordEndOffset, done, total, addedDataCRC32 := 0, 0, 0, 0, 0;
      hasAddedDataCRC32, hasAddedSize := false, false;
      parserState := PState.WriteRecord;
    }

    /** The checks with which both record writers begin. */
    method BeginRecord() returns (err: KcfError)
      requires Valid()
      modifies this, stream, lastRecord
      ensures Valid() && (Snapshot(), err) == Machine.BeginRecord(old(Snapshot()))
    {
      hide Finish;
      if !IsWriting(parserState) {
        return InvalidState;
      }
      if parserState.Writing? {
        parserState := PState.WriteRecord;
      }
      if parserState.WriteMarker? {
        return InvalidState;
      }
      if parserState.WriteAddedData? {
        FinishSucceeds(Snapshot());
        var ignored := FinishAddedData();
      }
      return Ok;
    }

    method WriteRecord(record: KcfRecord) returns (err: KcfError)
      requires Valid() && Legal(record.V()) && record != lastRecord
      modifies this, stream, lastRecord, record
      ensures Valid() && (Snapshot(), err) == Machine.PutRecord(old(Snapshot()), old(record.V()))
      ensures record.V() == if err.Ok? then Fixed(old(record.V())) else old(record.V())
    {
      hide Fixed, HeaderLen, Machine.BeginRecord, Emit;
      err := BeginRecord();
      if !err.Ok? {
        return err;
      }
      FixedSizes(record.V());
      record.Fix();
      EmitRecord(record);
      return Ok;
    }

    /** Writes a fixed record and saves what is needed for patching it. */
    method EmitRecord(record: KcfRecord)
      requires Valid() && record != lastRecord
      requires Legal(record.V()) && record.headSize == HeaderLen(record.headFlags) + |record.data|
      modifies this, stream, lastRecord
      ensures Valid() && Snapshot() == Emit(old(Snapshot()), old(record.V()))
      ensures record.V() == old(record.V())
    {
      hide ToBytes, AfterWrite, HeaderLen, HasAddedSize, HasAddedDataCrc;
      recordOffset := stream.Tell();
      WriteBytes(record);
      hasAddedSize := HasAddedSize(record.headFlags);
      hasAddedDataCRC32 := HasAddedDataCrc(record.headFlags);
      if hasAddedSize {
        KeepForPatching(record);
      }
    }

    method KeepForPatching(record: KcfRecord)
      requires record != lastRecord
      modifies this`total, this`parserState, lastRecord
      ensures Snapshot()
           == old(Snapshot().(last := record.V(), total := record.addedSize, ps := PState.WriteAddedData))
      ensures lastRecord.V() == old(record.V())
    {
      lastRecord.Copy(record);
      total := lastRecord.addedSize;
      parserState := PState.WriteAddedData;
    }

    /** Sets size, CRC and flags of a record whose added data is at hand. */
    method SetAdded(record: KcfRecord, added: seq<byte>)
      requires |added| < TWO_64
      modifies record
      ensures record.V() == WithAdded(old(record.V()), added)
    {
      hide Fixed, Crc, HasAddedDataCrc, SetAddedSize8, SetAddedSize4, ClearAdded;
      if |added| > 0 {
        if HasAddedDataCrc(record.headFlags) {
          record.addedDataCRC32 := Crc(0, added);
        }
        if |added| > 2147483647 {
          record.headFlags := SetAddedSize8(record.headFlags);
        } else {
          record.headFlags := SetAddedSize4(record.headFlags);
        }
        record.addedSize := |added|;
      } else {
        record.headFlags := ClearAdded(record.headFlags);
        record.addedSize := 0;
        record.addedDataCRC32 := 0;
      }
      record.Fix();
    }

    method WriteRecordWithAddedData(record: KcfRecord, added: seq<byte>) returns (err: KcfError)
      requires Valid() && record != lastRecord && |added| < TWO_64
      requires Legal(BeforeFix(record.V(), added))
      modifies this, stream, lastRecord, record
      ensures Valid() && (Snapshot(), err) == Machine.PutRecordWith(old(Snapshot()), old(record.V()), added)
      ensures record.V() == if err.Ok? then WithAdded(old(record.V()), added) else old(record.V())
    {
      hide WithAdded, ToBytes, Overwrite, HeaderLen, Machine.BeginRecord;
      err := BeginRecord();
      if !err.Ok? {
        return err;
      }
      WithAddedFits(record.V(), added);
      SetAdded(record, added);
      WriteBytes(record);
      stream.Write(added);
      return Ok;
    }

    method WriteAddedData(chunk: seq<byte>) returns (err: KcfError)
      requires Valid() && |chunk| < TWO_64
      modifies this, stream
      ensures Valid() && (Snapshot(), err) == Machine.PutAdded(old(Snapshot()), chunk)
    {
      hide Overwrite, Crc;
      if !IsWriting(parserState) {
        return InvalidState;
      }
      if !parserState.WriteAddedData? {
        return InvalidState;
      }
      var size := |chunk|;
      if total > 0 {
        var remaining := WrapSub(total, done);
        if size > remaining {
          size := remaining;
        }
        if remaining == 0 {
          return Ok;
        }
      }
      stream.Write(chunk[..size]);
      done := Wrap(done + size);
      if hasAddedDataCRC32 {
        addedDataCRC32 := Crc(addedDataCRC32, chunk[..size]);
      }
      return Ok;
    }

    // ---- reading ----

    /** Extends what the zero-filled header buffer holds by the next `n` bytes of the stream. */
    method ReadMore(buffer: array<byte>, k: nat, n: nat, ghost start: IoState)
      requires buffer.Length == 18 && k + n <= 18
      requires buffer[..] == Padded(start, k) + Zeros(18 - k) && stream.State() == AfterRead(start, k)
      modifies stream`pos, buffer
      ensures buffer[..] == Padded(start, k + n) + Zeros(18 - (k + n)) && stream.State() == AfterRead(start, k + n)
    {
      hide Ahead;
      PaddedAppend(start, k, n);
      ZerosSplit(n, 18 - k);
      ghost var got := Ahead(stream.State(), n);
      ZerosSplit(|got|, 18 - k);
      ZerosSplit(n - |got|, 18 - k - |got|);
      var count := stream.Read(buffer, k, n);
      assert buffer[..] == Padded(start, k) + got + Zeros(18 - k - |got|);
    }

    method ZeroBuffer() returns (buffer: array<byte>)
      ensures fresh(buffer) && buffer.Length == 18 && buffer[..] == Zeros(18)
    {
      buffer := new byte[18](_ => 0);
      ZerosAre(buffer[..]);
    }

    /** A zero-filled buffer for the largest header, with the first six bytes read into it. */
    method ReadFirstSix(ghost start: IoState) returns (buffer: array<byte>)
      requires stream.State() == start
      modifies stream`pos
      ensures fresh(buffer) && buffer.Length == 18
      ensures buffer[..] == Padded(start, 6) + Zeros(12) && stream.State() == AfterRead(start, 6)
    {
      hide Padded, Ahead, AfterRead, Zeros;
      buffer := ZeroBuffer();
      PaddedNone(start);
      assert [] + Zeros(18) == Zeros(18);
      ReadMore(buffer, 0, 6, start);
    }

    /** Decodes the first six bytes. */
    method ReadFixedFields(record: KcfRecord, buffer: array<byte>, ghost start: IoState) returns (offset: nat)
      requires buffer.Length == 18 && buffer[..] == Padded(start, 6) + Zeros(12)
      modifies record`headCRC, record`headType, record`headFlags, record`headSize
      ensures offset == 6
      ensures var b := Padded(start, 6);
              record.headCRC == U16(b[..2]) && record.headType == b[2] && record.headFlags == b[3]
              && record.headSize == U16(b[4..6])
    {
      hide Padded, LeValue, Zeros;
      var ok;
      ok, offset, record.headCRC := ReadU16(buffer[..], 6, 0);
      record.headType := buffer[offset];
      offset := offset + 1;
      record.headFlags := buffer[offset];
      offset := offset + 1;
      ok, offset, record.headSize := ReadU16(buffer[..], 6, offset);
      assert buffer[..][0..2] == Padded(start, 6)[..2] && buffer[..][4..6] == Padded(start, 6)[4..6];
    }

    /** The optional CRC field. */
    method ReadCrcField(record: KcfRecord, buffer: array<byte>, ghost start: IoState, at: nat) returns (offset: nat)
      requires buffer.Length == 18 && at + CrcLen(record.headFlags) <= 18
      requires buffer[..] == Padded(start, at) + Zeros(18 - at) && stream.State() == AfterRead(start, at)
      modifies this`addedDataCRC32, record`addedDataCRC32, stream`pos, buffer
      ensures offset == at + CrcLen(record.headFlags) && stream.State() == AfterRead(start, offset)
      ensures record.addedDataCRC32 == addedDataCRC32 == CrcOf(Padded(start, offset)[at..])
    {
      hide Padded, Ahead, AfterRead, LeValue, Zeros, HasAddedDataCrc;
      offset := at;
      if HasAddedDataCrc(record.headFlags) {
        ReadMore(buffer, at, 4, start);
        var ok, crc;
        ok, offset, crc := ReadU32(buffer[..], 18, at);
        assert buffer[..][at..at + 4] == Padded(start, offset)[at..];
        record.addedDataCRC32 := Word(crc);
        addedDataCRC32 := record.addedDataCRC32;
      } else {
        addedDataCRC32 := 0;
        record.addedDataCRC32 := 0;
      }
    }

    /** Reads and decodes a header; the record's data is not touched. */
    method ReadRecordHeader(record: KcfRecord) returns (headerSize: nat)
      modifies this`parserState, this`addedDataCRC32, stream`pos, record
      ensures var (s, r) := Machine.ReadHeader(old(Snapshot()));
              && stream.State() == s.io && parserState == s.ps && addedDataCRC32 == s.crc
              && record.V() == r.(data := old(record.data)) && headerSize == HeaderLen(r.headFlags)
    {
      hide Padded, Ahead, AfterRead, Zeros, U16, U64, CrcOf, SizeLen, CrcLen;
      ghost var start := stream.State();
      var buffer := ReadFirstSix(start);
      var offset := ReadFixedFields(record, buffer, start);
      record.addedSize := 0;
      offset := ReadSizeField(record, buffer, start);
      offset := ReadCrcField(record, buffer, start, offset);
      HeaderParts(start);
      parserState := PState.ReadRecordData;
      return offset;
    }

    /** The optional added-size field, which the low half of the record's number takes when short. */
    method ReadSizeField(record: KcfRecord, buffer: array<byte>, ghost start: IoState) returns (offset: nat)
      requires buffer.Length == 18 && record.addedSize == 0
      requires buffer[..] == Padded(start, 6) + Zeros(12) && stream.State() == AfterRead(start, 6)
      modifies record`addedSize, stream`pos, buffer
      ensures offset == 6 + SizeLen(record.headFlags)
      ensures buffer[..] == Padded(start, offset) + Zeros(18 - offset) && stream.State() == AfterRead(start, offset)
      ensures record.addedSize == U64(Padded(start, offset)[6..])
    {
      hide Padded, Ahead, AfterRead, LeValue, Zeros, HasAddedSize, HasAddedSize8, HasAddedSize4;
      SizeFlags(record.headFlags);
      offset := 6;
      if HasAddedSize(record.headFlags) {
        ReadMore(buffer, 6, 4, start);
      }
      var ok;
      if HasAddedSize8(record.headFlags) {
        ReadMore(buffer, 10, 4, start);
        ok, offset, record.addedSize := ReadU64(buffer[..], 14, 6);
        assert buffer[..][6..14] == Padded(start, 14)[6..];
      } else if HasAddedSize4(record.headFlags) {
        ok, offset, record.addedSize := ReadU32(buffer[..], 14, 6);
        assert buffer[..][6..10] == Padded(start, 10)[6..];
      } else {
        NoBytes(Padded(start, 6)[6..]);
      }
    }

    /** Reads the record's data into newly allocated memory. */
    method ReadData(record: KcfRecord, size: nat, heap: seq<byte>)
      requires size <= |heap|
      modifies stream`pos, record`data
      ensures var got := Ahead(old(stream.State()), size);
              record.data == got + heap[|got|..size] && stream.State() == AfterRead(old(stream.State()), size)
    {
      hide Ahead;
      var data := new byte[size](i requires 0 <= i < size => heap[i]);
      assert data[..] == heap[..size];
      var count := stream.Read(data, 0, size);
      record.data := data[..];
    }

    /** The part of reading a record after its header. */
    method ReadRecordData(record: KcfRecord, headerSize: nat, heap: seq<byte>) returns (err: KcfError)
      requires Valid() && record != lastRecord && |heap| == 0x1_0000 && headerSize == HeaderLen(record.headFlags)
      requires parserState.ReadRecordData?
      modifies this`parserState, this`total, stream`pos, record`data
      ensures var (s, e, r) := Machine.GetData(old(Snapshot()), old(record.V().(data := [])), heap);
              && Valid() && Snapshot() == s && err == e
              && (if e.Ok? then record.V() == r else record.V().(data := []) == r)
    {
      hide Ahead, AfterRead, HeaderLen, HasAddedSize;
      if record.headSize < headerSize {
        return OutOfMemory;
      }
      ReadData(record, record.headSize - headerSize, heap);
      if HasAddedSize(record.headFlags) {
        parserState := PState.ReadAddedData;
      } else {
        parserState := PState.ReadRecordHeader;
      }
      total := record.addedSize;
      return Ok;
    }

    method ReadRecord(record: KcfRecord, heap: seq<byte>) returns (err: KcfError)
      requires Valid() && record != lastRecord && |heap| == 0x1_0000
      modifies this, stream`pos, record
      ensures var (s, e, r) := Machine.GetRecord(old(Snapshot()), heap);
              && Valid() && Snapshot() == s && err == e
              && (e.Ok? ==> record.V() == r)
              && (e.OutOfMemory? ==> record.V().(data := []) == r)
              && (e.InvalidState? ==> record.V() == old(record.V()))
    {
      hide ReadHeader, GetData, HeaderLen;
      if !IsReading(parserState) {
        return InvalidState;
      }
      if !parserState.ReadRecordHeader? {
        return InvalidState;
      }
      ResetCounters();
      ghost var before := Snapshot();
      HeaderKeeps(before);
      var headerSize := ReadRecordHeader(record);
      DataOutcome(ReadHeader(before).0, ReadHeader(before).1, heap);
      err := ReadRecordData(record, headerSize, heap);
    }

    method ResetCounters()
      modifies this`done, this`total, this`addedDataCRC32, this`actualAddedDataCRC32
      ensures Snapshot() == old(Snapshot().(done := 0, total := 0, crc := 0, actual := 0))
    {
      done, total, addedDataCRC32, actualAddedDataCRC32 := 0, 0, 0, 0;
    }

    method IsAddedDataAvailable() returns (yes: bool)
      ensures yes == AddedDataAvailable(Snapshot())
    {
      yes := total > 0;
    }

    /** Reads up to `size` bytes of added data into the caller's buffer. */
    method ReadAddedData(destination: array<byte>, size: nat) returns (err: KcfError, bytesRead: nat)
      requires Valid() && size <= destination.Length
      modifies this, stream`pos, destination
      ensures var (s, e, b) := Machine.GetAdded(old(Snapshot()), size);
              && Valid() && Snapshot() == s && err == e && bytesRead == |b|
              && (e.Ok? ==> destination[..|b|] == b && destination[|b|..] == old(destination[|b|..]))
    {
      hide Ahead, AfterRead, Crc, Wrap;
      bytesRead := 0;
      if !IsReading(parserState) {
        return InvalidState, 0;
      }
      if !parserState.ReadAddedData? {
        return InvalidState, 0;
      }
      if total == 0 {
        parserState := PState.ReadRecordHeader;
        return Ok, 0;
      }
      var n := size;
      if total < n {
        n := total;
      }
      bytesRead := ReadInto(destination, n);
      if bytesRead < n {
        return ReadFailed, 0;
      }
      CountRead(destination[..bytesRead]);
      return Ok, bytesRead;
    }

    method ReadInto(destination: array<byte>, n: nat) returns (count: nat)
      requires n <= destination.Length
      modifies stream`pos, destination
      ensures var got := Ahead(old(stream.State()), n);
              && count == |got| && stream.State() == AfterRead(old(stream.State()), n)
              && destination[..count] == got && destination[count..] == old(destination[|got|..])
    {
      hide Ahead;
      ghost var was := destination[..];
      ghost var got := Ahead(stream.State(), n);
      count := stream.Read(destination, 0, n);
      assert destination[..] == got + was[count..];
    }

    /** Updates counters and CRC by the bytes read, and leaves the added data when they were the last. */
    method CountRead(b: seq<byte>)
      requires |b| <= total
      modifies this`total, this`done, this`actualAddedDataCRC32, this`parserState
      ensures Snapshot() == old(Snapshot().(total := total - |b|, done := Wrap(done + |b|),
                                actual := Crc(actualAddedDataCRC32, b),
                                ps := if total == |b| then PState.ReadRecordHeader else parserState))
    {
      hide Crc, Wrap;
      total := total - |b|;
      actualAddedDataCRC32 := Crc(actualAddedDataCRC32, b);
      done := Wrap(done + |b|);
      if total == 0 {
        parserState := PState.ReadRecordHeader;
      }
    }

    // ---- mode changes ----

    method StartReading() returns (err: KcfError)
      requires Valid()
      modifies this, stream, lastRecord
      ensures Valid() && (Snapshot(), err) == Machine.StartReading(old(Snapshot()))
    {
      hide Finish;
      match parserState {
        case Neutral =>
          parserState := ReadMarker;
        case Reading =>
          parserState := ReadMarker;
        case WriteMarker =>
          parserState := Reading;
        case WriteAddedData =>
          FinishSucceeds(Snapshot());
          err := FinishAddedData();
          if !err.Ok? {
            return err;
          }
          parserState := PState.ReadRecordHeader;
        case WriteRecord =>
          parserState := PState.ReadRecordHeader;
        case _ =>
      }
      return Ok;
    }

    method StartWriting() returns (err: KcfError)
      requires Valid()
      modifies this, stream
      ensures Valid() && (Snapshot(), err) == Machine.StartWriting(old(Snapshot()))
    {
      match parserState {
        case Neutral =>
          parserState := PState.WriteMarker;
          err := WriteMarker();
        case Reading =>
          parserState := PState.WriteMarker;
          err := WriteMarker();
        case Writing =>
          parserState := PState.WriteMarker;
          err := WriteMarker();
        case ReadMarker =>
          parserState := PState.WriteMarker;
          err := WriteMarker();
        case ReadRecordHeader =>
          parserState := PState.WriteRecord;
          err := Ok;
        case ReadAddedData =>
          err := InvalidState;
        case ReadRecordData =>
          err := InvalidState;
        case _ =>
          err := Ok;
      }
    }

    method InitArchive() returns (err: KcfError)
      requires Valid()
      modifies this, stream, lastRecord
      ensures Valid() && (Snapshot(), err) == Machine.InitArchive(old(Snapshot()))
    {
      hide Machine.PutRecord, Machine.StartWriting;
      err := StartWriting();
      if !err.Ok? {
        return err;
      }
      var record := new KcfRecord(ARCHIVE_HEADER);
      err := WriteRecord(record);
    }
  }

  lemma FinishSucceeds(s: State)
    requires s.ps.WriteAddedData?
    ensures Finish(s).1.Ok?
  {}

  lemma FixedSizes(r: Rec)
    requires Legal(r)
    ensures Legal(Fixed(r)) && Fixed(r).headSize == HeaderLen(r.headFlags) + |r.data|
    ensures Fixed(r).headFlags == r.headFlags && Fixed(r).data == r.data && Fixed(r).addedSize == r.addedSize
  {
    FixedFacts(r);
  }

  lemma WithAddedFits(r: Rec, added: seq<byte>)
    requires Legal(BeforeFix(r, added))
    ensures var w := WithAdded(r, added);
            Legal(w) && w.headSize == HeaderLen(w.headFlags) + |w.data|
  {
    hide HeaderLen, Fixed, HasAddedDataCrc, Crc, SetAddedSize8, SetAddedSize4, ClearAdded;
    var q := BeforeFix(r, added);
    FixedKeeps(q);
    FixedSizes(q);
  }

  predicate IsMarker(buf: array<byte>)
    requires buf.Length == 6
    reads buf
    ensures IsMarker(buf) <==> buf[..] == MARKER
  {
    buf[0] == 0x4B && buf[1] == 0x43 && buf[2] == 0x21 && buf[3] == 0x1A && buf[4] == 0x06 && buf[5] == 0x00
  }

  /** The last six bytes read since `start`, zeros before them. */
  ghost function Window(data: seq<byte>, start: nat, pos: nat): (w: seq<byte>)
    requires start <= pos && (pos <= |data| || pos == start)
    ensures |w| == 6
  {
    seq(6, i requires 0 <= i < 6 => if pos + i >= start + 6 then data[pos + i - 6] else 0)
  }

  /** Where the window begins, once it is full. */
  ghost function Scanned(start: nat, pos: nat): nat {
    if pos < start + 6 then start else pos - 6
  }

  lemma WindowAtStart(data: seq<byte>, start: nat)
    ensures Window(data, start, start) == Zeros(6) && Scanned(start, start) == start
  {}

  /** The window holds the marker exactly when the last six bytes read are the marker: the zeros it
      starts with never complete one. */
  lemma MarkerInWindow(data: seq<byte>, start: nat, pos: nat)
    requires start <= pos && (pos <= |data| || pos == start)
    ensures Window(data, start, pos) == MARKER <==> start + 6 <= pos && MarkerAt(data, pos - 6)
  {
    if pos < start + 6 {
      assert Window(data, start, pos)[0] == 0;
    } else {
      assert Window(data, start, pos) == data[pos - 6..pos];
    }
  }

  lemma FoundIsFirst(data: seq<byte>, start: nat, pos: nat)
    requires start + 6 <= pos && MarkerAt(data, pos - 6)
    ensures FirstMarker(data, Scanned(start, pos)) == Some(pos - 6)
  {
    hide MarkerAt;
    assert pos <= |data| by { MarkerFits(data, pos - 6); }
  }

  lemma MarkerFits(data: seq<byte>, p: nat)
    requires MarkerAt(data, p)
    ensures p + 6 <= |data|
  {}

  lemma WindowNext(data: seq<byte>, start: nat, pos: nat)
    requires start <= pos < |data|
    ensures Window(data, start, pos + 1) == Window(data, start, pos)[1..] + [data[pos]]
  {}

  lemma ScanNext(data: seq<byte>, start: nat, pos: nat)
    requires start <= pos && (pos <= |data| || pos == start)
    requires !(start + 6 <= pos && MarkerAt(data, pos - 6))
    ensures pos < |data| ==> FirstMarker(data, Scanned(start, pos + 1)) == FirstMarker(data, Scanned(start, pos))
    ensures pos >= |data| ==> FirstMarker(data, Scanned(start, pos)).None?
  {
    hide MarkerAt;
    if pos >= |data| && pos >= start + 6 {
      assert FirstMarker(data, pos - 5).None?;
    }
  }
}
