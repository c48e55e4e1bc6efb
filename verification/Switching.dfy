/**
  Mode switches by what they make possible: which calls are accepted where, what a switch does to the
  stream, and that reading goes on behind what was written.
  */
module Switching {
  import opened Words
  import opened Crc32c
  import opened BytePack
  import opened Stream
  import opened Record
  import opened Machine
  import opened Writer
  import opened WriterLaws
  import opened Reader
  import opened RoundTrip
  import opened Phases

  // ---- which calls are accepted ----

  /** Where a call is out of place. */
  predicate OutOfPlace(p: PState, c: Call) {
    match c
    case CallStartReading => false
    case CallStartWriting => p.ReadRecordData? || p.ReadAddedData?
    case CallInitArchive => p.ReadRecordData? || p.ReadAddedData?
    case CallFindMarker => !p.ReadMarker?
    case CallWriteRecord(_) => !p.WriteRecord? && !p.WriteAddedData?
    case CallWriteRecordWith(_, _) => !p.WriteRecord? && !p.WriteAddedData?
    case CallWriteAdded(_) => !p.WriteAddedData?
    case CallFinish => !p.WriteAddedData?
    case CallReadRecord(_) => !p.ReadRecordHeader?
    case CallReadAdded(_) => !p.ReadAddedData?
  }

  /** On every run of a new handle the next call is refused for its place exactly there, and then nothing
      changes. */
  lemma RefusedIff(data: seq<byte>, calls: seq<Call>, c: Call)
    ensures var s := After(Fresh(data), calls);
            && (Do(s, c).1.InvalidState? <==> OutOfPlace(s.ps, c))
            && (Do(s, c).1.InvalidState? ==> Do(s, c).0 == s)
  {
    hide Do, After;
    AlwaysResting(data, calls);
    RefusedHere(After(Fresh(data), calls), c);
  }

  lemma RefusedHere(s: State, c: Call)
    requires Resting(s.ps)
    ensures Do(s, c).1.InvalidState? <==> OutOfPlace(s.ps, c)
    ensures Do(s, c).1.InvalidState? ==> Do(s, c).0 == s
  {
    hide PutRecord, PutRecordWith, PutAdded, Finish, GetRecord, GetAdded, FindMarker, StartReading, StartWriting,
      InitArchive;
    match c {
      case CallStartReading => StartPlaces(s);
      case CallStartWriting => StartPlaces(s);
      case CallInitArchive => InitPlaces(s);
      case CallFindMarker => MarkerPlaces(s);
      case CallWriteRecord(r) => WritePlaces(s, r, []);
      case CallWriteRecordWith(r, added) => WritePlaces(s, r, added);
      case CallWriteAdded(chunk) => AddedPlaces(s, chunk);
      case CallFinish => AddedPlaces(s, []);
      case CallReadRecord(heap) => OnlyAtHeader(s, heap);
      case CallReadAdded(size) => ReadPlaces(s, size);
    }
  }

  lemma StartPlaces(s: State)
    requires Resting(s.ps)
    ensures !StartReading(s).1.InvalidState?
    ensures var (t, err) := StartWriting(s);
            (err.InvalidState? <==> s.ps.ReadRecordData? || s.ps.ReadAddedData?) && (err.InvalidState? ==> t == s)
  {
    hide Finish, AfterWrite;
  }

  lemma InitPlaces(s: State)
    requires Resting(s.ps)
    ensures var (t, err) := InitArchive(s);
            (err.InvalidState? <==> s.ps.ReadRecordData? || s.ps.ReadAddedData?) && (err.InvalidState? ==> t == s)
  {
    hide StartWriting, PutRecord;
    StartPlaces(s);
    StartEnds(s);
    WritePlaces(StartWriting(s).0, ARCHIVE_HEADER, []);
  }

  lemma MarkerPlaces(s: State)
    ensures FindMarker(s).1.InvalidState? <==> !s.ps.ReadMarker?
    ensures FindMarker(s).1.InvalidState? ==> FindMarker(s).0 == s
  {
    hide FirstMarker;
  }

  lemma WritePlaces(s: State, r: Rec, added: seq<byte>)
    requires Resting(s.ps)
    ensures PutRecord(s, r).1.InvalidState? <==> !s.ps.WriteRecord? && !s.ps.WriteAddedData?
    ensures PutRecordWith(s, r, added).1.InvalidState? <==> !s.ps.WriteRecord? && !s.ps.WriteAddedData?
    ensures PutRecord(s, r).1.InvalidState? ==> PutRecord(s, r).0 == s && PutRecordWith(s, r, added).0 == s
  {
    hide BeginRecord, Emit, AfterWrite, WithAdded;
    BeginEnds(s);
  }

  lemma AddedPlaces(s: State, chunk: seq<byte>)
    ensures PutAdded(s, chunk).1.InvalidState? <==> !s.ps.WriteAddedData?
    ensures Finish(s).1.InvalidState? <==> !s.ps.WriteAddedData?
    ensures !s.ps.WriteAddedData? ==> PutAdded(s, chunk).0 == s && Finish(s).0 == s
  {
    hide AfterPatch, AfterWrite, Room, Crc, Wrap, WrapSub;
  }

  lemma ReadPlaces(s: State, size: nat)
    ensures GetAdded(s, size).1.InvalidState? <==> !s.ps.ReadAddedData?
    ensures GetAdded(s, size).1.InvalidState? ==> GetAdded(s, size).0 == s
  {
    hide Crc, Ahead, AfterRead, Wrap;
  }

  // ---- what a switch makes possible ----

  /** Switching to reading: a new handle may look for the marker, a writing one may read the record at its
      position, an open record being finished first, and a reading one is left as it is. */
  lemma SwitchToReading(s: State, heap: Heap)
    requires Resting(s.ps)
    ensures var (t, err) := StartReading(s);
            && err.Ok?
            && (IsReading(s.ps) ==> t == s)
            && (s.ps.Neutral? ==> !FindMarker(t).1.InvalidState? && t.io == s.io)
            && (s.ps.WriteRecord? ==> !GetRecord(t, heap).1.InvalidState? && t.io == s.io)
            && (s.ps.WriteAddedData? ==> !GetRecord(t, heap).1.InvalidState? && t.io == Finish(s).0.io)
  {
    hide GetRecord, FirstMarker, Finish;
    OnlyAtHeader(StartReading(s).0, heap);
    FinishedState(s);
  }

  lemma FinishedState(s: State)
    ensures s.ps.WriteAddedData? ==> Finish(s).0.ps.WriteRecord?
  {
    hide AfterPatch;
  }

  /** Switching to writing: the marker is written where none has been passed and nowhere else; where the
      reader is inside a record it is refused; otherwise records may be written, and an open one stays. */
  lemma SwitchToWriting(s: State, r: Rec)
    requires Resting(s.ps)
    ensures var (t, err) := StartWriting(s);
            && (err.Ok? <==> !s.ps.ReadRecordData? && !s.ps.ReadAddedData?)
            && (!err.Ok? ==> err.InvalidState? && t == s)
            && (err.Ok? ==> PutRecord(t, r).1.Ok?)
            && (s.ps.Neutral? || s.ps.ReadMarker? ==> t.io == AfterWrite(s.io, [0x4B, 0x43, 0x21, 0x1A, 0x06, 0x00]))
            && (s.ps.ReadRecordHeader? ==> t.io == s.io)
            && (IsWriting(s.ps) ==> t == s)
  {
    hide PutRecord, StartWriting, AfterWrite;
    StartPlaces(s);
    StartEnds(s);
    WritePlaces(StartWriting(s).0, r, []);
    PutEnds(StartWriting(s).0, r);
    StartStream(s);
  }

  lemma StartStream(s: State)
    requires Resting(s.ps)
    ensures var t := StartWriting(s).0;
            && (s.ps.Neutral? || s.ps.ReadMarker? ==> t.io == AfterWrite(s.io, [0x4B, 0x43, 0x21, 0x1A, 0x06, 0x00]))
            && (s.ps.ReadRecordHeader? ==> t.io == s.io)
            && (IsWriting(s.ps) ==> t == s)
  {
    hide AfterWrite;
  }

  lemma PutEnds(s: State, r: Rec)
    ensures PutRecord(s, r).1.Ok? || PutRecord(s, r).1.InvalidState?
  {
    hide BeginRecord, Emit;
    BeginEnds(s);
  }

  /** Between records, switching over and back changes nothing. */
  lemma ThereAndBack(s: State)
    ensures s.ps.ReadRecordHeader? ==> StartReading(StartWriting(s).0) == (s, Ok)
    ensures s.ps.WriteRecord? ==> StartWriting(StartReading(s).0) == (s, Ok)
  {
    hide Finish;
  }

  /** Switching to reading after any writing phase leaves the finished records in the stream and the position
      right behind them. */
  lemma EndOfPhase(s: State, ops: seq<WriteOp>)
    requires s.ps.WriteRecord? && AllAllowed(ops)
    ensures var t := StartReading(Run(s, ops)).0;
            t.ps.ReadRecordHeader? && t.io == AfterWrite(s.io, ItemsBytes(Close(LogRun(Start(s), ops)).items))
  {
    hide Overwrite, ItemsBytes, Run, LogRun, Allowed, Counts, Closed, Finish, ItemBytes;
    WritingPhase(s, ops);
    var w, l := Run(s, ops), LogRun(Start(s), ops);
    if l.open.Some? {
      FinishRefines(w, s.io.data, s.io.pos, l);
      EndIo(Finish(w).0, s.io, Close(l));
    } else {
      EndIo(w, s.io, l);
    }
  }

  /** Records replaced in the middle of an archive by as many bytes: after the switch the reader goes on with
      the record behind them.  Without any writer call this is reading on after switching over and back. */
  lemma ReadOnBehind(s: State, ops: seq<WriteOp>, was: seq<byte>, r: Rec, rest: seq<byte>, heap: seq<byte>)
    requires s.ps.WriteRecord? && AllAllowed(ops) && |heap| == 0x1_0000
    requires |was| == |ItemsBytes(Close(LogRun(Start(s), ops)).items)|
    requires Consistent(r) && StartsWith(s.io, was + (ToBytes(r) + rest))
    ensures var (t, err, got) := GetRecord(StartReading(Run(s, ops)).0, heap);
            && err.Ok? && got == Canon(r) && t.io.pos == s.io.pos + |was| + |ToBytes(r)|
            && StartsWith(t.io, rest)
  {
    hide Overwrite, ItemsBytes, Run, LogRun, AllAllowed, Close, GetRecord, StartReading, ToBytes, StartsWith, Canon,
      Consistent, HasAddedSize;
    EndOfPhase(s, ops);
    Behind(s.io, was, ToBytes(r) + rest, ItemsBytes(Close(LogRun(Start(s), ops)).items));
    RecordRoundTrip(StartReading(Run(s, ops)).0, r, heap, rest);
  }

  lemma Behind(io: IoState, was: seq<byte>, rest: seq<byte>, b: seq<byte>)
    requires StartsWith(io, was + rest) && |b| == |was|
    ensures StartsWith(AfterWrite(io, b), rest)
  {
    AheadOf(io, was, rest);
    OverwriteFrame(io.data, io.pos, b);
    var d, p := Overwrite(io.data, io.pos, b), io.pos + |b|;
    assert d[p..p + |rest|] == d[p..][..|rest|] == io.data[p..][..|rest|] == io.data[p..p + |rest|];
  }
}
