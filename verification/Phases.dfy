/**
  The handle over arbitrary runs that mix reading and writing: which states occur, when added data is
  accepted, what a malformed header does, and what reading leaves behind for writing.
  */
module Phases {
  import opened Words
  import opened Crc32c
  import opened BytePack
  import opened Stream
  import opened Record
  import opened Machine
  import opened Writer
  import opened WriterLaws
  import opened Reader
  import opened RoundTrip

  /** Every call on a handle. */
  datatype Call =
    | CallStartReading | CallStartWriting | CallInitArchive | CallFindMarker
    | CallWriteRecord(r: Rec) | CallWriteRecordWith(r: Rec, added: seq<byte>)
    | CallWriteAdded(chunk: seq<byte>) | CallFinish
    | CallReadRecord(heap: Heap) | CallReadAdded(size: nat)

  type Heap = h: seq<byte> | |h| == 0x1_0000 witness Zeros(0x1_0000)

  function Do(s: State, c: Call): (State, KcfError) {
    match c
    case CallStartReading => StartReading(s)
    case CallStartWriting => StartWriting(s)
    case CallInitArchive => InitArchive(s)
    case CallFindMarker => FindMarker(s)
    case CallWriteRecord(r) => PutRecord(s, r)
    case CallWriteRecordWith(r, added) => PutRecordWith(s, r, added)
    case CallWriteAdded(chunk) => PutAdded(s, chunk)
    case CallFinish => Finish(s)
    case CallReadRecord(heap) => (GetRecord(s, heap).0, GetRecord(s, heap).1)
    case CallReadAdded(size) => (GetAdded(s, size).0, GetAdded(s, size).1)
  }

  function After(s: State, calls: seq<Call>): State {
    if calls == [] then s else Do(After(s, calls[..|calls| - 1]), calls[|calls| - 1]).0
  }

  // ---- which states occur between calls ----

  predicate Resting(p: PState) {
    !p.Reading? && !p.Writing? && !p.WriteMarker?
  }

  lemma RecordEnds(s: State, heap: Heap)
    ensures var t := GetRecord(s, heap).0;
            if s.ps.ReadRecordHeader? then t.ps.ReadRecordData? || t.ps.ReadAddedData? || t.ps.ReadRecordHeader?
            else t == s
  {
    hide ParseHeader, HeaderAhead, HeaderLen, Ahead, HasAddedSize;
  }

  lemma BeginEnds(s: State)
    ensures var (b, err) := BeginRecord(s);
            if IsWriting(s.ps) && !s.ps.WriteMarker? then err.Ok? && b.ps.WriteRecord?
            else err.InvalidState? && b == s
  {
    hide AfterPatch;
  }

  lemma StartEnds(s: State)
    requires Resting(s.ps)
    ensures var (t, err) := StartWriting(s);
            if IsReading(s.ps) && !s.ps.ReadMarker? && !s.ps.ReadRecordHeader? then err.InvalidState? && t == s
            else err.Ok? && (if s.ps.WriteAddedData? then t == s else t.ps.WriteRecord?)
  {
    hide AfterWrite;
  }

  lemma RestingWrite(s: State, r: Rec, added: seq<byte>)
    requires Resting(s.ps)
    ensures Resting(PutRecord(s, r).0.ps) && Resting(PutRecordWith(s, r, added).0.ps)
  {
    hide AfterWrite, Fixed, WithAdded, BeginRecord, HasAddedSize, HasAddedDataCrc;
    BeginEnds(s);
  }

  lemma RestingAdded(s: State, chunk: seq<byte>)
    requires Resting(s.ps)
    ensures Resting(PutAdded(s, chunk).0.ps) && Resting(Finish(s).0.ps)
  {
    hide AfterPatch, AfterWrite, Room, Crc, Wrap, WrapSub;
  }

  lemma RestingRead(s: State, heap: Heap, size: nat)
    requires Resting(s.ps)
    ensures Resting(GetRecord(s, heap).0.ps) && Resting(GetAdded(s, size).0.ps) && Resting(FindMarker(s).0.ps)
  {
    hide FirstMarker, GetRecord, Crc, Ahead, AfterRead, Wrap;
    RecordEnds(s, heap);
  }

  lemma RestingStart(s: State)
    requires Resting(s.ps)
    ensures Resting(StartReading(s).0.ps) && Resting(StartWriting(s).0.ps)
  {
    hide Finish, StartWriting;
    StartEnds(s);
  }

  lemma RestingInit(s: State)
    requires Resting(s.ps)
    ensures Resting(InitArchive(s).0.ps)
  {
    hide StartWriting, PutRecord, Resting;
    RestingStart(s);
    RestingWrite(StartWriting(s).0, ARCHIVE_HEADER, []);
  }

  lemma RestingStep(s: State, c: Call)
    requires Resting(s.ps)
    ensures Resting(Do(s, c).0.ps)
  {
    hide Resting, PutRecord, PutRecordWith, PutAdded, Finish, GetRecord, GetAdded, FindMarker, StartReading,
      StartWriting, InitArchive;
    RestingStart(s);
    RestingInit(s);
    match c {
      case CallWriteRecord(r) => RestingWrite(s, r, []);
      case CallWriteRecordWith(r, added) => RestingWrite(s, r, added);
      case CallWriteAdded(chunk) => RestingAdded(s, chunk);
      case CallFinish => RestingAdded(s, []);
      case CallReadRecord(heap) => RestingRead(s, heap, 0);
      case CallReadAdded(size) => RestingRead(s, Zeros(0x1_0000), size);
      case CallFindMarker => RestingRead(s, Zeros(0x1_0000), 0);
      case _ =>
    }
  }

  /** On every run of a new handle, between calls the handle is neutral, reading or writing at a definite
      place. */
  lemma {:induction false} AlwaysResting(data: seq<byte>, calls: seq<Call>)
    ensures Resting(After(Fresh(data), calls).ps)
  {
    hide Do, Resting;
    if calls == [] {
      FreshRests(data);
    } else {
      AlwaysResting(data, calls[..|calls| - 1]);
      RestingStep(After(Fresh(data), calls[..|calls| - 1]), calls[|calls| - 1]);
    }
  }

  lemma FreshRests(data: seq<byte>)
    ensures Resting(Fresh(data).ps)
  {}

  // ---- when added data is accepted ----

  /** Judging by the results of the calls alone: a record that announced added data was written, and
      nothing since has finished it. */
  predicate RecordOpen(s: State, calls: seq<Call>) {
    calls != [] &&
    var front := calls[..|calls| - 1];
    var ok := Do(After(s, front), calls[|calls| - 1]).1.Ok?;
    match calls[|calls| - 1]
    case CallWriteRecord(r) => if ok then HasAddedSize(r.headFlags) else RecordOpen(s, front)
    case CallWriteRecordWith(_, _) => !ok && RecordOpen(s, front)
    case CallInitArchive => !ok && RecordOpen(s, front)
    case CallFinish => !ok && RecordOpen(s, front)
    case CallStartReading => false
    case _ => RecordOpen(s, front)
  }

  lemma OpenStep(s: State, c: Call)
    requires Resting(s.ps)
    ensures var (t, err) := Do(s, c);
            t.ps.WriteAddedData? <==>
            match c
            case CallWriteRecord(r) => if err.Ok? then HasAddedSize(r.headFlags) else s.ps.WriteAddedData?
            case CallWriteRecordWith(_, _) => !err.Ok? && s.ps.WriteAddedData?
            case CallInitArchive => !err.Ok? && s.ps.WriteAddedData?
            case CallFinish => !err.Ok? && s.ps.WriteAddedData?
            case CallStartReading => false
            case _ => s.ps.WriteAddedData?
  {
    hide FirstMarker, AfterPatch, AfterWrite, HeaderCrc, WithAdded, GetRecord, BeginRecord, StartWriting, Room,
      Crc, Ahead, HasAddedSize;
    BeginEnds(s);
    StartEnds(s);
    BeginEnds(StartWriting(s).0);
    if c.CallReadRecord? {
      RecordEnds(s, c.heap);
    }
    NoAddedSizeInHeader();
  }

  lemma NoAddedSizeInHeader()
    ensures !HasAddedSize(ARCHIVE_HEADER.headFlags)
  {}

  /** Added data is accepted exactly between a record that announced it and whatever finishes that record:
      finishing it, writing another record in any way, or switching to reading. */
  lemma {:induction false} AddedDataOnlyWhenOpen(data: seq<byte>, calls: seq<Call>, chunk: seq<byte>)
    ensures var s := After(Fresh(data), calls);
            && (s.ps.WriteAddedData? <==> RecordOpen(Fresh(data), calls))
            && (PutAdded(s, chunk).1.Ok? <==> RecordOpen(Fresh(data), calls))
            && (Finish(s).1.Ok? <==> RecordOpen(Fresh(data), calls))
            && (!RecordOpen(Fresh(data), calls) ==> PutAdded(s, chunk).0 == s && Finish(s).0 == s)
  {
    hide Do, AfterWrite, Room, AfterPatch, HasAddedSize;
    if calls != [] {
      var front := calls[..|calls| - 1];
      AddedDataOnlyWhenOpen(data, front, chunk);
      AlwaysResting(data, front);
      OpenStep(After(Fresh(data), front), calls[|calls| - 1]);
    }
  }

  predicate IsReadCall(c: Call) {
    c.CallReadRecord? || c.CallReadAdded? || c.CallFindMarker?
  }

  predicate IsWriteCall(c: Call) {
    c.CallWriteRecord? || c.CallWriteRecordWith? || c.CallWriteAdded? || c.CallFinish?
  }

  /** Reading calls never succeed while writing, and writing calls never while reading. */
  lemma CallsKeepToTheirPhase(s: State, c: Call)
    ensures IsReadCall(c) && !IsReading(s.ps) ==> Do(s, c) == (s, InvalidState)
    ensures IsWriteCall(c) && !IsWriting(s.ps) ==> Do(s, c) == (s, InvalidState)
  {
    hide FirstMarker, AfterPatch, AfterWrite, Fixed, WithAdded, ReadHeader, GetData, Room, Crc, Ahead;
  }

  predicate SwitchesToWriting(c: Call) {
    c.CallStartWriting? || c.CallInitArchive?
  }

  /** Only switching to reading ends writing, and only switching to writing begins it. */
  lemma PhaseStep(s: State, c: Call)
    ensures IsWriting(s.ps) && !c.CallStartReading? ==> IsWriting(Do(s, c).0.ps)
    ensures !IsWriting(s.ps) && !SwitchesToWriting(c) ==> !IsWriting(Do(s, c).0.ps)
  {
    hide PutRecord, PutRecordWith, PutAdded, Finish, GetRecord, GetAdded, FindMarker;
    match c {
      case CallFindMarker => MarkerPhase(s);
      case CallWriteRecord(r) => WritePhase(s, r, []);
      case CallWriteRecordWith(r, added) => WritePhase(s, r, added);
      case CallWriteAdded(chunk) => AddedPhase(s, chunk);
      case CallFinish => AddedPhase(s, []);
      case CallReadRecord(heap) => ReadPhase(s, heap);
      case CallReadAdded(size) => ReadAddedPhase(s, size);
      case CallInitArchive => InitPhase(s);
      case _ =>
    }
  }

  lemma MarkerPhase(s: State)
    ensures IsWriting(FindMarker(s).0.ps) <==> IsWriting(s.ps)
  {
    hide FirstMarker;
  }

  lemma WritePhase(s: State, r: Rec, added: seq<byte>)
    ensures IsWriting(PutRecord(s, r).0.ps) <==> IsWriting(s.ps)
    ensures IsWriting(PutRecordWith(s, r, added).0.ps) <==> IsWriting(s.ps)
  {
    hide AfterWrite, Fixed, WithAdded, BeginRecord, HasAddedSize, HasAddedDataCrc;
    BeginEnds(s);
  }

  lemma AddedPhase(s: State, chunk: seq<byte>)
    ensures IsWriting(PutAdded(s, chunk).0.ps) <==> IsWriting(s.ps)
    ensures IsWriting(Finish(s).0.ps) <==> IsWriting(s.ps)
  {
    hide AfterPatch, AfterWrite, Room, Crc, Wrap, WrapSub;
  }

  lemma ReadPhase(s: State, heap: Heap)
    ensures IsWriting(GetRecord(s, heap).0.ps) <==> IsWriting(s.ps)
  {
    hide GetRecord;
    RecordEnds(s, heap);
  }

  lemma ReadAddedPhase(s: State, size: nat)
    ensures !s.ps.ReadAddedData? ==> GetAdded(s, size).0 == s
    ensures s.ps.ReadAddedData? ==> IsReading(GetAdded(s, size).0.ps)
  {
    hide Crc, Ahead, AfterRead, Wrap;
  }

  lemma InitPhase(s: State)
    ensures IsWriting(s.ps) ==> IsWriting(InitArchive(s).0.ps)
  {
    hide PutRecord;
    WritePhase(StartWriting(s).0, ARCHIVE_HEADER, []);
  }

  /** The `k`-th call of a run succeeds. */
  predicate Succeeds(s: State, calls: seq<Call>, k: nat)
    requires k < |calls|
  {
    Do(After(s, calls[..k]), calls[k]).1.Ok?
  }

  lemma {:induction false} StillSamePhase(s: State, calls: seq<Call>, j: nat, k: nat)
    requires j < k <= |calls| && Succeeds(s, calls, j)
    ensures IsWriteCall(calls[j]) && (forall m :: j < m < k ==> !calls[m].CallStartReading?)
            ==> IsWriting(After(s, calls[..k]).ps)
    ensures IsReadCall(calls[j]) && (forall m :: j < m < k ==> !SwitchesToWriting(calls[m]))
            ==> !IsWriting(After(s, calls[..k]).ps)
  {
    hide Do, IsWriting, IsReading;
    var before := After(s, calls[..k - 1]);
    assert calls[..k][..k - 1] == calls[..k - 1];
    PhaseStep(before, calls[k - 1]);
    if k - 1 == j {
      CallsKeepToTheirPhase(before, calls[j]);
      NotBoth(before.ps);
    } else {
      StillSamePhase(s, calls, j, k - 1);
    }
  }

  lemma NotBoth(p: PState)
    ensures !(IsReading(p) && IsWriting(p))
  {}

  /** Over any run, between a successful writing call and a later successful reading call there is a switch
      to reading, and between a successful reading call and a later successful writing call a switch to
      writing. */
  lemma SwitchBetween(s: State, calls: seq<Call>, j: nat, k: nat)
    requires j < k < |calls| && Succeeds(s, calls, j) && Succeeds(s, calls, k)
    ensures IsWriteCall(calls[j]) && IsReadCall(calls[k]) ==> exists m :: j < m < k && calls[m].CallStartReading?
    ensures IsReadCall(calls[j]) && IsWriteCall(calls[k]) ==> exists m :: j < m < k && SwitchesToWriting(calls[m])
  {
    hide Do, IsWriting, IsReading;
    StillSamePhase(s, calls, j, k);
    CallsKeepToTheirPhase(After(s, calls[..k]), calls[k]);
    NotBoth(After(s, calls[..k]).ps);
  }

  // ---- a malformed header ----

  lemma StuckStep(s: State, c: Call)
    requires s.ps.ReadRecordData?
    ensures Do(s, c).0 == s
  {
    hide FirstMarker, AfterPatch, AfterWrite, Fixed, WithAdded, ReadHeader, GetData, Room, Crc, Ahead;
  }

  /** A record whose declared size is below its header's own length is refused, and from then on no call
      whatsoever changes the handle or the stream. */
  lemma {:induction false} MalformedHeaderIsFinal(s: State, heap: Heap, calls: seq<Call>)
    requires s.ps.ReadRecordHeader?
    ensures var r := ParseHeader(HeaderAhead(s.io));
            var t := GetRecord(s, heap).0;
            && (GetRecord(s, heap).1.OutOfMemory? <==> r.headSize < HeaderLen(r.headFlags))
            && (r.headSize < HeaderLen(r.headFlags) ==> After(t, calls) == t && t.ps.ReadRecordData?)
            && (r.headSize >= HeaderLen(r.headFlags) ==> GetRecord(s, heap).1.Ok? && !t.ps.ReadRecordData?)
  {
    hide Do, HeaderLen, ParseHeader, HeaderAhead, Ahead, HasAddedSize;
    if calls != [] {
      var front := calls[..|calls| - 1];
      MalformedHeaderIsFinal(s, heap, front);
      if ParseHeader(HeaderAhead(s.io)).headSize < HeaderLen(ParseHeader(HeaderAhead(s.io)).headFlags) {
        StuckStep(After(GetRecord(s, heap).0, front), calls[|calls| - 1]);
      }
    }
  }

  /** Where the stream ends the header is filled up with zeros.  With at most four bytes left there is no size,
      so that reading on behind the last record is refused in the same way: from then on no call changes the
      handle, and it is never switched to writing. */
  lemma ReadingOnIsFinal(s: State, heap: Heap, calls: seq<Call>)
    requires s.ps.ReadRecordHeader? && s.io.pos + 4 >= |s.io.data|
    ensures var (t, err, r) := GetRecord(s, heap);
            && err.OutOfMemory? && After(t, calls) == t
            && t.io == s.io.(pos := if s.io.pos < |s.io.data| then |s.io.data| else s.io.pos)
            && StartWriting(After(t, calls)).1.InvalidState?
  {
    hide HeaderLen, ParseHeader, GetRecord;
    NoSizeAhead(s.io);
    MalformedHeaderIsFinal(s, heap, calls);
    EndsAtEnd(s, heap);
  }

  lemma EndsAtEnd(s: State, heap: Heap)
    requires s.ps.ReadRecordHeader? && s.io.pos + 4 >= |s.io.data|
    ensures GetRecord(s, heap).1.OutOfMemory?
            ==> GetRecord(s, heap).0.io == s.io.(pos := if s.io.pos < |s.io.data| then |s.io.data| else s.io.pos)
  {
    hide ParseHeader, HeaderAhead, HeaderLen, HasAddedSize;
  }

  lemma NoSizeAhead(io: IoState)
    requires io.pos + 4 >= |io.data|
    ensures ParseHeader(HeaderAhead(io)).headSize == 0
  {
    hide HeaderLen, SizeLen, CrcOf, LeValue, HeaderAhead;
    HeaderSeen(io);
    var b := HeaderAhead(io);
    assert b[4..6] == Zeros(2);
    ZerosRead();
  }

  lemma ZerosRead()
    ensures U16(Zeros(2)) == 0
  {
    assert Zeros(2) == [0] + [0];
    LeValueSplit([0], [0]);
    assert LeValue([0]) == Index(0) + 256 * LeValue([]);
  }

  // ---- writing after reading ----

  /** Reading a record and then switching to writing leaves its byte count and its stored CRC in the
      counters of the writer. */
  lemma LeftOver(s: State, i: Item, plan: Plan, rest: seq<byte>)
    requires s.ps.ReadRecordHeader? && Measured(i) && Adequate(plan, i) && StartsWith(s.io, ItemBytes(i) + rest)
    ensures |i.added| < TWO_64
    ensures var w := StartWriting(ReadOne(s, plan).0).0;
            && w.ps.WriteRecord? && w.done == |i.added| && w.crc == Canon(i.rec).addedDataCRC32
            && w.io == s.io.(pos := s.io.pos + |ItemBytes(i)|)
  {
    hide ToBytes, HasAddedSize, HasAddedDataCrc, Validated, Consistent, StartsWith, GetRecord, ReadCalls, Shown, Crc,
      PutMarker;
    SizeFits(i.rec.headFlags, i.rec.addedSize);
    ItemRoundTrip(s, i, plan, rest);
    assert ItemBytes(i) + rest == ToBytes(i.rec) + (i.added + rest);
    RecordRoundTrip(s, i.rec, plan.heap, i.added + rest);
    var t := GetRecord(s, plan.heap).0;
    Shorter(t.io, i.added, rest);
    StartsWithSplit(t.io, i.added);
    if HasAddedSize(i.rec.headFlags) {
      ReadConserves(t, plan.sizes);
    } else {
      NoSizeShowsNothing(i.rec.headFlags, i.rec.addedSize);
    }
  }

  /** Appending to an archive just read: a streamed record comes out as a fresh handle would write it
      exactly when the added data of the record read last takes no room from what is offered and shows in
      no field of the new header, and neither does the CRC stored with it. */
  lemma WritingAfterReadingIff(s: State, i: Item, plan: Plan, rest: seq<byte>, r: Rec, chunks: seq<seq<byte>>)
    requires s.ps.ReadRecordHeader? && Measured(i) && Adequate(plan, i) && StartsWith(s.io, ItemBytes(i) + rest)
    requires Legal(r) && HasAddedSize(r.headFlags) && forall c :: c in chunks ==> |c| < TWO_64
    ensures |i.added| < TWO_64
    ensures var w := StartWriting(ReadOne(s, plan).0).0;
            (Run(w, Streaming(r, chunks)).io == Run(w.(done := 0, crc := 0), Streaming(r, chunks)).io <==>
             RoomUnaffected(r.addedSize, |i.added|, |Concat(chunks)|)
             && HeaderUnaffected(r, |i.added|, Canon(i.rec).addedDataCRC32))
  {
    hide ReadOne, StartWriting, Measured, HasAddedSize, RoomUnaffected, HeaderUnaffected, Canon, Run, Legal,
      Streaming;
    LeftOver(s, i, plan, rest);
    var w := StartWriting(ReadOne(s, plan).0).0;
    EndInStream(s.io, ItemBytes(i), rest);
    LeftOverCountersIff(w, r, chunks);
  }

  lemma EndInStream(io: IoState, b: seq<byte>, rest: seq<byte>)
    requires StartsWith(io, b + rest)
    ensures io.pos + |b| <= |io.data|
  {}

  // ---- appending to an archive ----

  lemma {:induction false} ItemsAppend(a: seq<Item>, b: seq<Item>)
    ensures ItemsBytes(a + b) == ItemsBytes(a) + ItemsBytes(b)
  {
    hide ItemBytes;
    if b == [] {
      assert a + b == a;
    } else {
      ItemsAppend(a, b[..|b| - 1]);
      assert (a + b)[..|a + b| - 1] == a + b[..|b| - 1];
    }
  }

  /** What the record read last leaves in the counters. */
  function LeftBy(items: seq<Item>): Carry
    requires forall i :: i in items ==> Measured(i)
  {
    if items == [] then CLEAN else
    var last := items[|items| - 1];
    SizeFits(last.rec.headFlags, last.rec.addedSize);
    assert Measured(last);
    Carry(|last.added|, Canon(last.rec).addedDataCRC32)
  }

  /** The record read last had no added data and no stored CRC. */
  predicate LeavesNothing(items: seq<Item>) {
    items != [] ==> items[|items| - 1].added == [] && Canon(items[|items| - 1].rec).addedDataCRC32 == 0
  }

  /** Reading an archive to its end and switching to writing. */
  function Reopened(items: seq<Item>, plans: seq<Plan>): State
    requires forall p :: p in plans ==> |p.heap| == 0x1_0000
  {
    StartWriting(ReadBack(FindMarker(StartReading(Fresh(MARKER + ItemsBytes(items))).0).0, plans).0).0
  }

  lemma ReopenedState(items: seq<Item>, plans: seq<Plan>)
    requires (forall i :: i in items ==> Measured(i)) && AdequateAll(plans, items)
    ensures forall p :: p in plans ==> |p.heap| == 0x1_0000
    ensures var w := Reopened(items, plans);
            var data := MARKER + ItemsBytes(items);
            w.ps.WriteRecord? && w.io == IoState(data, |data|) && Carry(w.done, w.crc) == LeftBy(items)
  {
    hide Measured, Adequate, Canon, ReadOne, StartsWith, ItemBytes, FirstMarker, Shown;
    var data := MARKER + ItemsBytes(items);
    var t := FindMarker(StartReading(Fresh(data)).0).0;
    assert MARKER + (ItemsBytes(items) + []) == data == data + [];
    WholeStream(data);
    MarkerFirst(data, ItemsBytes(items) + []);
    ItemsRoundTrip(t, items, plans, []);
    if items != [] {
      var n := |items| - 1;
      assert ItemsBytes(items) + [] == ItemsBytes(items[..n]) + (ItemBytes(items[n]) + []);
      ItemsRoundTrip(t, items[..n], plans[..n], ItemBytes(items[n]) + []);
      LeftOver(ReadBack(t, plans[..n]).0, items[n], plans[n], []);
    }
  }

  lemma WholeStream(data: seq<byte>)
    ensures StartsWith(IoState(data, 0), data)
  {}

  predicate AllAllowed(ops: seq<WriteOp>) {
    forall op :: op in ops ==> Allowed(op)
  }

  /** An archive read to its end, extended and finished. */
  function Appended(items: seq<Item>, plans: seq<Plan>, ops: seq<WriteOp>): seq<byte>
    requires forall p :: p in plans ==> |p.heap| == 0x1_0000
  {
    StartReading(Run(Reopened(items, plans), ops)).0.io.data
  }

  /** What an appended archive should hold. */
  function OldAndNew(items: seq<Item>, ops: seq<WriteOp>): seq<byte> {
    MARKER + ItemsBytes(items + Written(ops))
  }

  lemma AppendedClean(items: seq<Item>, plans: seq<Plan>, ops: seq<WriteOp>)
    requires (forall i :: i in items ==> Measured(i)) && AdequateAll(plans, items) && LeavesNothing(items)
    requires AllAllowed(ops)
    ensures forall p :: p in plans ==> |p.heap| == 0x1_0000
    ensures Appended(items, plans, ops) == OldAndNew(items, ops)
  {
    hide Overwrite, ItemsBytes, Run, LogRun, Allowed, Counts, Closed, Finish, ItemBytes, Reopened, AdequateAll,
      Measured, Canon;
    ReopenedState(items, plans);
    var w := Reopened(items, plans);
    var data := MARKER + ItemsBytes(items);
    var l := Log([], None, CLEAN);
    WritingPhase(w, ops);
    var m := LogRun(l, ops);
    if m.open.Some? {
      FinishRefines(Run(w, ops), data, |data|, m);
    }
    ItemsAppend(items, Written(ops));
    OverwriteAtEnd(data, ItemsBytes(Written(ops)));
  }

  lemma LeftByIff(items: seq<Item>)
    requires forall i :: i in items ==> Measured(i)
    ensures LeftBy(items) == CLEAN <==> LeavesNothing(items)
  {
    hide Measured, Canon;
    if LeftBy(items) == CLEAN && items != [] {
      assert |items[|items| - 1].added| == 0;
    }
  }

  lemma OverwriteAtEnd(data: seq<byte>, b: seq<byte>)
    ensures Overwrite(data, |data|, b) == data + b
  {}

  /** A record that announces an eight-byte size and a CRC, and gets no data. */
  const PROBE: Rec := Rec(0, 0x44, 0xE0, 0, 0, 0, [])

  lemma ProbeFlags()
    ensures HasAddedSize(PROBE.headFlags) && HasAddedDataCrc(PROBE.headFlags) && HasAddedSize8(PROBE.headFlags)
    ensures Legal(PROBE) && Allowed(OpRecord(PROBE)) && Allowed(OpFinish)
  {}

  /** Writing that record after the archive shows whatever the counters hold. */
  lemma ProbeShows(items: seq<Item>, plans: seq<Plan>)
    requires (forall i :: i in items ==> Measured(i)) && AdequateAll(plans, items)
    ensures forall p :: p in plans ==> |p.heap| == 0x1_0000
    ensures var ops := Streaming(PROBE, []);
            AllAllowed(ops)
            && (Appended(items, plans, ops) == OldAndNew(items, ops) ==> LeftBy(items) == CLEAN)
  {
    hide ItemsBytes, Appended, OldAndNew, AdequateAll, Measured, LeftBy, Closed, Fixed, Streaming, AllAllowed;
    ProbeStream(items, plans);
    ProbeDecides(LeftBy(items));
    var data := MARKER + ItemsBytes(items);
    var i := Item(Fixed(PROBE), []);
    var x, y := ItemsBytes([Closed(LeftBy(items), i)]), ItemsBytes([Closed(CLEAN, i)]);
    if data + x == data + y {
      assert x == (data + x)[|data|..] == y;
    }
  }

  lemma ProbeStream(items: seq<Item>, plans: seq<Plan>)
    requires (forall i :: i in items ==> Measured(i)) && AdequateAll(plans, items)
    ensures forall p :: p in plans ==> |p.heap| == 0x1_0000
    ensures var ops, data, i := Streaming(PROBE, []), MARKER + ItemsBytes(items), Item(Fixed(PROBE), []);
            && AllAllowed(ops) && Appended(items, plans, ops) == data + ItemsBytes([Closed(LeftBy(items), i)])
            && OldAndNew(items, ops) == data + ItemsBytes([Closed(CLEAN, i)])
  {
    hide Overwrite, ItemsBytes, Run, LogRun, Allowed, ItemBytes, Reopened, AdequateAll, Measured, LeftBy, Closed,
      Fixed, HasAddedSize, HasAddedDataCrc, HasAddedSize8;
    ReopenedState(items, plans);
    ProbeFlags();
    var w := Reopened(items, plans);
    var data, ops := MARKER + ItemsBytes(items), Streaming(PROBE, []);
    StreamedIo(w, PROBE, []);
    StreamedEnds(w, PROBE, []);
    StreamedLog(Log([], None, CLEAN), PROBE, []);
    ItemsAppend(items, Written(ops));
    OverwriteAtEnd(data, ItemsBytes([Closed(LeftBy(items), Item(Fixed(PROBE), []))]));
  }

  lemma ProbeDecides(carry: Carry)
    ensures var i := Item(Fixed(PROBE), []);
            ItemsBytes([Closed(carry, i)]) == ItemsBytes([Closed(CLEAN, i)]) ==> carry == CLEAN
  {
    hide ItemsBytes, Closed, Fixed, ToBytes, HasAddedSize, HasAddedDataCrc, HasAddedSize8;
    var i := Item(Fixed(PROBE), []);
    var x, y := Closed(carry, i), Closed(CLEAN, i);
    ProbeFlags();
    FixedKeeps(PROBE);
    OneItemBytes(x);
    OneItemBytes(y);
    ClosedKeepsAdded(carry, i);
    ClosedKeepsAdded(CLEAN, i);
    PatchedRightIff(carry, i);
    assert ToBytes(x.rec) + [] == ToBytes(x.rec) && ToBytes(y.rec) + [] == ToBytes(y.rec);
  }

  lemma StreamedEnds(s: State, r: Rec, chunks: seq<seq<byte>>)
    requires s.ps.WriteRecord?
    requires Legal(r) && HasAddedSize(r.headFlags) && forall c :: c in chunks ==> |c| < TWO_64
    ensures StartReading(Run(s, Streaming(r, chunks))).0.io == Run(s, Streaming(r, chunks)).io
  {
    hide Run, LogRun, HasAddedSize, Closed, Streamed, HeaderLen, Holds, ItemsBytes;
    WritingPhase(s, Streaming(r, chunks));
    StreamedLog(Start(s), r, chunks);
  }

  /** Appending: an archive read to its end and extended holds the old items and then the new ones, for
      every sequence of writer calls, exactly when the record read last leaves nothing behind. */
  lemma AppendedArchive(items: seq<Item>, plans: seq<Plan>)
    requires (forall i :: i in items ==> Measured(i)) && AdequateAll(plans, items)
    ensures forall p :: p in plans ==> |p.heap| == 0x1_0000
    ensures (forall ops :: AllAllowed(ops) ==> Appended(items, plans, ops) == OldAndNew(items, ops))
       <==> LeavesNothing(items)
  {
    hide Appended, OldAndNew, ItemsBytes, AllAllowed, Measured, AdequateAll, Canon, LeavesNothing, LeftBy;
    ProbeShows(items, plans);
    LeftByIff(items);
    if LeavesNothing(items) {
      forall ops | AllAllowed(ops)
        ensures Appended(items, plans, ops) == OldAndNew(items, ops)
      {
        AppendedClean(items, plans, ops);
      }
    }
  }

  // ---- two such archives ----

  /** A fragment record of a given declared size. */
  function Fragment(declared: u16): Rec {
    Rec(0, 0x44, 0x80, 0, declared, 0, [])
  }

  /** An archive of one fragment record with `n` bytes of added data and a four-byte size. */
  function OneFragment(n: u16): Item {
    Item(Fixed(Fragment(n)), Zeros(n))
  }

  /** Opening it, finding the marker, reading the record, and switching to writing. */
  function AfterFragment(n: u16): State {
    var s := FindMarker(StartReading(Fresh(MARKER + ItemBytes(OneFragment(n)))).0).0;
    StartWriting(ReadOne(s, Plan(Zeros(0x1_0000), [n])).0).0
  }

  lemma FragmentFlags()
    ensures HasAddedSize(0x80) && !HasAddedDataCrc(0x80) && HasAddedSize4(0x80) && !HasAddedSize8(0x80)
  {}

  lemma FragmentIs(n: u16)
    ensures var i := OneFragment(n);
            && Measured(i) && HasAddedSize(i.rec.headFlags) && Canon(i.rec).addedDataCRC32 == 0
  {
    hide Fixed, HasAddedSize, HasAddedDataCrc, HasAddedSize4, HasAddedSize8, Zeros, Validated, Consistent;
    var q := Fragment(n);
    FragmentFlags();
    FixedKeeps(q);
    FixedIsConsistent(q);
  }

  lemma FragmentFound(n: u16)
    ensures var i := OneFragment(n);
            var (s, err) := FindMarker(StartReading(Fresh(MARKER + ItemBytes(i))).0);
            err.Ok? && s.ps.ReadRecordHeader? && StartsWith(s.io, ItemBytes(i) + [])
  {
    hide OneFragment, ItemBytes, FirstMarker, StartsWith;
    var i, data := OneFragment(n), MARKER + ItemBytes(OneFragment(n));
    assert MARKER + (ItemBytes(i) + []) == data;
    WholeStream(data);
    MarkerFirst(data, ItemBytes(i) + []);
  }

  /** Streaming another such record right after it. */
  lemma AfterFragmentIff(n: u16, declared: u16, chunk: seq<byte>)
    requires |chunk| < TWO_64
    ensures var ops := Streaming(Fragment(declared), [chunk]);
            var w := AfterFragment(n);
            && w.ps.WriteRecord? && w.done == n && w.crc == 0
            && (Run(w, ops).io == Run(w.(done := 0, crc := 0), ops).io
                <==> if declared == 0 then n == 0 else RoomUnaffected(declared, n, |chunk|))
  {
    hide OneFragment, ItemBytes, FindMarker, StartReading, Run, ReadOne, StartWriting, HasAddedSize, HasAddedDataCrc,
      HasAddedSize4, HasAddedSize8, StartsWith, RoomUnaffected, Zeros, Streaming, Measured, Canon;
    var i := OneFragment(n);
    FragmentIs(n);
    FragmentFound(n);
    FragmentFlags();
    var s := FindMarker(StartReading(Fresh(MARKER + ItemBytes(i))).0).0;
    var plan := Plan(Zeros(0x1_0000), [n]);
    assert [n][..0] == [] && Sum([n]) == n;
    OneChunk(chunk);
    LengthOfFragment(n);
    LeftOver(s, i, plan, []);
    WritingAfterReadingIff(s, i, plan, [], Fragment(declared), [chunk]);
  }

  lemma LengthOfFragment(n: u16)
    ensures |OneFragment(n).added| == n
  {}

  lemma OneChunk(chunk: seq<byte>)
    ensures Concat([chunk]) == chunk
  {
    assert [chunk][..0] == [] && [] + chunk == chunk;
  }

  /** After one byte read, a record streamed without a declared size gets a wrong one. */
  lemma LeftOverExample()
    ensures FindMarker(StartReading(Fresh(MARKER + ItemBytes(OneFragment(1)))).0).1.Ok?
    ensures var ops := Streaming(Fragment(0), [[0x79]]);
            var w := AfterFragment(1);
            Run(w, ops).io != Run(w.(done := 0, crc := 0), ops).io
  {
    hide AfterFragment, Run, Streaming, OneFragment, FindMarker;
    FragmentFound(1);
    AfterFragmentIff(1, 0, [0x79]);
  }

  /** After ten bytes read, a record declared with twenty bytes takes only ten of the twenty offered, while
      its header goes on to say twenty. */
  lemma DeclaredSizeExample()
    ensures FindMarker(StartReading(Fresh(MARKER + ItemBytes(OneFragment(10)))).0).1.Ok?
    ensures var ops := Streaming(Fragment(20), [Zeros(20)]);
            var w := AfterFragment(10);
            var i := Streamed(Carry(10, 0), Fragment(20), [Zeros(20)]);
            && Run(w, ops).io != Run(w.(done := 0, crc := 0), ops).io
            && LogRun(Start(w), ops).items == [i] && |i.added| == 10 && i.rec.addedSize == 20 && !Measured(i)
  {
    hide AfterFragment, Run, LogRun, Streaming, Fixed, HasAddedSize, HasAddedDataCrc, HasAddedSize4, HasAddedSize8,
      Consistent, Zeros, OneFragment, FindMarker;
    FragmentFound(10);
    AfterFragmentIff(10, 20, Zeros(20));
    FragmentFlags();
    FixedKeeps(Fragment(20));
    StreamedLog(Start(AfterFragment(10)), Fragment(20), [Zeros(20)]);
    KeptHeader(Carry(10, 0), Streamed(Carry(10, 0), Fragment(20), [Zeros(20)]));
    OneChunk(Zeros(20));
  }
}
