/**
  End to end: what any run of the writer leaves in the stream, the reader gives back.
  */
module RoundTrip {
  import opened Words
  import opened Crc32c
  import opened Burst
  import opened BytePack
  import opened Stream
  import opened Record
  import opened Machine
  import opened Writer
  import opened WriterLaws
  import opened Reader

  // ---- finding the marker ----

  /** The search finds the first occurrence, and fails only where there is none. */
  lemma {:induction false} FirstMarkerExact(data: seq<byte>, p: nat)
    ensures match FirstMarker(data, p)
            case Some(q) => p <= q && MarkerAt(data, q) && forall k: nat :: p <= k < q ==> !MarkerAt(data, k)
            case None => forall k: nat :: p <= k ==> !MarkerAt(data, k)
    decreases |data| - p
  {
    if p + 6 <= |data| && !MarkerAt(data, p) {
      FirstMarkerExact(data, p + 1);
    }
  }

  /** Looking for the marker succeeds exactly when the rest of the stream contains it, and stops just
      behind its first occurrence; otherwise everything is consumed. */
  lemma FindMarkerExact(s: State)
    requires s.ps.ReadMarker? && s.io.pos <= |s.io.data|
    ensures var (t, err) := FindMarker(s);
            && (err.Ok? <==> exists k: nat :: s.io.pos <= k && MarkerAt(s.io.data, k))
            && (err.Ok? ==> t.ps.ReadRecordHeader? && t.io.pos >= s.io.pos + 6 && MarkerAt(s.io.data, t.io.pos - 6)
                            && forall k: nat :: s.io.pos <= k < t.io.pos - 6 ==> !MarkerAt(s.io.data, k))
            && (!err.Ok? ==> err.InvalidFormat? && t == s.(io := s.io.(pos := |s.io.data|)))
  {
    hide MarkerAt;
    FirstMarkerExact(s.io.data, s.io.pos);
  }

  // ---- one item ----

  /** An item whose header tells the truth about its lengths. */
  predicate Measured(i: Item) {
    Consistent(i.rec) && Shown(i.rec.headFlags, i.rec.addedSize) == |i.added|
  }

  /** An item whose header tells the truth about it. */
  predicate Sound(i: Item) {
    && Measured(i) && Validated(i.rec)
    && (HasAddedSize(i.rec.headFlags) && HasAddedDataCrc(i.rec.headFlags) ==> i.rec.addedDataCRC32 == Crc(0, i.added))
  }

  /** How a caller reads one record: the memory it gets for the data and its buffer sizes. */
  datatype Plan = Plan(heap: seq<byte>, sizes: seq<nat>)

  datatype Got = Got(err: KcfError, rec: Rec, added: seq<byte>, stored: bv32, computed: bv32)

  function ReadOne(s: State, plan: Plan): (State, Got)
    requires |plan.heap| == 0x1_0000
  {
    var (t, err, r) := GetRecord(s, plan.heap);
    if err.Ok? && t.ps.ReadAddedData? then
      var (u, out) := ReadCalls(t, plan.sizes);
      (u, Got(err, r, out, u.crc, u.actual))
    else (t, Got(err, r, [], t.crc, t.actual))
  }

  /** The buffers are large enough for the added data, and where there is a size field at least one call
      is made. */
  predicate Adequate(plan: Plan, i: Item) {
    |plan.heap| == 0x1_0000 && (HasAddedSize(i.rec.headFlags) ==> plan.sizes != [] && Sum(plan.sizes) >= |i.added|)
  }

  function Expected(i: Item): Got {
    Got(Ok, Canon(i.rec), i.added, Canon(i.rec).addedDataCRC32, Crc(0, i.added))
  }

  /** A record read back validates, and where it stores the CRC of its added data, that is the CRC computed
      while reading. */
  predicate Confirmed(g: Got) {
    && Validated(g.rec)
    && (HasAddedSize(g.rec.headFlags) && HasAddedDataCrc(g.rec.headFlags) ==> g.stored == g.computed)
  }

  lemma NoSizeShowsNothing(flags: byte, v: nat)
    requires !HasAddedSize(flags)
    ensures Shown(flags, v) == 0
  {
    SizeFlags(flags);
  }

  lemma StartsWithSplit(io: IoState, b: seq<byte>)
    requires StartsWith(io, b)
    ensures io.pos + |b| <= |io.data| && io.data[io.pos..io.pos + |b|] == b
  {}

  lemma ItemRoundTrip(s: State, i: Item, plan: Plan, rest: seq<byte>)
    requires s.ps.ReadRecordHeader? && Measured(i) && Adequate(plan, i) && StartsWith(s.io, ItemBytes(i) + rest)
    ensures var (t, got) := ReadOne(s, plan);
            && got == Expected(i) && t.ps.ReadRecordHeader? && StartsWith(t.io, rest)
            && t.io == s.io.(pos := s.io.pos + |ItemBytes(i)|)
  {
    hide ToBytes, HasAddedSize, HasAddedDataCrc, Validated, Consistent, StartsWith, GetRecord, ReadCalls, Shown, Crc;
    assert ItemBytes(i) + rest == ToBytes(i.rec) + (i.added + rest);
    RecordRoundTrip(s, i.rec, plan.heap, i.added + rest);
    var t := GetRecord(s, plan.heap).0;
    AheadOf(t.io, i.added, rest);
    Shorter(t.io, i.added, rest);
    StartsWithSplit(t.io, i.added);
    CrcEmpty(0);
    if HasAddedSize(i.rec.headFlags) {
      ReadConserves(t, plan.sizes);
    } else {
      NoSizeShowsNothing(i.rec.headFlags, i.rec.addedSize);
    }
  }

  // ---- whole archives ----

  function ReadBack(s: State, plans: seq<Plan>): (State, seq<Got>)
    requires forall p :: p in plans ==> |p.heap| == 0x1_0000
  {
    if plans == [] then (s, [])
    else
      var (t, got) := ReadBack(s, plans[..|plans| - 1]);
      var (u, last) := ReadOne(t, plans[|plans| - 1]);
      (u, got + [last])
  }

  function ExpectedAll(items: seq<Item>): seq<Got> {
    seq(|items|, k requires 0 <= k < |items| => Expected(items[k]))
  }

  predicate AdequateAll(plans: seq<Plan>, items: seq<Item>) {
    |plans| == |items| && forall k :: 0 <= k < |plans| ==> Adequate(plans[k], items[k])
  }

  lemma {:induction false} ItemsRoundTrip(s: State, items: seq<Item>, plans: seq<Plan>, rest: seq<byte>)
    requires s.ps.ReadRecordHeader? && (forall i :: i in items ==> Measured(i)) && AdequateAll(plans, items)
    requires StartsWith(s.io, ItemsBytes(items) + rest)
    ensures forall p :: p in plans ==> |p.heap| == 0x1_0000
    ensures var (t, got) := ReadBack(s, plans);
            && got == ExpectedAll(items) && t.ps.ReadRecordHeader? && StartsWith(t.io, rest)
            && t.io == s.io.(pos := s.io.pos + |ItemsBytes(items)|)
  {
    hide Measured, Adequate, Expected, ReadOne, StartsWith, ItemBytes;
    AdequateHeaps(plans, items);
    if items == [] {
      assert ItemsBytes(items) + rest == rest;
    } else {
      var n := |items| - 1;
      assert ItemsBytes(items) + rest == ItemsBytes(items[..n]) + (ItemBytes(items[n]) + rest);
      ItemsRoundTrip(s, items[..n], plans[..n], ItemBytes(items[n]) + rest);
      ItemRoundTrip(ReadBack(s, plans[..n]).0, items[n], plans[n], rest);
      assert ExpectedAll(items) == ExpectedAll(items[..n]) + [Expected(items[n])];
    }
  }

  lemma AdequateHeaps(plans: seq<Plan>, items: seq<Item>)
    requires AdequateAll(plans, items)
    ensures forall p :: p in plans ==> |p.heap| == 0x1_0000
  {
    forall p | p in plans
      ensures |p.heap| == 0x1_0000
    {
      var k :| 0 <= k < |plans| && plans[k] == p;
      assert Adequate(plans[k], items[k]);
    }
  }

  /** The items a run of writer calls on a new archive leaves once it is finished. */
  function Written(ops: seq<WriteOp>): seq<Item> {
    Close(LogRun(Log([], None, CLEAN), ops)).items
  }

  /** The stream after opening a handle for writing, the calls, and switching to reading. */
  function ArchiveStream(base: seq<byte>, ops: seq<WriteOp>): IoState {
    StartReading(Run(StartWriting(Fresh(base)).0, ops)).0.io
  }

  /** The archive is the marker and the finished items, whatever the sequence of calls. */
  lemma ArchiveLayout(base: seq<byte>, ops: seq<WriteOp>)
    requires forall op :: op in ops ==> Allowed(op)
    ensures Holds(ArchiveStream(base, ops), base, 0, MARKER + ItemsBytes(Written(ops)))
  {
    hide Overwrite, ItemsBytes, Run, LogRun, Allowed, Counts, Closed, Finish, ItemBytes, FirstMarker;
    var s := StartWriting(Fresh(base)).0;
    var l := Log([], None, CLEAN);
    var based := Overwrite(base, 0, MARKER);
    EmptyItems();
    assert s.io == IoState(based, 6);
    WritingPhase(s, ops);
    var w := Run(s, ops);
    var m := LogRun(l, ops);
    if m.open.Some? {
      FinishRefines(w, based, 6, m);
    }
    OverwriteAppend(base, 0, MARKER, ItemsBytes(Written(ops)));
  }

  lemma EmptyItems()
    ensures ItemsBytes([]) == []
  {}

  lemma HoldsStartsWith(io: IoState, base: seq<byte>, b: seq<byte>)
    requires Holds(io, base, 0, b)
    ensures exists rest :: StartsWith(IoState(io.data, 0), b + rest)
  {
    OverwriteFrame(base, 0, b);
    var rest := io.data[|b|..];
    assert io.data[0..|b + rest|] == b + rest;
    assert StartsWith(IoState(io.data, 0), b + rest);
  }

  lemma MarkerFirst(data: seq<byte>, rest: seq<byte>)
    requires StartsWith(IoState(data, 0), MARKER + rest)
    ensures FirstMarker(data, 0) == Some(0) && StartsWith(IoState(data, 6), rest)
  {
    AheadOf(IoState(data, 0), MARKER, rest);
    assert data[0..6] == MARKER;
  }

  lemma SoundMeasured(items: seq<Item>)
    ensures (forall i :: i in items ==> Sound(i)) ==> forall i :: i in items ==> Measured(i)
  {
    hide Validated, Consistent, Crc, Shown;
  }

  lemma SoundIsExpected(i: Item)
    requires Sound(i)
    ensures Confirmed(Expected(i))
  {
    hide Validated, Crc, HasAddedSize, HasAddedDataCrc;
    CanonValidates(i.rec);
    CanonKeeps(i.rec);
  }

  // ---- which runs leave sound archives ----

  /** The open record may be finished as it is: where the header will not be patched, the declared size has
      been written in full; where it will, the count fits the size field. */
  predicate MayFinish(i: Item) {
    if i.rec.addedSize > 0 && !HasAddedDataCrc(i.rec.headFlags)
    then Shown(i.rec.headFlags, i.rec.addedSize) == |i.added|
    else |i.added| < if HasAddedSize8(i.rec.headFlags) then TWO_64 else 0x1_0000_0000
  }

  /** An open record as the log keeps it. */
  predicate OpenOk(i: Item) {
    Legal(i.rec) && Fixed(i.rec) == i.rec && HasAddedSize(i.rec.headFlags)
  }

  lemma ShownFits(flags: byte, n: nat)
    requires HasAddedSize(flags)
    ensures Shown(flags, Wrap(n)) == n <==> n < if HasAddedSize8(flags) then TWO_64 else 0x1_0000_0000
  {
    hide HasAddedSize, HasAddedSize8, HasAddedSize4;
    SizeFlags(flags);
    ModMod(n);
  }

  lemma FixedIsConsistent(r: Rec)
    requires Legal(r)
    ensures Consistent(Fixed(r)) && Validated(Fixed(r))
  {
    hide HeaderLen, ToBytes, HeaderCrc;
    FixedFacts(r);
    ToBytesLength(Fixed(r));
  }

  /** Finishing a record gives a sound item exactly when the caller could have told so beforehand. */
  lemma ClosedSoundIff(i: Item)
    requires OpenOk(i)
    ensures Sound(Closed(CLEAN, i)) <==> MayFinish(i)
  {
    hide Consistent, Validated, HasAddedSize, HasAddedSize8, HasAddedDataCrc, Shown, Fixed, HeaderLen, Crc;
    if KeepsHeader(i.rec) {
      FixedIsConsistent(i.rec);
    } else {
      var p := i.rec.(addedSize := Wrap(|i.added|), addedDataCRC32 := RunningCrc(CLEAN, i));
      FixedKeeps(p);
      FixedIsConsistent(p);
      ShownFits(i.rec.headFlags, |i.added|);
    }
  }

  lemma PlainSound(r: Rec)
    requires Legal(r) && !HasAddedSize(r.headFlags)
    ensures Sound(Item(Fixed(r), []))
  {
    hide Consistent, Validated, HasAddedSize, Fixed, HeaderLen, Shown;
    FixedKeeps(r);
    FixedIsConsistent(r);
    NoSizeShowsNothing(r.headFlags, Fixed(r).addedSize);
  }

  lemma AddedFlags(flags: byte)
    ensures !HasAddedSize(ClearAdded(flags))
    ensures HasAddedSize8(SetAddedSize8(flags)) && HasAddedDataCrc(SetAddedSize8(flags)) == HasAddedDataCrc(flags)
    ensures HasAddedSize(SetAddedSize4(flags)) && HasAddedDataCrc(SetAddedSize4(flags)) == HasAddedDataCrc(flags)
    ensures HasAddedSize(SetAddedSize8(flags))
  {}

  /** A record written together with its data is always sound. */
  lemma TogetherSound(r: Rec, added: seq<byte>)
    requires Allowed(OpRecordWith(r, added))
    ensures Sound(Item(WithAdded(r, added), added))
  {
    hide Consistent, Validated, HasAddedSize, HasAddedSize8, HasAddedDataCrc, Fixed, HeaderLen, Shown, Crc,
      ClearAdded, SetAddedSize8, SetAddedSize4;
    var q := BeforeFix(r, added);
    AddedFlags(r.headFlags);
    FixedKeeps(q);
    FixedIsConsistent(q);
    if added == [] {
      NoSizeShowsNothing(q.headFlags, q.addedSize);
    } else {
      ShownFits(q.headFlags, |added|);
    }
  }

  /** The calls that finish an open record. */
  predicate Finishes(op: WriteOp) {
    !op.OpAdded?
  }

  predicate MayClose(l: Log) {
    l.open.Some? ==> MayFinish(l.open.value)
  }

  /** Every record was fit to be finished when the call came that finished it. */
  predicate WellRun(l: Log, ops: seq<WriteOp>) {
    ops == [] ||
    var front := ops[..|ops| - 1];
    WellRun(l, front) && (Finishes(ops[|ops| - 1]) ==> MayClose(LogRun(l, front)))
  }

  predicate AllSound(items: seq<Item>) {
    forall i :: i in items ==> Sound(i)
  }

  predicate LogOk(l: Log) {
    l.carry == CLEAN && (l.open.Some? ==> OpenOk(l.open.value))
  }

  lemma CloseSoundIff(l: Log)
    requires LogOk(l)
    ensures LogOk(Close(l)) && Close(l).open.None?
    ensures AllSound(Close(l).items) <==> AllSound(l.items) && MayClose(l)
  {
    hide Sound, MayFinish, OpenOk, Closed;
    if l.open.Some? {
      var c := Closed(CLEAN, l.open.value);
      ClosedSoundIff(l.open.value);
      SnocSound(l.items, c);
    }
  }

  lemma SnocSound(items: seq<Item>, i: Item)
    ensures AllSound(items + [i]) <==> AllSound(items) && Sound(i)
  {
    hide Sound;
    assert i in items + [i];
    assert forall j :: j in items ==> j in items + [i];
  }

  lemma StepSoundIff(l: Log, op: WriteOp)
    requires LogOk(l) && Allowed(op)
    ensures LogOk(LogStep(l, op))
    ensures AllSound(LogStep(l, op).items) <==> AllSound(l.items) && (Finishes(op) ==> MayClose(l))
  {
    hide Sound, MayFinish, Closed, Close, Fixed, WithAdded, HeaderLen, HasAddedSize, MayClose, AllSound;
    CloseSoundIff(l);
    match op {
      case OpRecord(r) =>
        FixedKeeps(r);
        FixedFacts(r);
        if !HasAddedSize(r.headFlags) {
          PlainSound(r);
          SnocSound(Close(l).items, Item(Fixed(r), []));
        }
      case OpRecordWith(r, added) =>
        TogetherSound(r, added);
        SnocSound(Close(l).items, Item(WithAdded(r, added), added));
      case OpAdded(chunk) =>
      case OpFinish =>
    }
  }

  lemma {:induction false} RunSoundIff(l: Log, ops: seq<WriteOp>)
    requires LogOk(l) && AllSound(l.items) && forall op :: op in ops ==> Allowed(op)
    ensures LogOk(LogRun(l, ops))
    ensures AllSound(LogRun(l, ops).items) <==> WellRun(l, ops)
  {
    hide LogStep, Allowed, LogOk, AllSound, MayClose;
    if ops != [] {
      var front := ops[..|ops| - 1];
      RunSoundIff(l, front);
      StepSoundIff(LogRun(l, front), ops[|ops| - 1]);
    }
  }

  /** The condition of the archive round trip in the caller's terms: the items of a run are sound exactly
      when no record was finished before its declared size was written, or beyond its size field. */
  lemma WrittenSoundIff(ops: seq<WriteOp>)
    requires forall op :: op in ops ==> Allowed(op)
    ensures (forall i :: i in Written(ops) ==> Sound(i))
       <==> WellRun(Log([], None, CLEAN), ops) && MayClose(LogRun(Log([], None, CLEAN), ops))
  {
    hide Sound, LogRun, WellRun, MayClose, Close, Allowed;
    var l := Log([], None, CLEAN);
    RunSoundIff(l, ops);
    CloseSoundIff(LogRun(l, ops));
  }

  /** Archive round trip.  For every sequence of writer calls, in any chunking, that finishes no record
      before its declared size is written or beyond its size field, and for any buffer sizes of the
      reader: a new handle on the stream finds the marker and reads back the same records and the same
      added data; every record validates as it was written, and the CRC computed while reading is the one
      stored. */
  lemma ArchiveRoundTrip(base: seq<byte>, ops: seq<WriteOp>, plans: seq<Plan>)
    requires forall op :: op in ops ==> Allowed(op)
    requires WellRun(Log([], None, CLEAN), ops) && MayClose(LogRun(Log([], None, CLEAN), ops))
    requires AdequateAll(plans, Written(ops))
    ensures forall p :: p in plans ==> |p.heap| == 0x1_0000
    ensures var (t, err) := FindMarker(StartReading(Fresh(ArchiveStream(base, ops).data)).0);
            err.Ok? && ReadBack(t, plans).1 == ExpectedAll(Written(ops)) && ReadBack(t, plans).0.ps.ReadRecordHeader?
    ensures forall k :: 0 <= k < |plans| ==> Confirmed(ExpectedAll(Written(ops))[k])
  {
    hide Overwrite, ItemsBytes, Written, ArchiveStream, Holds, FirstMarker, StartsWith, ReadBack, Allowed, Sound,
      Adequate, Validated,
      HasAddedSize, HasAddedDataCrc, Crc, WellRun, MayClose, LogRun;
    WrittenSoundIff(ops);
    var io := ArchiveStream(base, ops);
    var items := Written(ops);
    ArchiveLayout(base, ops);
    HoldsStartsWith(io, base, MARKER + ItemsBytes(items));
    var rest :| StartsWith(IoState(io.data, 0), MARKER + ItemsBytes(items) + rest);
    assert MARKER + ItemsBytes(items) + rest == MARKER + (ItemsBytes(items) + rest);
    MarkerFirst(io.data, ItemsBytes(items) + rest);
    var t := FindMarker(StartReading(Fresh(io.data)).0).0;
    SoundMeasured(items);
    ItemsRoundTrip(t, items, plans, rest);
    forall k | 0 <= k < |plans|
      ensures Confirmed(ExpectedAll(items)[k])
    {
      SoundIsExpected(items[k]);
    }
  }

  /** An item reads back as it was written exactly when its size field shows the length of its data. */
  lemma ItemReadIff(s: State, i: Item, plan: Plan, rest: seq<byte>)
    requires s.ps.ReadRecordHeader? && |plan.heap| == 0x1_0000 && Consistent(i.rec) && HasAddedSize(i.rec.headFlags)
    requires StartsWith(s.io, ItemBytes(i) + rest) && Shown(i.rec.headFlags, i.rec.addedSize) <= |i.added + rest|
    requires plan.sizes != [] && Sum(plan.sizes) >= Shown(i.rec.headFlags, i.rec.addedSize)
    ensures ReadOne(s, plan).1.added == i.added <==> Shown(i.rec.headFlags, i.rec.addedSize) == |i.added|
    ensures ReadOne(s, plan).1.added == (i.added + rest)[..Shown(i.rec.headFlags, i.rec.addedSize)]
  {
    hide ToBytes, HasAddedSize, HasAddedDataCrc, Consistent, StartsWith, GetRecord, ReadCalls, Shown, Crc;
    assert ItemBytes(i) + rest == ToBytes(i.rec) + (i.added + rest);
    RecordRoundTrip(s, i.rec, plan.heap, i.added + rest);
    var t := GetRecord(s, plan.heap).0;
    var n := Shown(i.rec.headFlags, i.rec.addedSize);
    StartsWithSplit(t.io, i.added + rest);
    ReadConserves(t, plan.sizes);
    assert t.io.data[t.io.pos..t.io.pos + n] == t.io.data[t.io.pos..t.io.pos + |i.added + rest|][..n];
    if n == |i.added| {
      assert (i.added + rest)[..n] == i.added;
    }
  }

  /** Damage confined to 32 consecutive bits of added data stored with its CRC shows when it is read: the
      CRC computed differs from the one stored. */
  lemma DamageShows(s: State, i: Item, plan: Plan, rest: seq<byte>, damaged: seq<byte>, p: nat)
    requires s.ps.ReadRecordHeader? && Measured(i) && Adequate(plan, i)
    requires HasAddedSize(i.rec.headFlags) && HasAddedDataCrc(i.rec.headFlags)
    requires i.rec.addedDataCRC32 == Crc(0, i.added)
    requires SameOutside(i.added, damaged, p) && damaged != i.added
    requires StartsWith(s.io, ToBytes(i.rec) + damaged + rest)
    ensures var g := ReadOne(s, plan).1;
            g.err.Ok? && g.added == damaged && g.stored == i.rec.addedDataCRC32 && g.computed != g.stored
  {
    hide ToBytes, HasAddedSize, HasAddedDataCrc, Validated, Consistent, StartsWith, GetRecord, ReadCalls, Shown, Crc,
      Bits;
    assert ToBytes(i.rec) + damaged + rest == ToBytes(i.rec) + (damaged + rest);
    RecordRoundTrip(s, i.rec, plan.heap, damaged + rest);
    var t := GetRecord(s, plan.heap).0;
    Shorter(t.io, damaged, rest);
    StartsWithSplit(t.io, damaged);
    ReadConserves(t, plan.sizes);
    BurstDetected(0, i.added, damaged, p);
  }
}
