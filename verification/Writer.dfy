/**
  What a writing phase leaves in the stream, for every sequence of calls: the items of a log, each with
  the header that fits its added data.
  */
module Writer {
  import opened Words
  import opened Crc32c
  import opened BytePack
  import opened Stream
  import opened Record
  import opened Machine

  // ---- the log ----

  /** A record as it lies in the stream, and its added data. */
  datatype Item = Item(rec: Rec, added: seq<byte>)

  function ItemBytes(i: Item): seq<byte> {
    ToBytes(i.rec) + i.added
  }

  function ItemsBytes(items: seq<Item>): seq<byte> {
    if items == [] then [] else ItemsBytes(items[..|items| - 1]) + ItemBytes(items[|items| - 1])
  }

  /** What the counters held when the next record with added data begins: nothing, unless the handle was
      reading before. */
  datatype Carry = Carry(bytes: u64, crc: bv32)

  const CLEAN := Carry(0, 0)

  /** The items finished so far, the open one, and the counters' starting values. */
  datatype Log = Log(items: seq<Item>, open: Option<Item>, carry: Carry)

  /** The running CRC of an open item. */
  function RunningCrc(carry: Carry, i: Item): bv32 {
    if HasAddedDataCrc(i.rec.headFlags) then Crc(carry.crc, i.added) else carry.crc
  }

  /** The header keeps its declared size if there is one and no CRC has to be filled in. */
  predicate KeepsHeader(r: Rec) {
    r.addedSize > 0 && !HasAddedDataCrc(r.headFlags)
  }

  /** The finished item. */
  function Closed(carry: Carry, i: Item): Item {
    if KeepsHeader(i.rec) then i
    else i.(rec := Fixed(i.rec.(addedSize := Wrap(carry.bytes + |i.added|), addedDataCRC32 := RunningCrc(carry, i))))
  }

  function Close(l: Log): Log {
    match l.open
    case None => l
    case Some(i) => Log(l.items + [Closed(l.carry, i)], None, CLEAN)
  }

  /** How much of a chunk of `n` bytes an open item takes. */
  function Takes(carry: Carry, i: Item, n: nat): (k: nat)
    ensures k <= n
  {
    Room(i.rec.addedSize, Wrap(carry.bytes + |i.added|), n)
  }

  function Extend(carry: Carry, i: Item, chunk: seq<byte>): Item {
    i.(added := i.added + chunk[..Takes(carry, i, |chunk|)])
  }

  datatype WriteOp =
    | OpRecord(r: Rec)
    | OpRecordWith(r: Rec, added: seq<byte>)
    | OpAdded(chunk: seq<byte>)
    | OpFinish

  /** What a call does to the log. */
  function LogStep(l: Log, op: WriteOp): Log {
    match op
    case OpRecord(r) =>
      var c := Close(l);
      var i := Item(Fixed(r), []);
      if HasAddedSize(r.headFlags) then c.(open := Some(i)) else c.(items := c.items + [i])
    case OpRecordWith(r, added) =>
      var c := Close(l);
      c.(items := c.items + [Item(WithAdded(r, added), added)])
    case OpAdded(chunk) =>
      (match l.open
       case None => l
       case Some(i) => l.(open := Some(Extend(l.carry, i, chunk))))
    case OpFinish => Close(l)
  }

  function Step(s: State, op: WriteOp): State {
    match op
    case OpRecord(r) => PutRecord(s, r).0
    case OpRecordWith(r, added) => PutRecordWith(s, r, added).0
    case OpAdded(chunk) => PutAdded(s, chunk).0
    case OpFinish => Finish(s).0
  }

  /** What the callers of the writers must respect: a record has to fit the 16-bit size. */
  predicate Allowed(op: WriteOp) {
    match op
    case OpRecord(r) => Legal(r)
    case OpRecordWith(r, added) => Legal(BeforeFix(r, added)) && |added| < TWO_64
    case OpAdded(chunk) => |chunk| < TWO_64
    case OpFinish => true
  }

  function Run(s: State, ops: seq<WriteOp>): State {
    if ops == [] then s else Step(Run(s, ops[..|ops| - 1]), ops[|ops| - 1])
  }

  function LogRun(l: Log, ops: seq<WriteOp>): Log {
    if ops == [] then l else LogStep(LogRun(l, ops[..|ops| - 1]), ops[|ops| - 1])
  }

  // ---- the stream holds the log ----

  /** The stream is `base` with `b` written at `start`, and the position is behind it. */
  predicate Holds(io: IoState, base: seq<byte>, start: nat, b: seq<byte>) {
    io == IoState(Overwrite(base, start, b), start + |b|)
  }

  /** The counters of an open record agree with the bytes after its header. */
  predicate Counts(s: State, carry: Carry, i: Item) {
    && s.last == i.rec && Legal(i.rec) && Fixed(i.rec) == i.rec && HasAddedSize(i.rec.headFlags)
    && s.total == i.rec.addedSize && s.hasCrc == HasAddedDataCrc(i.rec.headFlags)
    && s.done == Wrap(carry.bytes + |i.added|) && s.crc == RunningCrc(carry, i)
  }

  /** The state of a writing phase that began at `start` of a stream containing `base`. */
  predicate Refines(s: State, base: seq<byte>, start: nat, l: Log) {
    var b := ItemsBytes(l.items);
    match l.open
    case None =>
      s.ps.WriteRecord? && Holds(s.io, base, start, b) && s.done == l.carry.bytes && s.crc == l.carry.crc
    case Some(i) =>
      s.ps.WriteAddedData? && Holds(s.io, base, start, b + ItemBytes(i)) && s.recordOffset == start + |b|
      && Counts(s, l.carry, i)
  }

  lemma HoldsMore(io: IoState, base: seq<byte>, start: nat, b: seq<byte>, c: seq<byte>)
    requires Holds(io, base, start, b)
    ensures Holds(AfterWrite(io, c), base, start, b + c)
  {
    hide Overwrite;
    OverwriteAppend(base, start, b, c);
  }

  lemma ItemsSnoc(items: seq<Item>, i: Item)
    ensures ItemsBytes(items + [i]) == ItemsBytes(items) + ItemBytes(i)
  {
    hide ItemBytes;
    assert (items + [i])[..|items|] == items;
  }

  /** The header rewritten by a finish has the length of the one it replaces. */
  lemma PatchedLength(s: State, carry: Carry, i: Item)
    requires Counts(s, carry, i) && !KeepsHeader(i.rec)
    ensures Patches(s) && Patched(s) == Closed(carry, i).rec
    ensures |ToBytes(Patched(s))| == |ToBytes(i.rec)|
  {
    hide Fixed, ToBytes, RunningCrc, HasAddedDataCrc, HeaderLen, HasAddedSize;
    FixedKeeps(s.last.(addedSize := s.done, addedDataCRC32 := s.crc));
    FixedKeeps(i.rec);
    ToBytesLength(Patched(s));
    ToBytesLength(i.rec);
  }

  lemma ToBytesLength(r: Rec)
    ensures |ToBytes(r)| == HeaderLen(r.headFlags) + |r.data|
  {}

  /** Backpatching is exact: only the header bytes change, and the stream is the one that writing with the
      size and CRC known in advance would have left. */
  lemma PatchReplacesHeader(s: State, base: seq<byte>, start: nat, b: seq<byte>, carry: Carry, i: Item)
    requires Holds(s.io, base, start, b + ItemBytes(i)) && s.recordOffset == start + |b|
    requires Counts(s, carry, i) && !KeepsHeader(i.rec)
    ensures Holds(AfterPatch(s), base, start, b + ItemBytes(Closed(carry, i)))
  {
    hide Overwrite, ToBytes, Patched, Counts, Closed;
    PatchedLength(s, carry, i);
    ClosedKeepsAdded(carry, i);
    var header, patched := ToBytes(i.rec), ToBytes(Patched(s));
    OverwriteAppend(base, start, b, header + i.added);
    OverwriteAgain(Overwrite(base, start, b), start + |b|, header, i.added, patched);
    OverwriteAppend(base, start, b, patched + i.added);
  }

  lemma ClosedKeepsAdded(carry: Carry, i: Item)
    ensures Closed(carry, i).added == i.added
  {}

  /** Finishing an open record closes it in the log. */
  lemma FinishRefines(s: State, base: seq<byte>, start: nat, l: Log)
    requires Refines(s, base, start, l) && l.open.Some?
    ensures Refines(Finish(s).0, base, start, Close(l)) && Finish(s).1.Ok?
  {
    hide Overwrite, ItemBytes, ItemsBytes, AfterPatch, Closed, Holds;
    var i := l.open.value;
    ItemsSnoc(l.items, Closed(l.carry, i));
    if KeepsHeader(i.rec) {
      KeptHeader(l.carry, i);
    } else {
      PatchReplacesHeader(s, base, start, ItemsBytes(l.items), l.carry, i);
    }
  }

  lemma KeptHeader(carry: Carry, i: Item)
    requires KeepsHeader(i.rec)
    ensures Closed(carry, i) == i
  {}

  lemma BeginRefines(s: State, base: seq<byte>, start: nat, l: Log)
    requires Refines(s, base, start, l)
    ensures Refines(BeginRecord(s).0, base, start, Close(l)) && BeginRecord(s).1.Ok? && Close(l).open.None?
  {
    hide Finish, Overwrite, ItemsBytes, Closed, Counts, Holds;
    if l.open.Some? {
      FinishRefines(s, base, start, l);
    }
  }

  lemma RecordRefines(s: State, base: seq<byte>, start: nat, l: Log, r: Rec)
    requires Refines(s, base, start, l) && Legal(r)
    ensures Refines(PutRecord(s, r).0, base, start, LogStep(l, OpRecord(r)))
  {
    hide BeginRecord, Close, Overwrite, ItemBytes, ItemsBytes, ToBytes, Fixed, HeaderLen, Holds, HasAddedSize,
      HasAddedDataCrc,
      AfterWrite, Counts;
    BeginRefines(s, base, start, l);
    var c := Close(l);
    var b := BeginRecord(s).0;
    var i := Item(Fixed(r), []);
    FixedKeeps(r);
    NewItemBytes(i);
    HoldsMore(b.io, base, start, ItemsBytes(c.items), ToBytes(Fixed(r)));
    HoldsEnd(b.io, base, start, ItemsBytes(c.items));
    if HasAddedSize(r.headFlags) {
      NewItemCounts(PutRecord(s, r).0, c.carry, r);
    } else {
      ItemsSnoc(c.items, i);
    }
  }

  lemma NewItemBytes(i: Item)
    requires i.added == []
    ensures ItemBytes(i) == ToBytes(i.rec)
  {
    hide ToBytes;
    assert ToBytes(i.rec) + [] == ToBytes(i.rec);
  }

  lemma NewItemCounts(s: State, carry: Carry, r: Rec)
    requires Legal(r) && HasAddedSize(r.headFlags) && s.last == Fixed(r) && s.total == Fixed(r).addedSize
    requires s.hasCrc == HasAddedDataCrc(r.headFlags) && s.done == carry.bytes && s.crc == carry.crc
    ensures Counts(s, carry, Item(Fixed(r), []))
  {
    hide Fixed, HasAddedSize, HasAddedDataCrc, HeaderLen, Crc;
    FixedKeeps(r);
    FixedFacts(r);
    CrcEmpty(carry.crc);
  }

  lemma HoldsEnd(io: IoState, base: seq<byte>, start: nat, b: seq<byte>)
    requires Holds(io, base, start, b)
    ensures io.pos == start + |b|
  {}

  lemma RecordWithRefines(s: State, base: seq<byte>, start: nat, l: Log, r: Rec, added: seq<byte>)
    requires Refines(s, base, start, l)
    ensures Refines(PutRecordWith(s, r, added).0, base, start, LogStep(l, OpRecordWith(r, added)))
  {
    hide BeginRecord, Close, Overwrite, ToBytes, WithAdded, HeaderLen, Holds, AfterWrite;
    BeginRefines(s, base, start, l);
    var c := Close(l);
    var b := BeginRecord(s).0;
    var w := ToBytes(WithAdded(r, added));
    HoldsMore(b.io, base, start, ItemsBytes(c.items), w);
    HoldsMore(AfterWrite(b.io, w), base, start, ItemsBytes(c.items) + w, added);
    assert ItemsBytes(c.items) + w + added == ItemsBytes(c.items) + (w + added);
    ItemsSnoc(c.items, Item(WithAdded(r, added), added));
  }

  lemma AddedRefines(s: State, base: seq<byte>, start: nat, l: Log, chunk: seq<byte>)
    requires Refines(s, base, start, l)
    ensures Refines(PutAdded(s, chunk).0, base, start, LogStep(l, OpAdded(chunk)))
  {
    hide Overwrite, ToBytes, Fixed, HeaderLen, Holds, AfterWrite, HasAddedSize, HasAddedDataCrc, ItemsBytes, Crc;
    if l.open.Some? {
      var i := l.open.value;
      var b := chunk[..Takes(l.carry, i, |chunk|)];
      var all := ItemsBytes(l.items) + ItemBytes(i);
      HoldsMore(s.io, base, start, all, b);
      assert all + b == ItemsBytes(l.items) + (ToBytes(i.rec) + (i.added + b));
      CrcChunks(l.carry.crc, i.added, b);
      WrapSum(l.carry.bytes + |i.added|, |b|);
      if b == [] {
        assert i.added + b == i.added;
      }
    }
  }

  lemma WrapSum(a: nat, b: nat)
    ensures Wrap(Wrap(a) + b) == Wrap(a + b)
  {
    assert a + b == a % TWO_64 + b + TWO_64 * (a / TWO_64);
  }

  lemma StepRefines(s: State, base: seq<byte>, start: nat, l: Log, op: WriteOp)
    requires Refines(s, base, start, l) && Allowed(op)
    ensures Refines(Step(s, op), base, start, LogStep(l, op))
  {
    hide Refines, PutRecord, PutRecordWith, PutAdded, LogStep, Legal, BeforeFix;
    match op {
      case OpRecord(r) => RecordRefines(s, base, start, l, r);
      case OpRecordWith(r, added) => RecordWithRefines(s, base, start, l, r, added);
      case OpAdded(chunk) => AddedRefines(s, base, start, l, chunk);
      case OpFinish => FinishOrNothing(s, base, start, l);
    }
  }

  lemma FinishOrNothing(s: State, base: seq<byte>, start: nat, l: Log)
    requires Refines(s, base, start, l)
    ensures Refines(Finish(s).0, base, start, LogStep(l, OpFinish))
  {
    hide AfterPatch, Holds, Counts, Closed, ItemsBytes;
    if l.open.Some? {
      FinishRefines(s, base, start, l);
    }
  }

  /** The writer invariant is kept by every run. */
  lemma {:induction false} RunRefines(s: State, base: seq<byte>, start: nat, l: Log, ops: seq<WriteOp>)
    requires Refines(s, base, start, l) && forall op :: op in ops ==> Allowed(op)
    ensures Refines(Run(s, ops), base, start, LogRun(l, ops))
  {
    hide Refines, Step, LogStep, Allowed;
    if ops != [] {
      var front := ops[..|ops| - 1];
      RunRefines(s, base, start, l, front);
      StepRefines(Run(s, front), base, start, LogRun(l, front), ops[|ops| - 1]);
    }
  }

  /** The log a writing phase starts with. */
  function Start(s: State): Log {
    Log([], None, Carry(s.done, s.crc))
  }

  /** Every run of a writing phase, wherever and whenever it begins, keeps stream, position, counters and
      running CRC in step with its log. */
  lemma WritingPhase(s: State, ops: seq<WriteOp>)
    requires s.ps.WriteRecord? && forall op :: op in ops ==> Allowed(op)
    ensures Refines(Run(s, ops), s.io.data, s.io.pos, LogRun(Start(s), ops))
  {
    hide Run, LogRun, Allowed, Refines;
    StartsEmpty(s);
    RunRefines(s, s.io.data, s.io.pos, Start(s), ops);
  }

  lemma StartsEmpty(s: State)
    requires s.ps.WriteRecord?
    ensures Refines(s, s.io.data, s.io.pos, Start(s))
  {}
}
