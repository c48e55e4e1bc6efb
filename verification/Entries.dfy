/**
  The archive round trip in the caller's terms: every call that writes a record is answered by one record
  read back.
  */
module Entries {
  import opened Words
  import opened Digits
  import opened Crc32c
  import opened BytePack
  import opened Stream
  import opened Record
  import opened Machine
  import opened Writer
  import opened WriterLaws
  import opened Reader
  import opened RoundTrip

  /** What a caller asked for with one record: all its data with the record, or chunks following it until
      the record is finished. */
  datatype Entry =
    | Together(r: Rec, added: seq<byte>)
    | InChunks(r: Rec, chunks: seq<seq<byte>>, open: bool)

  /** Another call, as it affects the record asked for last. */
  function EntryStep(e: Entry, op: WriteOp): Entry {
    if e.Together? || !e.open then e
    else if op.OpAdded? then e.(chunks := e.chunks + [op.chunk])
    else e.(open := false)
  }

  function LastStep(es: seq<Entry>, op: WriteOp): seq<Entry> {
    if es == [] then [] else es[..|es| - 1] + [EntryStep(es[|es| - 1], op)]
  }

  /** The records a sequence of calls asks for, one for every call that writes a record. */
  function Entries(ops: seq<WriteOp>): seq<Entry> {
    if ops == [] then []
    else
      var op := ops[|ops| - 1];
      LastStep(Entries(ops[..|ops| - 1]), op) + Asked(op)
  }

  /** What a call asks for anew. */
  function Asked(op: WriteOp): seq<Entry> {
    match op
    case OpRecord(r) => [InChunks(r, [], HasAddedSize(r.headFlags))]
    case OpRecordWith(r, added) => [Together(r, added)]
    case _ => []
  }

  /** A record with the type, data and flags asked for, and the data that followed it cut to the declared
      size. */
  predicate Answers(rec: Rec, added: seq<byte>, e: Entry) {
    && rec.headType == e.r.headType && rec.data == e.r.data
    && match e
       case Together(r, given) => FlagsFor(r.headFlags, |given|, rec.headFlags) && added == given
       case InChunks(r, chunks, _) => rec.headFlags == r.headFlags && added == CutTo(r.addedSize, Concat(chunks))
  }

  /** All of `b` when no size is declared, otherwise at most as much as declared. */
  function CutTo(declared: u64, b: seq<byte>): seq<byte> {
    if declared == 0 || |b| <= declared then b else b[..declared]
  }

  predicate AllAnswer(items: seq<Item>, es: seq<Entry>) {
    |items| == |es| && forall k :: 0 <= k < |es| ==> Answers(items[k].rec, items[k].added, es[k])
  }

  predicate EntryClosed(e: Entry) {
    e.InChunks? ==> !e.open
  }

  /** An open item is what its record call and the chunks so far make of it. */
  predicate OpenAnswers(i: Item, e: Entry) {
    e.InChunks? && e.open && i == Feed(CLEAN, Item(Fixed(e.r), []), e.chunks)
  }

  predicate LogAnswers(l: Log, es: seq<Entry>) {
    && l.carry == CLEAN
    && match l.open
       case None => AllAnswer(l.items, es) && (es != [] ==> EntryClosed(es[|es| - 1]))
       case Some(i) => es != [] && AllAnswer(l.items, es[..|es| - 1]) && OpenAnswers(i, es[|es| - 1])
  }

  lemma ClosedAnswers(i: Item, e: Entry)
    requires OpenAnswers(i, e)
    ensures Answers(Closed(CLEAN, i).rec, Closed(CLEAN, i).added, e.(open := false))
  {
    hide Fixed, Feed, RunningCrc, HasAddedDataCrc;
    KeepsPrefix(CLEAN, Item(Fixed(e.r), []), e.chunks);
    FixedKeeps(e.r);
    FixedKeeps(i.rec.(addedSize := Wrap(|i.added|), addedDataCRC32 := RunningCrc(CLEAN, i)));
    var all := Concat(e.chunks);
    assert all[..|all|] == all;
    assert [] + i.added == i.added;
  }

  lemma CloseAnswers(l: Log, es: seq<Entry>, op: WriteOp)
    requires LogAnswers(l, es) && Finishes(op)
    ensures LogAnswers(Close(l), LastStep(es, op)) && Close(l).open.None?
  {
    hide Closed, Answers, Feed, Fixed;
    if l.open.Some? {
      ClosedAnswers(l.open.value, es[|es| - 1]);
    } else if es != [] {
      assert LastStep(es, op) == es;
    }
  }

  lemma AnswersMore(l: Log, es: seq<Entry>, i: Item, e: Entry)
    requires LogAnswers(l, es) && l.open.None? && Answers(i.rec, i.added, e) && EntryClosed(e)
    ensures LogAnswers(l.(items := l.items + [i]), es + [e])
  {
    hide Answers;
  }

  lemma WithAddedAnswers(r: Rec, added: seq<byte>)
    ensures Answers(WithAdded(r, added), added, Together(r, added))
  {
    hide Fixed, SetAddedSize8, SetAddedSize4, ClearAdded, HasAddedDataCrc, Crc, FlagsFor;
    FixedKeeps(BeforeFix(r, added));
    WithAddedFlags(r, added);
  }

  /** What the caller's record is after it was written together with its added data: the flags follow the data,
      and size and CRC are those of the data, or 0 without data. */
  lemma WithAddedFlags(r: Rec, added: seq<byte>)
    ensures var w := WithAdded(r, added);
            && FlagsFor(r.headFlags, |added|, w.headFlags) && w.headType == r.headType && w.data == r.data
            && (added == [] ==> w.addedSize == 0 && w.addedDataCRC32 == 0)
            && (added != [] && |added| < TWO_64 ==> w.addedSize == |added|)
            && (added != [] && Digit(r.headFlags, 0x20) ==> w.addedDataCRC32 == Crc(0, added))
            && (added != [] && !Digit(r.headFlags, 0x20) ==> w.addedDataCRC32 == r.addedDataCRC32)
  {
    hide Fixed, SetAddedSize8, SetAddedSize4, ClearAdded, HasAddedDataCrc, Crc, Digit, FlagsFor;
    FixedKeeps(BeforeFix(r, added));
    ClearedDigits(r.headFlags);
    FourDigits(r.headFlags);
    EightDigits(r.headFlags);
    FlagsForLength(r.headFlags, |added|, BeforeFix(r, added).headFlags);
    CrcDigit(r.headFlags);
  }

  lemma FlagsForLength(given: byte, n: nat, written: byte)
    ensures FlagsFor(given, n, written)
         == FlagsFor(given, if n == 0 then 0 else if n > 2147483647 then 0x8000_0000 else 1, written)
  {
    hide Digit;
  }

  lemma AnswersStep(l: Log, es: seq<Entry>, op: WriteOp, next: seq<Entry>)
    requires LogAnswers(l, es)
    requires next == LastStep(es, op) + Asked(op)
    ensures LogAnswers(LogStep(l, op), next)
  {
    hide Closed, Fixed, WithAdded, Extend, HasAddedSize, LogAnswers, Close;
    assert LastStep(es, op) + [] == LastStep(es, op);
    if Finishes(op) {
      CloseAnswers(l, es, op);
    }
    match op {
      case OpRecord(r) =>
        FixedKeeps(r);
        NewAnswers(Close(l), LastStep(es, op), r);
      case OpRecordWith(r, added) =>
        WithAddedAnswers(r, added);
        AnswersMore(Close(l), LastStep(es, op), Item(WithAdded(r, added), added), Together(r, added));
      case OpAdded(chunk) =>
        AddedAnswers(l, es, chunk);
      case OpFinish =>
    }
  }

  lemma NewAnswers(l: Log, es: seq<Entry>, r: Rec)
    requires LogAnswers(l, es) && l.open.None?
    ensures var i, e := Item(Fixed(r), []), InChunks(r, [], HasAddedSize(r.headFlags));
            var next := if HasAddedSize(r.headFlags) then l.(open := Some(i)) else l.(items := l.items + [i]);
            LogAnswers(next, es + [e])
  {
    hide Fixed, HasAddedSize;
    FixedKeeps(r);
    if !HasAddedSize(r.headFlags) {
      AnswersMore(l, es, Item(Fixed(r), []), InChunks(r, [], false));
    } else {
      assert (es + [InChunks(r, [], true)])[..|es|] == es;
    }
  }

  lemma AddedAnswers(l: Log, es: seq<Entry>, chunk: seq<byte>)
    requires LogAnswers(l, es)
    ensures LogAnswers(LogStep(l, OpAdded(chunk)), LastStep(es, OpAdded(chunk)))
  {
    hide Fixed, Extend, Answers;
    if l.open.Some? {
      var e := es[|es| - 1];
      assert (e.chunks + [chunk])[..|e.chunks|] == e.chunks;
      assert LastStep(es, OpAdded(chunk))[..|es| - 1] == es[..|es| - 1];
    } else if es != [] {
      assert LastStep(es, OpAdded(chunk)) == es;
    }
  }

  lemma {:induction false} RunAnswers(ops: seq<WriteOp>)
    ensures LogAnswers(LogRun(Log([], None, CLEAN), ops), Entries(ops))
  {
    hide LogStep, LastStep, HasAddedSize;
    if ops != [] {
      var front := ops[..|ops| - 1];
      RunAnswers(front);
      AnswersStep(LogRun(Log([], None, CLEAN), front), Entries(front), ops[|ops| - 1], Entries(ops));
    }
  }

  lemma WrittenAnswers(ops: seq<WriteOp>)
    ensures AllAnswer(Written(ops), ClosedEntries(ops))
  {
    hide LogRun, Entries, Answers, Closed;
    RunAnswers(ops);
    CloseAnswers(LogRun(Log([], None, CLEAN), ops), Entries(ops), OpFinish);
  }

  function ClosedEntries(ops: seq<WriteOp>): seq<Entry> {
    LastStep(Entries(ops), OpFinish)
  }

  /** Archive round trip in the caller's terms: every record call of a run is answered by one record read
      back, in order, with its type, data and flags, and with all the data given for it, cut to the
      declared size. */
  lemma RecordsComeBack(base: seq<byte>, ops: seq<WriteOp>, plans: seq<Plan>)
    requires forall op :: op in ops ==> Allowed(op)
    requires WellRun(Log([], None, CLEAN), ops) && MayClose(LogRun(Log([], None, CLEAN), ops))
    requires AdequateAll(plans, Written(ops))
    ensures forall p :: p in plans ==> |p.heap| == 0x1_0000
    ensures var got := ReadBack(FindMarker(StartReading(Fresh(ArchiveStream(base, ops).data)).0).0, plans).1;
            && |got| == |Entries(ops)|
            && forall k :: 0 <= k < |got| ==> got[k].err.Ok? && Answers(got[k].rec, got[k].added, Entries(ops)[k])
  {
    hide Written, ArchiveStream, FindMarker, ReadBack, Allowed, AdequateAll, WellRun, MayClose, LogRun, Entries,
      Canon;
    ArchiveRoundTrip(base, ops, plans);
    WrittenAnswers(ops);
    var items, es := Written(ops), Entries(ops);
    forall k | 0 <= k < |es|
      ensures ExpectedAll(items)[k].err.Ok?
      ensures Answers(ExpectedAll(items)[k].rec, ExpectedAll(items)[k].added, es[k])
    {
      assert Answers(items[k].rec, items[k].added, ClosedEntries(ops)[k]);
      CanonKeeps(items[k].rec);
    }
  }
}
