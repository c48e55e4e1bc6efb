/**
  What the log means to a caller: which bytes of the chunks are kept, that streaming equals writing in one
  call, and exactly what counters left over from reading do to the first record written after it.
  */
module WriterLaws {
  import opened Words
  import opened Crc32c
  import opened BytePack
  import opened Stream
  import opened Record
  import opened Machine
  import opened Writer

  // ---- chunks ----

  function Feed(carry: Carry, i: Item, chunks: seq<seq<byte>>): Item {
    if chunks == [] then i else Extend(carry, Feed(carry, i, chunks[..|chunks| - 1]), chunks[|chunks| - 1])
  }

  function AddOps(chunks: seq<seq<byte>>): (ops: seq<WriteOp>)
    ensures |ops| == |chunks|
  {
    seq(|chunks|, i requires 0 <= i < |chunks| => OpAdded(chunks[i]))
  }

  lemma {:induction false} FeedIsRun(l: Log, chunks: seq<seq<byte>>)
    requires l.open.Some?
    ensures LogRun(l, AddOps(chunks)) == l.(open := Some(Feed(l.carry, l.open.value, chunks)))
  {
    hide Extend;
    if chunks != [] {
      var front := chunks[..|chunks| - 1];
      FeedIsRun(l, front);
      assert AddOps(chunks)[..|chunks| - 1] == AddOps(front);
    }
  }

  /** However the data is cut into chunks, an open item keeps what it would have kept of the whole in one
      chunk: a prefix, as long as the room that the declared size and the counter leave in 64 bits. */
  lemma {:induction false} KeepsPrefix(carry: Carry, i: Item, chunks: seq<seq<byte>>)
    ensures var all := Concat(chunks);
            var n := Room(i.rec.addedSize, Wrap(carry.bytes + |i.added|), |all|);
            Feed(carry, i, chunks) == i.(added := i.added + all[..n])
  {
    hide Room;
    if chunks == [] {
      assert i.added + [] == i.added;
    } else {
      var front, last := chunks[..|chunks| - 1], chunks[|chunks| - 1];
      KeepsPrefix(carry, i, front);
      KeepsMore(carry, i, Concat(front), last);
    }
  }

  lemma KeepsMore(carry: Carry, i: Item, sofar: seq<byte>, last: seq<byte>)
    ensures Extend(carry, Extend(carry, i, sofar), last) == Extend(carry, i, sofar + last)
  {
    hide Room, Wrap;
    var d, c := i.rec.addedSize, carry.bytes + |i.added|;
    var k, n := Room(d, Wrap(c), |sofar|), Room(d, Wrap(c), |sofar + last|);
    var t := Room(d, Wrap(c + k), |last|);
    RoomAfter(d, c, |sofar|, |last|);
    if k == |sofar| {
      assert (sofar + last)[..n] == sofar[..k] + last[..t];
    } else {
      assert (sofar + last)[..n] == sofar[..k] && last[..0] == [];
    }
    assert i.added + sofar[..k] + last[..t] == i.added + (sofar[..k] + last[..t]);
  }

  /** What is taken of two pieces, one after the other. */
  lemma RoomAfter(declared: u64, counted: nat, m: nat, n: nat)
    ensures var k := Room(declared, Wrap(counted), m);
            var t := Room(declared, Wrap(counted + k), n);
            Room(declared, Wrap(counted), m + n) == k + t && (k < m ==> t == 0)
  {
    hide Wrap;
    var k := Room(declared, Wrap(counted), m);
    if declared > 0 {
      WrapMoves(counted, k);
    }
  }

  lemma WrapMoves(counted: nat, k: nat)
    requires k < TWO_64
    ensures Wrap(counted + k) == Wrap(counted) + if Wrap(counted) + k < TWO_64 then k else k - TWO_64
  {
    assert counted + k == counted % TWO_64 + k + TWO_64 * (counted / TWO_64);
  }

  /** The position of an open record after any run: header, then the bytes taken so far, and nothing before
      the phase touched. */
  lemma OpenPosition(s: State, ops: seq<WriteOp>)
    requires s.ps.WriteRecord? && s.io.pos <= |s.io.data| && forall op :: op in ops ==> Allowed(op)
    requires LogRun(Start(s), ops).open.Some?
    ensures var t := Run(s, ops);
            var i := LogRun(Start(s), ops).open.value;
            && t.io.pos == t.recordOffset + t.last.headSize + |i.added| && t.io.pos <= |t.io.data|
            && t.io.data[t.recordOffset..t.io.pos] == ToBytes(t.last) + i.added
            && s.io.pos <= |t.io.data| && t.io.data[..s.io.pos] == s.io.data[..s.io.pos]
  {
    hide Overwrite, ToBytes, Fixed, HeaderLen, HasAddedSize, HasAddedDataCrc, RunningCrc, Run, LogRun, Allowed;
    WritingPhase(s, ops);
    var t, l, start := Run(s, ops), LogRun(Start(s), ops), s.io.pos;
    var i := l.open.value;
    var b := ItemsBytes(l.items);
    FixedFacts(i.rec);
    OverwriteFrame(s.io.data, start, b + ItemBytes(i));
    var d := t.io.data;
    assert d[start..t.io.pos] == b + ItemBytes(i);
    assert d[t.recordOffset..t.io.pos] == d[start..t.io.pos][|b|..];
  }

  // ---- streaming and writing at once ----

  /** Writing a record, adding its data chunk by chunk, and finishing it. */
  function Streaming(r: Rec, chunks: seq<seq<byte>>): seq<WriteOp> {
    [OpRecord(r)] + AddOps(chunks) + [OpFinish]
  }

  /** The record and what is kept of the chunks, before the header is patched. */
  function Streamed(carry: Carry, r: Rec, chunks: seq<seq<byte>>): Item {
    var all := Concat(chunks);
    Item(Fixed(r), all[..Room(r.addedSize, carry.bytes, |all|)])
  }

  /** A record whose size is not declared in advance and is streamed in any chunks leaves the same stream
      as handing the data over in one call, exactly when there is data and the size field of the record
      is the one the call would choose. */
  lemma StreamingIsOneCall(s: State, r: Rec, chunks: seq<seq<byte>>)
    requires s.ps.WriteRecord? && s.done == 0 && s.crc == 0
    requires Allowed(OpRecord(r)) && Allowed(OpRecordWith(r, Concat(chunks)))
             && forall c :: c in chunks ==> |c| < TWO_64
    requires HasAddedSize(r.headFlags)
    ensures Run(s, Streaming(r.(addedSize := 0), chunks)).io == Run(s, [OpRecordWith(r, Concat(chunks))]).io
       <==> |Concat(chunks)| > 0 && (|Concat(chunks)| <= 2147483647 || HasAddedSize8(r.headFlags))
  {
    hide Overwrite, ItemBytes, ItemsBytes, Allowed, WithAdded, Run, LogRun, HasAddedSize, HasAddedSize8, Refines,
      Closed, Holds;
    var all := Concat(chunks);
    var r0 := r.(addedSize := 0);
    var i, j := Closed(CLEAN, Item(Fixed(r0), all)), Item(WithAdded(r, all), all);
    SameAllowed(r);
    StreamedIo(s, r0, chunks);
    assert all[..|all|] == all;
    WritingPhase(s, [OpRecordWith(r, all)]);
    OneCallLog(Start(s), r, all);
    EndIo(Run(s, [OpRecordWith(r, all)]), s.io, LogRun(Start(s), [OpRecordWith(r, all)]));
    if |all| > 0 && (|all| <= 2147483647 || HasAddedSize8(r.headFlags)) {
      SameHeader(r, all);
      ClosedKeepsAdded(CLEAN, Item(Fixed(r0), all));
      SameBytes(i, j);
    } else {
      OtherLength(r, all);
      OneItemLength(i);
      OneItemLength(j);
    }
  }

  lemma OneItemLength(i: Item)
    ensures |ItemsBytes([i])| == HeaderLen(i.rec.headFlags) + |i.rec.data| + |i.added|
  {
    hide ToBytes, HeaderLen;
    ToBytesLength(i.rec);
    assert [i][..0] == [];
  }

  lemma OtherLength(r: Rec, all: seq<byte>)
    requires HasAddedSize(r.headFlags) && !(|all| > 0 && (|all| <= 2147483647 || HasAddedSize8(r.headFlags)))
    ensures var i, j := Closed(CLEAN, Item(Fixed(r.(addedSize := 0)), all)), Item(WithAdded(r, all), all);
            && i.added == j.added == all && |i.rec.data| == |j.rec.data|
            && HeaderLen(i.rec.headFlags) != HeaderLen(j.rec.headFlags)
  {
    hide Fixed, HasAddedSize, HasAddedSize8, HasAddedDataCrc, HeaderLen, ClearAdded, SetAddedSize8, SetAddedSize4,
      Crc, RunningCrc;
    var r0 := r.(addedSize := 0);
    FixedKeeps(r0);
    PatchIs(r0, all);
    FixedKeeps(Fixed(r0).(addedSize := Wrap(|all|), addedDataCRC32 := RunningCrc(CLEAN, Item(Fixed(r0), all))));
    OtherFlags(r.headFlags);
    if all == [] {
      FixedKeeps(r.(headFlags := ClearAdded(r.headFlags), addedSize := 0, addedDataCRC32 := 0));
    } else {
      FixedKeeps(r.(headFlags := SetAddedSize8(r.headFlags), addedSize := Wrap(|all|),
                 addedDataCRC32 := if HasAddedDataCrc(r.headFlags) then Crc(0, all) else r.addedDataCRC32));
    }
  }

  lemma OtherFlags(flags: byte)
    requires HasAddedSize(flags)
    ensures HeaderLen(ClearAdded(flags)) < HeaderLen(flags)
    ensures !HasAddedSize8(flags) ==> HeaderLen(SetAddedSize8(flags)) > HeaderLen(flags)
  {}

  lemma SameAllowed(r: Rec)
    requires Allowed(OpRecord(r))
    ensures Allowed(OpRecord(r.(addedSize := 0))) && Allowed(OpFinish)
    ensures forall c: seq<byte> :: |c| < TWO_64 ==> Allowed(OpAdded(c))
  {}

  lemma EndIo(s: State, at: IoState, l: Log)
    requires Refines(s, at.data, at.pos, l) && l.open.None?
    ensures s.io == AfterWrite(at, ItemsBytes(l.items))
  {
    hide Overwrite, ItemsBytes;
  }

  lemma StreamedLog(l: Log, r: Rec, chunks: seq<seq<byte>>)
    requires l.items == [] && l.open.None? && HasAddedSize(r.headFlags)
    ensures LogRun(l, Streaming(r, chunks)) == Log([Closed(l.carry, Streamed(l.carry, r, chunks))], None, CLEAN)
  {
    hide Fixed, Closed, Extend, HasAddedSize, Room;
    var first := [OpRecord(r)];
    var i := Item(Fixed(r), []);
    FixedKeeps(r);
    assert first[..0] == [];
    LogRunAppend(l, first, AddOps(chunks));
    FeedIsRun(LogRun(l, first), chunks);
    KeepsPrefix(l.carry, i, chunks);
    assert [] + Streamed(l.carry, r, chunks).added == Streamed(l.carry, r, chunks).added;
    assert LogRun(l, first + AddOps(chunks)).open == Some(Streamed(l.carry, r, chunks));
    LogRunAppend(l, first + AddOps(chunks), [OpFinish]);
    assert [OpFinish][..0] == [];
  }

  lemma {:induction false} LogRunAppend(l: Log, a: seq<WriteOp>, b: seq<WriteOp>)
    ensures LogRun(l, a + b) == LogRun(LogRun(l, a), b)
  {
    hide LogStep;
    if b == [] {
      assert a + b == a;
    } else {
      LogRunAppend(l, a, b[..|b| - 1]);
      assert (a + b)[..|a + b| - 1] == a + b[..|b| - 1];
    }
  }

  lemma OneCallLog(l: Log, r: Rec, all: seq<byte>)
    requires l.items == [] && l.open.None?
    ensures LogRun(l, [OpRecordWith(r, all)]) == Log([Item(WithAdded(r, all), all)], None, l.carry)
  {
    hide WithAdded;
    assert [OpRecordWith(r, all)][..0] == [];
  }

  lemma SameBytes(i: Item, j: Item)
    requires ToBytes(i.rec) == ToBytes(j.rec) && i.added == j.added
    ensures ItemsBytes([i]) == ItemsBytes([j])
  {
    hide ToBytes;
    assert [i][..0] == [] && [j][..0] == [];
  }

  /** The patched header and the header written in advance are the same bytes. */
  lemma SameHeader(r: Rec, all: seq<byte>)
    requires HasAddedSize(r.headFlags) && 0 < |all| && (|all| <= 2147483647 || HasAddedSize8(r.headFlags))
    ensures ToBytes(Closed(CLEAN, Item(Fixed(r.(addedSize := 0)), all)).rec) == ToBytes(WithAdded(r, all))
  {
    hide Fixed, HasAddedSize, HasAddedDataCrc, Crc, ToBytes, Closed, WithAdded;
    var r0 := r.(addedSize := 0);
    var p := Fixed(r0).(addedSize := Wrap(|all|), addedDataCRC32 := RunningCrc(CLEAN, Item(Fixed(r0), all)));
    var q := r.(addedSize := Wrap(|all|), addedDataCRC32 := OneCallCrc(r, all));
    FixedKeeps(r0);
    PatchIs(r0, all);
    OneCallIs(r, all);
    SameVisibleFields(p, q);
  }

  lemma PatchIs(r0: Rec, all: seq<byte>)
    requires r0.addedSize == 0
    ensures Closed(CLEAN, Item(Fixed(r0), all)).rec
         == Fixed(Fixed(r0).(addedSize := Wrap(|all|), addedDataCRC32 := RunningCrc(CLEAN, Item(Fixed(r0), all))))
  {
    hide Fixed, HasAddedDataCrc, RunningCrc;
    FixedKeeps(r0);
  }

  /** The CRC the one-call writer puts into a record. */
  function OneCallCrc(r: Rec, all: seq<byte>): bv32 {
    if HasAddedDataCrc(r.headFlags) then Crc(0, all) else r.addedDataCRC32
  }

  lemma OneCallIs(r: Rec, all: seq<byte>)
    requires HasAddedSize(r.headFlags) && 0 < |all| && (|all| <= 2147483647 || HasAddedSize8(r.headFlags))
    ensures WithAdded(r, all)
         == Fixed(r.(addedSize := Wrap(|all|), addedDataCRC32 := OneCallCrc(r, all)))
  {
    hide Fixed, HasAddedSize, HasAddedSize8, HasAddedDataCrc, SetAddedSize8, SetAddedSize4, Crc;
    SetTwice(r.headFlags);
  }

  lemma SetTwice(flags: byte)
    requires HasAddedSize(flags)
    ensures SetAddedSize4(flags) == flags
    ensures HasAddedSize8(flags) ==> SetAddedSize8(flags) == flags
  {}

  /** Only what the flags announce reaches the file. */
  lemma SameVisibleFields(p: Rec, q: Rec)
    requires p.headType == q.headType && p.headFlags == q.headFlags && p.addedSize == q.addedSize && p.data == q.data
    requires HasAddedDataCrc(p.headFlags) ==> p.addedDataCRC32 == q.addedDataCRC32
    ensures ToBytes(Fixed(p)) == ToBytes(Fixed(q))
  {
    hide Crc, Low16, HasAddedDataCrc, SizeLen, Le;
    NoCrcNoField(p.headFlags, p.addedDataCRC32, q.addedDataCRC32);
    var n := (HeaderLen(p.headFlags) + |p.data|) % 0x1_0000;
    assert Fields(p.(headSize := n)) == Fields(q.(headSize := n));
  }

  lemma NoCrcNoField(flags: byte, c: bv32, d: bv32)
    requires HasAddedDataCrc(flags) ==> c == d
    ensures CrcField(flags, c) == CrcField(flags, d)
  {
    hide HasAddedDataCrc;
    if !HasAddedDataCrc(flags) {
      assert CrcField(flags, c) == [] == CrcField(flags, d);
    }
  }

  // ---- counters left over from reading ----

  /** A header patched after a phase that began with counters left over is the right one exactly when the
      left-over count is invisible in the size field and no CRC was left over for a CRC field. */
  lemma PatchedRightIff(carry: Carry, i: Item)
    requires HasAddedSize(i.rec.headFlags) && !KeepsHeader(i.rec)
    ensures ToBytes(Closed(carry, i).rec) == ToBytes(Closed(CLEAN, i).rec)
       <==> Shown(i.rec.headFlags, carry.bytes) == 0 && (HasAddedDataCrc(i.rec.headFlags) ==> carry.crc == 0)
  {
    hide HasAddedSize, HasAddedSize8, HasAddedSize4, HasAddedDataCrc, ToBytes, Fixed, Crc, Shown;
    var p := i.rec.(addedSize := Wrap(carry.bytes + |i.added|), addedDataCRC32 := RunningCrc(carry, i));
    var q := i.rec.(addedSize := Wrap(|i.added|), addedDataCRC32 := RunningCrc(CLEAN, i));
    assert Closed(carry, i).rec == Fixed(p) && Closed(CLEAN, i).rec == Fixed(q);
    SizeFlags(i.rec.headFlags);
    ShownDiffers(i.rec.headFlags, carry.bytes, |i.added|);
    SameBytesIff(p, q);
    if HasAddedDataCrc(i.rec.headFlags) && Crc(carry.crc, i.added) == Crc(0, i.added) {
      CrcSeedInjective(carry.crc, 0, i.added);
    }
  }

  lemma ShownDiffers(flags: byte, w: u64, n: nat)
    requires HasAddedSize8(flags) || HasAddedSize4(flags)
    ensures Shown(flags, Wrap(w + n)) == Shown(flags, Wrap(n)) <==> Shown(flags, w) == 0
  {
    hide HasAddedSize8, HasAddedSize4;
    if HasAddedSize8(flags) {
      ModShift(w, n, TWO_64);
    } else {
      ModMod(w + n);
      ModMod(n);
      ModShift(w, n, 0x1_0000_0000);
    }
  }

  lemma ModMod(v: nat)
    ensures Wrap(v) % 0x1_0000_0000 == v % 0x1_0000_0000
  {
    assert v == v % TWO_64 + 0x1_0000_0000 * (0x1_0000_0000 * (v / TWO_64));
  }

  lemma ModShift(w: nat, n: nat, m: nat)
    requires m == TWO_64 || m == 0x1_0000_0000
    ensures (w + n) % m == n % m <==> w % m == 0
  {
    if m == TWO_64 {
      assert w + n == (w % TWO_64 + n % TWO_64) + TWO_64 * (w / TWO_64 + n / TWO_64);
    } else {
      var q := w / 0x1_0000_0000 + n / 0x1_0000_0000;
      assert w + n == (w % 0x1_0000_0000 + n % 0x1_0000_0000) + 0x1_0000_0000 * q;
    }
  }

  /** Two records alike except for size and CRC serialise alike exactly when the fields show the same. */
  lemma SameBytesIff(p: Rec, q: Rec)
    requires p.headType == q.headType && p.headFlags == q.headFlags && p.data == q.data
    ensures ToBytes(Fixed(p)) == ToBytes(Fixed(q))
       <==> Shown(p.headFlags, p.addedSize) == Shown(q.headFlags, q.addedSize)
            && (HasAddedDataCrc(p.headFlags) ==> p.addedDataCRC32 == q.addedDataCRC32)
  {
    hide Crc, Low16, HasAddedDataCrc, SizeLen, Le, LeValue, Shown, SizeField, CrcField;
    SizeFieldShows(p.headFlags, p.addedSize);
    SizeFieldShows(q.headFlags, q.addedSize);
    CrcFieldShows(p.headFlags, p.addedDataCRC32, q.addedDataCRC32);
    var n := (HeaderLen(p.headFlags) + |p.data|) % 0x1_0000;
    var a, b := p.(headSize := n), q.(headSize := n);
    if Shown(p.headFlags, p.addedSize) == Shown(q.headFlags, q.addedSize) {
      LeInjective(SizeField(p.headFlags, p.addedSize), SizeField(q.headFlags, q.addedSize));
    }
    FieldsApart(a, b);
    FieldsDecide(p, q, n);
  }

  /** Records alike in the data serialise alike exactly when their fields do. */
  lemma FieldsDecide(p: Rec, q: Rec, n: u16)
    requires p.headFlags == q.headFlags && p.data == q.data && n == (HeaderLen(p.headFlags) + |p.data|) % 0x1_0000
    ensures ToBytes(Fixed(p)) == ToBytes(Fixed(q)) <==> Fields(p.(headSize := n)) == Fields(q.(headSize := n))
  {
    hide Crc, Low16, HeaderLen, Le, SizeField, CrcField;
    var f, g := Fixed(p), Fixed(q);
    assert Fields(f) == Fields(p.(headSize := n)) && Fields(g) == Fields(q.(headSize := n));
    if ToBytes(f) == ToBytes(g) {
      FieldsInBytes(f);
      FieldsInBytes(g);
    }
  }

  lemma FieldsInBytes(r: Rec)
    ensures ToBytes(r)[2..|ToBytes(r)| - |r.data|] == Fields(r)
  {
    hide Fields, Le;
  }

  lemma FieldsApart(a: Rec, b: Rec)
    requires a.headType == b.headType && a.headFlags == b.headFlags && a.headSize == b.headSize
    ensures var f := a.headFlags;
            (Fields(a) == Fields(b) <==> SizeField(f, a.addedSize) == SizeField(f, b.addedSize)
                                         && CrcField(f, a.addedDataCRC32) == CrcField(f, b.addedDataCRC32))
  {
    hide SizeField, CrcField, Le;
    var f, n := a.headFlags, 4 + SizeLen(a.headFlags);
    assert Fields(a)[4..n] == SizeField(f, a.addedSize) && Fields(a)[n..] == CrcField(f, a.addedDataCRC32);
    assert Fields(b)[4..n] == SizeField(f, b.addedSize) && Fields(b)[n..] == CrcField(f, b.addedDataCRC32);
  }

  lemma CrcFieldShows(flags: byte, c: bv32, d: bv32)
    ensures CrcField(flags, c) == CrcField(flags, d) <==> (HasAddedDataCrc(flags) ==> c == d)
  {
    hide HasAddedDataCrc, Le, LeValue, Unsigned, Word;
    if !HasAddedDataCrc(flags) || c == d {
      NoCrcNoField(flags, c, d);
    }
    Capacities();
    LeRoundTrip(4, Unsigned(c));
    LeRoundTrip(4, Unsigned(d));
    WordOfUnsigned(c);
    WordOfUnsigned(d);
  }

  /** A declared size is never exceeded, whatever is offered, exactly when the left-over count is not
      above it: beyond that the remaining room wraps around.  What is kept is what a clean writer keeps,
      whatever is offered, exactly when nothing is left over. */
  lemma DeclaredKeptIff(carry: Carry, i: Item)
    requires i.rec.addedSize > 0 && i.added == []
    ensures (forall chunks :: |Feed(carry, i, chunks).added| <= i.rec.addedSize) <==> carry.bytes <= i.rec.addedSize
    ensures (forall chunks :: Feed(carry, i, chunks) == Feed(CLEAN, i, chunks)) <==> carry.bytes == 0
  {
    hide Feed, Room, WrapSub;
    forall chunks
      ensures |Feed(carry, i, chunks).added| == Room(i.rec.addedSize, carry.bytes, |Concat(chunks)|)
      ensures carry.bytes == 0 ==> Feed(carry, i, chunks) == Feed(CLEAN, i, chunks)
    {
      KeepsPrefix(carry, i, chunks);
      KeepsPrefix(CLEAN, i, chunks);
    }
    FedMost(carry, i);
    FedMost(CLEAN, i);
    RoomWraps(i.rec.addedSize, carry.bytes);
  }

  /** A chunk larger than any room fills it. */
  lemma FedMost(carry: Carry, i: Item)
    requires i.rec.addedSize > 0 && i.added == []
    ensures |Feed(carry, i, [Zeros(TWO_64)]).added| == WrapSub(i.rec.addedSize, carry.bytes)
  {
    var chunk := Zeros(TWO_64);
    assert [chunk][..0] == [];
  }

  lemma RoomWraps(declared: u64, counted: u64)
    ensures WrapSub(declared, counted) <= declared <==> counted <= declared
    ensures WrapSub(declared, counted) == WrapSub(declared, 0) <==> counted == 0
    ensures declared > 0 ==> forall n :: Room(declared, counted, n) <= WrapSub(declared, counted)
  {}

  /** A left-over count takes nothing from `n` bytes offered. */
  predicate RoomUnaffected(declared: u64, counted: u64, n: nat) {
    declared == 0 || counted == 0 || (n <= declared && n <= WrapSub(declared, counted))
  }

  lemma RoomUnaffectedIff(declared: u64, counted: u64, n: nat)
    ensures RoomUnaffected(declared, counted, n) <==> Room(declared, counted, n) == Room(declared, 0, n)
  {}

  /** The left-over counters do not show in the header that finishing a record leaves. */
  predicate HeaderUnaffected(r: Rec, counted: u64, crc: bv32) {
    || (r.addedSize > 0 && !HasAddedDataCrc(r.headFlags))
    || (Shown(r.headFlags, counted) == 0 && (HasAddedDataCrc(r.headFlags) ==> crc == 0))
  }

  /** The whole effect of left-over counters on a streamed record: the stream is the one a fresh handle
      would leave exactly when the count takes nothing from the data offered and the counters do not show
      in the header. */
  lemma LeftOverCountersIff(s: State, r: Rec, chunks: seq<seq<byte>>)
    requires s.ps.WriteRecord? && s.io.pos <= |s.io.data|
    requires Legal(r) && HasAddedSize(r.headFlags) && forall c :: c in chunks ==> |c| < TWO_64
    ensures Run(s, Streaming(r, chunks)).io == Run(s.(done := 0, crc := 0), Streaming(r, chunks)).io
       <==> RoomUnaffected(r.addedSize, s.done, |Concat(chunks)|) && HeaderUnaffected(r, s.done, s.crc)
  {
    hide Overwrite, ToBytes, Run, HasAddedSize, HasAddedDataCrc, Closed, Fixed, Shown, HeaderLen, ItemsBytes, Room,
      RoomUnaffected;
    var carry := Carry(s.done, s.crc);
    var i, j := Streamed(carry, r, chunks), Streamed(CLEAN, r, chunks);
    RoomUnaffectedIff(r.addedSize, s.done, |Concat(chunks)|);
    FixedKeeps(r);
    StreamedIo(s, r, chunks);
    StreamedIo(s.(done := 0, crc := 0), r, chunks);
    SameItemIff(s.io, carry, i, j);
    assert |i.added| == Room(r.addedSize, s.done, |Concat(chunks)|);
    assert |j.added| == Room(r.addedSize, 0, |Concat(chunks)|);
    if KeepsHeader(i.rec) {
      KeptHeader(carry, i);
      KeptHeader(CLEAN, j);
    } else if i.added == j.added {
      PatchedRightIff(carry, i);
    }
  }

  /** Two finished items at the same place leave the same stream exactly when data and header agree. */
  lemma SameItemIff(at: IoState, carry: Carry, i: Item, j: Item)
    requires at.pos <= |at.data| && i.rec == j.rec
    ensures var x, y := Closed(carry, i), Closed(CLEAN, j);
            (AfterWrite(at, ItemsBytes([x])) == AfterWrite(at, ItemsBytes([y]))
             <==> i.added == j.added && ToBytes(x.rec) == ToBytes(y.rec))
  {
    hide Overwrite, ToBytes, Closed, ItemsBytes;
    var x, y := Closed(carry, i), Closed(CLEAN, j);
    OneItemBytes(x);
    OneItemBytes(y);
    ClosedKeepsAdded(carry, i);
    ClosedKeepsAdded(CLEAN, j);
    ClosedLength(carry, i);
    ClosedLength(CLEAN, j);
    OverwriteFrame(at.data, at.pos, ItemsBytes([x]));
    OverwriteFrame(at.data, at.pos, ItemsBytes([y]));
    if ItemsBytes([x]) == ItemsBytes([y]) {
      var n := |ToBytes(x.rec)|;
      assert ToBytes(x.rec) == ItemsBytes([x])[..n] == ItemsBytes([y])[..n] == ToBytes(y.rec);
      assert i.added == ItemsBytes([x])[n..] == ItemsBytes([y])[n..] == j.added;
    }
  }

  lemma OneItemBytes(i: Item)
    ensures ItemsBytes([i]) == ToBytes(i.rec) + i.added
  {
    hide ToBytes;
    assert [i][..0] == [];
    assert [] + ItemBytes(i) == ItemBytes(i);
  }

  lemma ClosedLength(carry: Carry, i: Item)
    ensures |ToBytes(Closed(carry, i).rec)| == |ToBytes(i.rec)|
  {
    hide ToBytes, Fixed, RunningCrc, HeaderLen;
    FixedKeeps(i.rec.(addedSize := Wrap(carry.bytes + |i.added|), addedDataCRC32 := RunningCrc(carry, i)));
    ToBytesLength(i.rec);
    ToBytesLength(Closed(carry, i).rec);
  }

  /** The stream after one streamed record. */
  lemma StreamedIo(s: State, r: Rec, chunks: seq<seq<byte>>)
    requires s.ps.WriteRecord?
    requires Legal(r) && HasAddedSize(r.headFlags) && forall c :: c in chunks ==> |c| < TWO_64
    ensures var carry := Carry(s.done, s.crc);
            var i := Closed(carry, Streamed(carry, r, chunks));
            Run(s, Streaming(r, chunks)).io == AfterWrite(s.io, ItemsBytes([i]))
  {
    hide Overwrite, Holds, ItemsBytes, Run, LogRun, HasAddedSize, Refines, Closed, Streamed, HeaderLen;
    var ops := Streaming(r, chunks);
    WritingPhase(s, ops);
    StreamedLog(Start(s), r, chunks);
    EndIo(Run(s, ops), s.io, LogRun(Start(s), ops));
  }
}
