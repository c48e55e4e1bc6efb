/**
  Reading back: the parser inverts the serialiser, and draining added data conserves every byte for any
  sequence of buffer sizes.
  */
module Reader {
  import opened Words
  import opened Crc32c
  import opened BytePack
  import opened Stream
  import opened Record
  import opened Machine
  import opened Writer

  // ---- records ----

  predicate StartsWith(io: IoState, b: seq<byte>) {
    io.pos + |b| <= |io.data| && io.data[io.pos..io.pos + |b|] == b
  }

  lemma AheadOf(io: IoState, b: seq<byte>, c: seq<byte>)
    requires StartsWith(io, b + c)
    ensures Ahead(io, |b|) == b && AfterRead(io, |b|) == io.(pos := io.pos + |b|) && StartsWith(AfterRead(io, |b|), c)
  {
    var d := io.data[io.pos..io.pos + |b + c|];
    assert d == b + c;
    assert io.data[io.pos..io.pos + |b|] == d[..|b|] == b;
    assert io.data[io.pos + |b|..io.pos + |b + c|] == d[|b|..] == c;
  }

  /** A record as a reader sees it: fields the flags do not announce are zero, a short size field shows
      the number modulo 2^32. */
  function Canon(r: Rec): Rec {
    SizeFits(r.headFlags, r.addedSize);
    r.(addedSize := Shown(r.headFlags, r.addedSize), addedDataCRC32 := if HasAddedDataCrc(r.headFlags)
    then r.addedDataCRC32 else 0)
  }

  lemma SizeFits(flags: byte, v: u64)
    ensures Shown(flags, v) < TWO_64
  {}

  lemma HeaderSlices(r: Rec)
    ensures var b := Header(r);
            var n := 6 + SizeLen(r.headFlags);
            && b[..2] == Le(2, r.headCRC) && b[2] == r.headType && b[3] == r.headFlags && b[4..6] == Le(2, r.headSize)
            && b[6..n] == SizeField(r.headFlags, r.addedSize) && b[n..] == CrcField(r.headFlags, r.addedDataCRC32)
  {
    hide SizeField, CrcField, Le;
    var n := 6 + SizeLen(r.headFlags);
    var b := Header(r);
    var size, crc := SizeField(r.headFlags, r.addedSize), CrcField(r.headFlags, r.addedDataCRC32);
    assert b == (Le(2, r.headCRC) + FixedFields(r)) + size + crc;
    assert b[4..6] == Le(2, r.headSize);
  }

  lemma U16Le(v: u16)
    ensures U16(Le(2, v)) == v
  {
    hide LeValue, Le;
    Capacities();
    LeRoundTrip(2, v);
  }

  lemma CrcOfField(flags: byte, c: bv32)
    ensures CrcOf(CrcField(flags, c)) == if HasAddedDataCrc(flags) then c else 0
  {
    hide LeValue, Le, Word, Unsigned, HasAddedDataCrc;
    Capacities();
    LeRoundTrip(4, Unsigned(c));
    WordOfUnsigned(c);
  }

  /** The parser inverts the serialiser under every combination of flags. */
  lemma ParseInverts(r: Rec)
    ensures ParseHeader(Header(r)) == Canon(r).(data := [])
  {
    hide LeValue, Le, Shown, SizeField, CrcField, HasAddedDataCrc, SizeLen, U16, CrcOf, Header;
    HeaderSlices(r);
    U16Le(r.headCRC);
    U16Le(r.headSize);
    SizeFieldShows(r.headFlags, r.addedSize);
    CrcOfField(r.headFlags, r.addedDataCRC32);
    FieldLens(r.headFlags);
    var b := Header(r);
    var n := 6 + SizeLen(r.headFlags);
    assert b[n..HeaderLen(b[3])] == b[n..];
    assert ParseHeader(b).addedSize == U64(SizeField(r.headFlags, r.addedSize));
  }

  lemma HeaderIsAhead(io: IoState, r: Rec)
    requires StartsWith(io, Header(r))
    ensures HeaderAhead(io) == Header(r)
  {
    hide Header, HeaderLen;
    var b := Header(r);
    assert b == b[..6] + b[6..] && b + [] == b;
    AheadOf(io, b[..6], b[6..]);
    AheadOf(io, b, []);
    HeaderSlices(r);
    assert Zeros(0) == [];
    assert Padded(io, 6) == b[..6];
  }

  /** What a record says about its own length is right. */
  predicate Consistent(r: Rec) {
    r.headSize == HeaderLen(r.headFlags) + |r.data|
  }

  lemma HeaderRoundTrip(s: State, r: Rec, rest: seq<byte>)
    requires StartsWith(s.io, Header(r) + rest)
    ensures ReadHeader(s) == (s.(ps := ReadRecordData, crc := Canon(r).addedDataCRC32,
                              io := s.io.(pos := s.io.pos + |Header(r)|)),
                              Canon(r).(data := []))
    ensures StartsWith(ReadHeader(s).0.io, rest)
  {
    hide Header, HeaderLen, StartsWith, AfterRead, ParseHeader, Canon;
    AheadOf(s.io, Header(r), rest);
    Shorter(s.io, Header(r), rest);
    HeaderIsAhead(s.io, r);
    ParseInverts(r);
  }

  lemma DataRoundTrip(h: State, r: Rec, heap: seq<byte>, rest: seq<byte>)
    requires |heap| == 0x1_0000 && Consistent(r) && StartsWith(h.io, r.data + rest)
    ensures GetData(h, Canon(r).(data := []), heap)
         == (h.(ps := if HasAddedSize(r.headFlags) then ReadAddedData else ReadRecordHeader,
             total := Canon(r).addedSize,
             io := h.io.(pos := h.io.pos + |r.data|)), Ok, Canon(r))
    ensures StartsWith(h.io.(pos := h.io.pos + |r.data|), rest)
  {
    hide HeaderLen, HasAddedSize, StartsWith, AfterRead, Canon;
    CanonKeeps(r);
    AheadOf(h.io, r.data, rest);
    assert r.data + heap[|r.data|..|r.data|] == r.data;
  }

  /** Reading a record that lies ahead gives it back, and what follows is its added data. */
  lemma RecordRoundTrip(s: State, r: Rec, heap: seq<byte>, rest: seq<byte>)
    requires s.ps.ReadRecordHeader? && |heap| == 0x1_0000
    requires Consistent(r) && StartsWith(s.io, ToBytes(r) + rest)
    ensures var (t, err, got) := GetRecord(s, heap);
            && err.Ok? && got == Canon(r)
            && t == s.(ps := if HasAddedSize(r.headFlags) then ReadAddedData else ReadRecordHeader,
                    total := Canon(r).addedSize, done := 0, crc := Canon(r).addedDataCRC32, actual := 0,
                    io := s.io.(pos := s.io.pos + |ToBytes(r)|))
            && StartsWith(t.io, rest)
  {
    hide ToBytes, Header, HeaderLen, HasAddedSize, StartsWith, ReadHeader, GetData, Canon;
    HeaderThenData(r);
    assert ToBytes(r) + rest == Header(r) + (r.data + rest);
    var z := s.(done := 0, total := 0, crc := 0, actual := 0);
    HeaderRoundTrip(z, r, r.data + rest);
    DataRoundTrip(ReadHeader(z).0, r, heap, rest);
  }

  lemma Shorter(io: IoState, b: seq<byte>, c: seq<byte>)
    requires StartsWith(io, b + c)
    ensures StartsWith(io, b)
  {
    assert io.data[io.pos..io.pos + |b|] == io.data[io.pos..io.pos + |b + c|][..|b|];
  }

  lemma CanonKeeps(r: Rec)
    ensures Canon(r) == r.(addedSize := Canon(r).addedSize, addedDataCRC32 := Canon(r).addedDataCRC32)
  {}

  /** Nothing a reader loses is covered by the header CRC: the record read validates exactly when the one
      written did. */
  lemma CanonValidates(r: Rec)
    ensures Validated(Canon(r)) <==> Validated(r)
    ensures ToBytes(Canon(r)) == ToBytes(r)
  {
    hide Crc, Low16, Le, HasAddedDataCrc;
    CanonSizeField(r.headFlags, r.addedSize, Canon(r).addedSize);
    if !HasAddedDataCrc(r.headFlags) {
      assert CrcField(r.headFlags, 0) == [] == CrcField(r.headFlags, r.addedDataCRC32);
    }
    assert Fields(Canon(r)) == Fields(r);
  }

  lemma CanonSizeField(flags: byte, v: u64, w: u64)
    requires w == Shown(flags, v)
    ensures SizeField(flags, w) == SizeField(flags, v)
  {
    hide Le, HasAddedSize8, HasAddedSize4;
    if HasAddedSize4(flags) {
      Low4(v);
    }
    if !HasAddedSize8(flags) && !HasAddedSize4(flags) {
      EmptyField(v, w);
    }
  }

  lemma EmptyField(v: nat, w: nat)
    ensures Le(0, v) == Le(0, w)
  {}

  // ---- added data ----

  /** A sequence of reads of added data with the given buffer sizes, and everything they deliver. */
  function ReadCalls(s: State, sizes: seq<nat>): (State, seq<byte>) {
    if sizes == [] then (s, [])
    else
      var (t, out) := ReadCalls(s, sizes[..|sizes| - 1]);
      var (u, err, b) := GetAdded(t, sizes[|sizes| - 1]);
      (u, out + b)
  }

  function Sum(sizes: seq<nat>): nat {
    if sizes == [] then 0 else Sum(sizes[..|sizes| - 1]) + sizes[|sizes| - 1]
  }

  function Min(a: nat, b: nat): nat {
    if a < b then a else b
  }

  /** The state after `n` of the available bytes have been delivered by some calls. */
  function Drained(s: State, n: nat, called: bool): State
    requires n <= s.total && s.io.pos + n <= |s.io.data|
  {
    s.(ps := if called && n == s.total then ReadRecordHeader else ReadAddedData, total := s.total - n,
    done := Wrap(s.done + n),
    actual := Crc(s.actual, s.io.data[s.io.pos..s.io.pos + n]), io := s.io.(pos := s.io.pos + n))
  }

  lemma DrainStep(s: State, n: nat, called: bool, size: nat)
    requires s.ps.ReadAddedData? && n <= s.total && s.io.pos + s.total <= |s.io.data| && (called || n == 0)
    ensures var m := Min(n + size, s.total);
            var (u, err, b) := GetAdded(Drained(s, n, called), size);
            && u == Drained(s, m, true) && b == s.io.data[s.io.pos + n..s.io.pos + m]
            && (err.Ok? <==> !(called && n == s.total)) && (!err.Ok? ==> err.InvalidState?)
  {
    hide Crc, GetAdded, Drained;
    var m := Min(n + size, s.total);
    if n < s.total {
      DrainMore(s, n, m, called, size);
    } else {
      DrainNone(s, called, size);
      assert s.io.data[s.io.pos + n..s.io.pos + m] == [];
    }
  }

  lemma DrainMore(s: State, n: nat, m: nat, called: bool, size: nat)
    requires s.ps.ReadAddedData? && n < s.total && s.io.pos + s.total <= |s.io.data| && m == Min(n + size, s.total)
    ensures GetAdded(Drained(s, n, called), size)
         == (Drained(s, m, true), Ok, s.io.data[s.io.pos + n..s.io.pos + m])
  {
    hide Crc, Ahead, AfterRead, Wrap;
    AheadSlice(Drained(s, n, called).io, m - n);
    SpanCrc(s, n, m);
  }

  /** With nothing left, the first call of all still leaves the added data. */
  lemma DrainNone(s: State, called: bool, size: nat)
    requires s.ps.ReadAddedData? && s.io.pos + s.total <= |s.io.data|
    ensures var d := Drained(s, s.total, called);
            GetAdded(d, size) == if called then (d, InvalidState, []) else (Drained(s, s.total, true), Ok, [])
  {
    hide Crc, Ahead, AfterRead, Wrap;
  }

  lemma AheadSlice(io: IoState, k: nat)
    requires io.pos + k <= |io.data|
    ensures Ahead(io, k) == io.data[io.pos..io.pos + k] && AfterRead(io, k) == io.(pos := io.pos + k)
  {}

  lemma SpanCrc(s: State, n: nat, m: nat)
    requires n <= m && s.io.pos + m <= |s.io.data|
    ensures var d, p := s.io.data, s.io.pos;
            && Crc(Crc(s.actual, d[p..p + n]), d[p + n..p + m]) == Crc(s.actual, d[p..p + m])
            && Wrap(Wrap(s.done + n) + (m - n)) == Wrap(s.done + m)
  {
    hide Crc;
    var d, p := s.io.data, s.io.pos;
    CrcChunks(s.actual, d[p..p + n], d[p + n..p + m]);
    assert d[p..p + n] + d[p + n..p + m] == d[p..p + m];
    WrapSum(s.done + n, m - n);
  }

  /** Reader conservation.  For any buffer sizes, zero included, on a stream that has the data: the calls
      deliver the next bytes in order, available and already read always add up, the running CRC is that of
      the bytes delivered, and the reader is back at a record header exactly when at least one call was made
      and everything is delivered. */
  lemma {:induction false} ReadConserves(s: State, sizes: seq<nat>)
    requires s.ps.ReadAddedData? && s.io.pos + s.total <= |s.io.data|
    ensures var n := Min(Sum(sizes), s.total);
            && ReadCalls(s, sizes).1 == s.io.data[s.io.pos..s.io.pos + n]
            && (sizes == [] ==> ReadCalls(s, sizes).0 == s)
            && (sizes != [] ==> ReadCalls(s, sizes).0 == Drained(s, n, true))
  {
    hide Crc, GetAdded, Drained, Min;
    if sizes == [] {
      SumStep(s.total, 0, 0);
    } else {
      var front := sizes[..|sizes| - 1];
      var n := Min(Sum(front), s.total);
      var m := Min(Sum(sizes), s.total);
      ReadConserves(s, front);
      NothingDrained(s);
      SumStep(s.total, Sum(front), sizes[|sizes| - 1]);
      DrainStep(s, n, front != [], sizes[|sizes| - 1]);
      JoinSlices(s.io.data, s.io.pos, n, m);
    }
  }

  lemma SumStep(total: nat, sum: nat, size: nat)
    ensures var n := Min(sum, total);
            && n <= total && (sum == 0 ==> n == 0)
            && n <= Min(n + size, total) == Min(sum + size, total) <= total
  {}

  lemma JoinSlices(data: seq<byte>, p: nat, n: nat, m: nat)
    requires n <= m && p + m <= |data|
    ensures data[p..p + n] + data[p + n..p + m] == data[p..p + m]
  {}

  lemma NothingDrained(s: State)
    requires s.ps.ReadAddedData? && s.io.pos <= |s.io.data|
    ensures Drained(s, 0, false) == s
  {
    hide Crc;
    CrcEmpty(s.actual);
    assert s.io.data[s.io.pos..s.io.pos] == [];
  }

  // ---- streams that end too early ----

  /** The header a reader sees, on any stream: the bytes that are there and zeros for the others, as many as
      the flags among them announce. */
  lemma HeaderSeen(io: IoState)
    ensures var b := HeaderAhead(io);
            && |b| == HeaderLen(b[3])
            && forall k :: 0 <= k < |b| ==> b[k] == if io.pos + k < |io.data| then io.data[io.pos + k] else 0
  {
    hide HeaderLen;
  }

  /** A record cut off within its data is read all the same: what is missing of the data is whatever memory
      it is read into held. */
  lemma CutRecord(s: State, r: Rec, part: seq<byte>, heap: seq<byte>)
    requires s.ps.ReadRecordHeader? && |heap| == 0x1_0000 && Consistent(r) && |part| <= |r.data|
    requires StartsWith(s.io, Header(r) + part) && s.io.pos + |Header(r) + part| == |s.io.data|
    ensures var (t, err, got) := GetRecord(s, heap);
            && err.Ok? && got == Canon(r).(data := part + heap[|part|..|r.data|])
            && t.ps == (if HasAddedSize(r.headFlags) then ReadAddedData else ReadRecordHeader)
            && t.total == Canon(r).addedSize && t.io == s.io.(pos := |s.io.data|)
  {
    hide Header, HeaderLen, HasAddedSize, StartsWith, ReadHeader, GetData, Canon;
    var z := s.(done := 0, total := 0, crc := 0, actual := 0);
    HeaderRoundTrip(z, r, part);
    CutData(ReadHeader(z).0, r, part, heap);
  }

  lemma CutData(h: State, r: Rec, part: seq<byte>, heap: seq<byte>)
    requires |heap| == 0x1_0000 && Consistent(r) && |part| <= |r.data|
    requires StartsWith(h.io, part) && h.io.pos + |part| == |h.io.data|
    ensures GetData(h, Canon(r).(data := []), heap)
         == (h.(ps := if HasAddedSize(r.headFlags) then ReadAddedData else ReadRecordHeader,
             total := Canon(r).addedSize,
             io := h.io.(pos := |h.io.data|)), Ok, Canon(r).(data := part + heap[|part|..|r.data|]))
  {
    hide HeaderLen, HasAddedSize, Canon;
    CanonKeeps(r);
    AheadCut(h.io, part, |r.data|);
  }

  lemma AheadCut(io: IoState, part: seq<byte>, n: nat)
    requires StartsWith(io, part) && io.pos + |part| == |io.data| && |part| <= n
    ensures Ahead(io, n) == part && AfterRead(io, n) == io.(pos := |io.data|)
  {
    assert io.data[io.pos..] == io.data[io.pos..io.pos + |part|];
  }

  /** What the calls with these buffer sizes ask for and get when only `left` bytes are there: the buffers
      up to the first that cannot be filled. */
  function Filled(sizes: seq<nat>, left: nat): (n: nat)
    ensures n <= left
  {
    if sizes == [] then 0
    else if Sum(sizes) <= left then Sum(sizes)
    else Filled(sizes[..|sizes| - 1], left)
  }

  lemma SumSnoc(sizes: seq<nat>, size: nat)
    ensures Sum(sizes + [size]) == Sum(sizes) + size
  {
    assert (sizes + [size])[..|sizes|] == sizes;
  }

  /** The reader after such calls: it stays at the added data, and once a buffer could not be filled it stands at
      the end of the stream. */
  function Short(s: State, n: nat, filled: bool): State
    requires n < s.total && s.io.pos + n <= |s.io.data|
  {
    Drained(s, n, false).(io := s.io.(pos := if filled then s.io.pos + n else |s.io.data|))
  }

  /** A call asking for what is there, on a stream that has less than promised. */
  lemma ShortFilled(s: State, n: nat, size: nat)
    requires s.ps.ReadAddedData? && s.io.pos <= |s.io.data| < s.io.pos + s.total
    requires s.io.pos + n + size <= |s.io.data|
    ensures GetAdded(Short(s, n, true), size)
         == (Short(s, n + size, true), Ok, s.io.data[s.io.pos + n..s.io.pos + n + size])
  {
    hide Crc, Ahead, AfterRead, Wrap;
    AheadSlice(Short(s, n, true).io, size);
    SpanCrc(s, n, n + size);
  }

  /** A call asking for more, or any further call with room for something. */
  lemma ShortRefused(s: State, n: nat, filled: bool, size: nat)
    requires s.ps.ReadAddedData? && s.io.pos <= |s.io.data| < s.io.pos + s.total && s.io.pos + n <= |s.io.data|
    requires size > 0 && (filled ==> s.io.pos + n + size > |s.io.data|)
    ensures GetAdded(Short(s, n, filled), size) == (Short(s, n, false), ReadFailed, [])
  {
    hide Crc, Wrap;
  }

  /** With no room it asks for nothing and gets it. */
  lemma ShortNothing(s: State, n: nat)
    requires s.ps.ReadAddedData? && s.io.pos <= |s.io.data| < s.io.pos + s.total && s.io.pos + n <= |s.io.data|
    ensures GetAdded(Short(s, n, false), 0) == (Short(s, n, false), Ok, [])
  {
    hide Crc, Wrap;
    AheadSlice(Short(s, n, false).io, 0);
    WrapOnce(s.done + n);
    CrcEmpty(Crc(s.actual, s.io.data[s.io.pos..s.io.pos + n]));
  }

  lemma WrapOnce(n: nat)
    ensures Wrap(Wrap(n) + 0) == Wrap(n)
  {}

  /** Reading on a stream that ends within the added data, for any buffer sizes: the calls deliver the bytes
      that fill whole buffers and no others, count exactly those, and never leave the added data; the next
      call succeeds exactly when its buffer can be filled as well, and when it is refused it delivers
      nothing and changes the position only. */
  lemma {:induction false} ShortStream(s: State, sizes: seq<nat>, size: nat)
    requires s.ps.ReadAddedData? && s.io.pos <= |s.io.data| < s.io.pos + s.total
    ensures var left := |s.io.data| - s.io.pos;
            var n := Filled(sizes, left);
            var (t, out) := ReadCalls(s, sizes);
            var (u, err, b) := GetAdded(t, size);
            && out == s.io.data[s.io.pos..s.io.pos + n]
            && t.ps.ReadAddedData? && t.total == s.total - n && t.done == Wrap(s.done + n)
            && t.actual == Crc(s.actual, out) && t.crc == s.crc
            && t.io == s.io.(pos := if Sum(sizes) <= left then s.io.pos + n else |s.io.data|)
            && (err.Ok? <==> size == 0 || Sum(sizes + [size]) <= left)
            && (!err.Ok? ==> err.ReadFailed? && b == [] && u == t.(io := t.io.(pos := |s.io.data|)))
  {
    hide Crc, GetAdded, Wrap, Filled, Sum, ReadCalls;
    ShortRun(s, sizes);
    SumSnoc(sizes, size);
    var left := |s.io.data| - s.io.pos;
    var n := Filled(sizes, left);
    FilledAll(sizes, left);
    if Sum(sizes) <= left && Sum(sizes) + size <= left {
      ShortFilled(s, n, size);
    } else if size > 0 {
      ShortRefused(s, n, Sum(sizes) <= left, size);
    } else {
      ShortNothing(s, n);
    }
  }

  lemma FilledAll(sizes: seq<nat>, left: nat)
    ensures Sum(sizes) <= left ==> Filled(sizes, left) == Sum(sizes)
  {}

  lemma {:induction false} ShortRun(s: State, sizes: seq<nat>)
    requires s.ps.ReadAddedData? && s.io.pos <= |s.io.data| < s.io.pos + s.total
    ensures var left := |s.io.data| - s.io.pos;
            var n := Filled(sizes, left);
            ReadCalls(s, sizes) == (Short(s, n, Sum(sizes) <= left), s.io.data[s.io.pos..s.io.pos + n])
  {
    hide Crc, GetAdded, Short, Filled, Sum, ReadCalls;
    var left := |s.io.data| - s.io.pos;
    if sizes == [] {
      NothingShort(s);
      NoCalls(s, left);
      assert s.io.data[s.io.pos..s.io.pos + 0] == [];
    } else {
      var front, size := sizes[..|sizes| - 1], sizes[|sizes| - 1];
      var n := Filled(front, left);
      ShortRun(s, front);
      FilledStep(sizes, left);
      OneMoreCall(s, sizes);
      var out := s.io.data[s.io.pos..s.io.pos + n];
      assert out + [] == out;
      if Sum(sizes) <= left {
        ShortFilled(s, n, size);
        JoinSlices(s.io.data, s.io.pos, n, n + size);
      } else if size > 0 {
        ShortRefused(s, n, Sum(front) <= left, size);
      } else {
        ShortNothing(s, n);
      }
    }
  }

  lemma NoCalls(s: State, left: nat)
    ensures Sum([]) == 0 && Filled([], left) == 0 && ReadCalls(s, []) == (s, [])
  {}

  lemma FilledStep(sizes: seq<nat>, left: nat)
    requires sizes != []
    ensures var front, size := sizes[..|sizes| - 1], sizes[|sizes| - 1];
            && Sum(sizes) == Sum(front) + size
            && Filled(sizes, left) == Filled(front, left) + (if Sum(sizes) <= left then size else 0)
            && (Sum(front) <= left ==> Filled(front, left) == Sum(front))
  {
    FilledAll(sizes[..|sizes| - 1], left);
  }

  lemma OneMoreCall(s: State, sizes: seq<nat>)
    requires sizes != []
    ensures var (t, out) := ReadCalls(s, sizes[..|sizes| - 1]);
            var (u, err, b) := GetAdded(t, sizes[|sizes| - 1]);
            ReadCalls(s, sizes) == (u, out + b)
  {
    hide GetAdded;
  }

  lemma NothingShort(s: State)
    requires s.ps.ReadAddedData? && s.io.pos <= |s.io.data| && s.total > 0
    ensures Short(s, 0, true) == s
  {
    hide Crc;
    NothingDrained(s);
  }

  /** Until its added data has been read, a record blocks the next one: on a stream that has the data the next
      record can be read exactly when there was a call and the buffers had room for everything, and on a
      shorter stream never. */
  lemma NextRecordIff(s: State, sizes: seq<nat>, heap: seq<byte>)
    requires s.ps.ReadAddedData? && s.io.pos <= |s.io.data| && |heap| == 0x1_0000
    ensures var (t, err, r) := GetRecord(ReadCalls(s, sizes).0, heap);
            && (!err.InvalidState? <==> sizes != [] && Sum(sizes) >= s.total && s.io.pos + s.total <= |s.io.data|)
            && (err.InvalidState? ==> t == ReadCalls(s, sizes).0)
  {
    hide Crc, GetAdded, Sum, ReadCalls, ReadHeader, GetData;
    var t := ReadCalls(s, sizes).0;
    if s.io.pos + s.total <= |s.io.data| {
      ReadConserves(s, sizes);
    } else {
      ShortStream(s, sizes, 0);
    }
    OnlyAtHeader(t, heap);
  }

  lemma OnlyAtHeader(s: State, heap: seq<byte>)
    requires |heap| == 0x1_0000
    ensures var (t, err, r) := GetRecord(s, heap);
            (err.InvalidState? <==> !s.ps.ReadRecordHeader?) && (err.InvalidState? ==> t == s)
  {
    hide ReadHeader, HeaderLen, Ahead, HasAddedSize;
  }

  /** Reading as long as data is reported available: a zero-length field reports none, so the call that
      would leave it is never made. */
  function ReadWhileAvailable(s: State, size: nat): State
    requires size > 0
    decreases s.total
  {
    if !AddedDataAvailable(s) then s
    else
      var (t, err, b) := GetAdded(s, size);
      if !err.Ok? then t else if t.total >= s.total then t else ReadWhileAvailable(t, size)
  }

  /** The loop over available data brings the reader to the next record exactly when there was some. */
  lemma {:induction false} AvailabilityLoopIff(s: State, size: nat)
    requires s.ps.ReadAddedData? && s.io.pos + s.total <= |s.io.data| && size > 0
    ensures ReadWhileAvailable(s, size).ps.ReadRecordHeader? <==> s.total > 0
    decreases s.total
  {
    hide Crc;
    if s.total > 0 {
      var t := GetAdded(s, size).0;
      if t.total > 0 {
        AvailabilityLoopIff(t, size);
      }
    }
  }
}
