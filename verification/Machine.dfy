/**
  The archive handle as a state machine: one function per operation, from the state before to the state
  after.  The methods of `Handle.Kcf` are proved to take exactly these steps; the theorems about runs are
  proved about them.
  */
module Machine {
  import opened Words
  import opened Crc32c
  import opened BytePack
  import opened Stream
  import opened Record

  datatype PState =
    | Neutral
    | Reading | ReadMarker | ReadRecordHeader | ReadRecordData | ReadAddedData
    | Writing | WriteMarker | WriteRecord | WriteAddedData

  predicate IsReading(p: PState) {
    p.Reading? || p.ReadMarker? || p.ReadRecordHeader? || p.ReadRecordData? || p.ReadAddedData?
  }

  predicate IsWriting(p: PState) {
    p.Writing? || p.WriteMarker? || p.WriteRecord? || p.WriteAddedData?
  }

  datatype KcfError = Ok | InvalidState | InvalidFormat | OutOfMemory | ReadFailed

  /** The handle and the stream under it.  `total` and `done` are the two unions: added data available
      and already read while reading, to be written and already written while writing. */
  datatype State = State(ps: PState, total: u64, done: u64, crc: bv32, actual: bv32,
                         recordOffset: nat, recordEndOffset: nat, hasCrc: bool, hasSize: bool,
                         last: Rec, io: IoState)

  const EMPTY_REC := Rec(0, 0, 0, 0, 0, 0, [])

  /** A new handle on a stream. */
  function Fresh(data: seq<byte>): State {
    State(Neutral, 0, 0, 0, 0, 0, 0, false, false, EMPTY_REC, IoState(data, 0))
  }

  const TWO_64: nat := 0x1_0000_0000_0000_0000

  function Wrap(n: nat): u64 {
    n % TWO_64
  }

  /** Unsigned subtraction in 64 bits. */
  function WrapSub(a: u64, b: u64): u64 {
    if a >= b then a - b else a + TWO_64 - b
  }

  // ---- the marker ----

  /** "KC!", 0x1A, 0x06, 0x00. */
  const MARKER: seq<byte> := [0x4B, 0x43, 0x21, 0x1A, 0x06, 0x00]

  predicate MarkerAt(data: seq<byte>, p: nat) {
    p + 6 <= |data| && data[p..p + 6] == MARKER
  }

  datatype Option<T> = None | Some(value: T)

  /** The first position of the marker at or after `p`. */
  function FirstMarker(data: seq<byte>, p: nat): Option<nat>
    decreases |data| - p
  {
    if p + 6 > |data| then None else if MarkerAt(data, p) then Some(p) else FirstMarker(data, p + 1)
  }

  function FindMarker(s: State): (State, KcfError) {
    if !s.ps.ReadMarker? then (s, InvalidState)
    else match FirstMarker(s.io.data, s.io.pos)
         case Some(p) => (s.(ps := ReadRecordHeader, io := s.io.(pos := p + 6)), Ok)
         case None =>
           var end := if s.io.pos < |s.io.data| then |s.io.data| else s.io.pos;
           (s.(io := s.io.(pos := end)), InvalidFormat)
  }

  function PutMarker(s: State): (State, KcfError) {
    if !s.ps.WriteMarker? then (s, InvalidState)
    else (s.(ps := WriteRecord, io := AfterWrite(s.io, MARKER)), Ok)
  }

  // ---- writing ----

  /** The header kept for patching, with the size and CRC of what was actually written. */
  function Patched(s: State): Rec {
    Fixed(s.last.(addedSize := s.done, addedDataCRC32 := s.crc))
  }

  predicate Patches(s: State) {
    !(s.total > 0 && !s.hasCrc)
  }

  /** The stream once the header has been rewritten in place and the position restored. */
  function AfterPatch(s: State): IoState {
    IoState(AfterWrite(s.io.(pos := s.recordOffset), ToBytes(Patched(s))).data, s.io.pos)
  }

  /** Ready for the next record, with nothing left of the last one. */
  function Cleared(s: State, io: IoState): State {
    State(WriteRecord, 0, 0, 0, s.actual, 0, 0, false, false, EMPTY_REC, io)
  }

  function Finish(s: State): (State, KcfError) {
    if !s.ps.WriteAddedData? then (s, InvalidState)
    else (Cleared(s, if Patches(s) then AfterPatch(s) else s.io), Ok)
  }

  /** The common entry of the two record writers: an open record is finished first. */
  function BeginRecord(s: State): (State, KcfError) {
    if !IsWriting(s.ps) then (s, InvalidState)
    else if s.ps.WriteMarker? then (s, InvalidState)
    else if s.ps.WriteAddedData? then (Finish(s).0, Ok)
    else (s.(ps := WriteRecord), Ok)
  }

  /** Writes a fixed record, and keeps it for patching if it announces added data. */
  function Emit(b: State, f: Rec): State {
    var w := b.(recordOffset := b.io.pos, io := AfterWrite(b.io, ToBytes(f)),
             hasSize := HasAddedSize(f.headFlags), hasCrc := HasAddedDataCrc(f.headFlags));
    if HasAddedSize(f.headFlags) then w.(last := f, total := f.addedSize, ps := WriteAddedData) else w
  }

  function PutRecord(s: State, r: Rec): (State, KcfError) {
    var (b, err) := BeginRecord(s);
    if !err.Ok? then (b, err) else (Emit(b, Fixed(r)), Ok)
  }

  /** A record with flags, size and CRC set for added data that is at hand. */
  function BeforeFix(r: Rec, added: seq<byte>): Rec {
    if added == [] then r.(headFlags := ClearAdded(r.headFlags), addedSize := 0, addedDataCRC32 := 0)
    else r.(headFlags := if |added| > 2147483647 then SetAddedSize8(r.headFlags) else SetAddedSize4(r.headFlags),
         addedSize := Wrap(|added|),
         addedDataCRC32 := if HasAddedDataCrc(r.headFlags) then Crc(0, added) else r.addedDataCRC32)
  }

  /** The record as it is written together with its added data. */
  function WithAdded(r: Rec, added: seq<byte>): Rec {
    Fixed(BeforeFix(r, added))
  }

  function PutRecordWith(s: State, r: Rec, added: seq<byte>): (State, KcfError) {
    var (b, err) := BeginRecord(s);
    if !err.Ok? then (b, err)
    else (b.(io := AfterWrite(AfterWrite(b.io, ToBytes(WithAdded(r, added))), added)), Ok)
  }

  /** How much of `n` bytes is taken when `counted` bytes of a declared size have been counted. */
  function Room(declared: u64, counted: u64, n: nat): (k: nat)
    ensures k <= n
  {
    if declared == 0 then n else
    var remaining := WrapSub(declared, counted);
    if n > remaining then remaining else n
  }

  function PutAdded(s: State, chunk: seq<byte>): (State, KcfError) {
    if !s.ps.WriteAddedData? then (s, InvalidState)
    else if s.total > 0 && WrapSub(s.total, s.done) == 0 then (s, Ok)
    else
      var b := chunk[..Room(s.total, s.done, |chunk|)];
      (s.(io := AfterWrite(s.io, b), done := Wrap(s.done + |b|),
       crc := if s.hasCrc then Crc(s.crc, b) else s.crc), Ok)
  }

  // ---- reading ----

  function Zeros(n: nat): (b: seq<byte>)
    ensures |b| == n
  {
    seq(n, _ => 0)
  }

  /** The next `n` bytes as a zero-filled buffer sees them. */
  function Padded(io: IoState, n: nat): (b: seq<byte>)
    ensures |b| == n
  {
    Ahead(io, n) + Zeros(n - |Ahead(io, n)|)
  }

  function U16(b: seq<byte>): u16
    requires |b| == 2
  {
    LeValueBound(b);
    Capacities();
    LeValue(b)
  }

  function U32(b: seq<byte>): u32
    requires |b| == 4
  {
    LeValueBound(b);
    Capacities();
    LeValue(b)
  }

  function U64(b: seq<byte>): u64
    requires |b| == 0 || |b| == 4 || |b| == 8
  {
    LeValueBound(b);
    Capacities();
    LeValue(b)
  }

  /** The CRC in an optional field. */
  function CrcOf(b: seq<byte>): bv32
    requires |b| == 0 || |b| == 4
  {
    if |b| == 4 then Word(U32(b)) else 0
  }

  /** The header a byte sequence starts with; the data is still to come. */
  function ParseHeader(b: seq<byte>): Rec
    requires |b| >= 6 && |b| >= HeaderLen(b[3])
  {
    var n := SizeLen(b[3]);
    Rec(U16(b[..2]), b[2], b[3], U16(b[4..6]), U64(b[6..6 + n]),
        CrcOf(b[6 + n..HeaderLen(b[3])]), [])
  }

  function HeaderAhead(io: IoState): (b: seq<byte>)
    ensures |b| >= 6 && |b| == HeaderLen(b[3])
  {
    var b := Padded(io, HeaderLen(Padded(io, 6)[3]));
    assert b[3] == Padded(io, 6)[3];
    b
  }

  /** Reads a header.  The record's state is entered even if the stream ended early. */
  function ReadHeader(s: State): (State, Rec) {
    var b := HeaderAhead(s.io);
    var r := ParseHeader(b);
    (s.(ps := ReadRecordData, crc := r.addedDataCRC32, io := AfterRead(s.io, |b|)), r)
  }

  /** Reads a record's data after its header `r`.  `heap` is what the allocator's memory holds before the
      data is read into it.  A declared size below the header's own length makes the data length wrap
      around to a number that cannot be allocated. */
  function GetData(h: State, r: Rec, heap: seq<byte>): (State, KcfError, Rec)
    requires |heap| == 0x1_0000
  {
    if r.headSize < HeaderLen(r.headFlags) then (h, OutOfMemory, r)
    else
      var n := r.headSize - HeaderLen(r.headFlags);
      var got := Ahead(h.io, n);
      (h.(io := AfterRead(h.io, n), total := r.addedSize, ps := if HasAddedSize(r.headFlags)
       then ReadAddedData else ReadRecordHeader),
       Ok, r.(data := got + heap[|got|..n]))
  }

  function GetRecord(s: State, heap: seq<byte>): (State, KcfError, Rec)
    requires |heap| == 0x1_0000
  {
    if !s.ps.ReadRecordHeader? then (s, InvalidState, EMPTY_REC)
    else
      var (h, r) := ReadHeader(s.(done := 0, total := 0, crc := 0, actual := 0));
      GetData(h, r, heap)
  }

  /** The availability test callers use to decide whether to go on reading added data. */
  predicate AddedDataAvailable(s: State) {
    s.total > 0
  }

  function GetAdded(s: State, size: nat): (State, KcfError, seq<byte>) {
    if !s.ps.ReadAddedData? then (s, InvalidState, [])
    else if s.total == 0 then (s.(ps := ReadRecordHeader), Ok, [])
    else
      var n := if s.total < size then s.total else size;
      var got := Ahead(s.io, n);
      if |got| < n then (s.(io := AfterRead(s.io, n)), ReadFailed, [])
      else
        (s.(io := AfterRead(s.io, n), total := s.total - n, done := Wrap(s.done + n), actual := Crc(s.actual, got),
         ps := if s.total == n then ReadRecordHeader else ReadAddedData), Ok, got)
  }

  // ---- mode changes ----

  function StartReading(s: State): (State, KcfError) {
    match s.ps
    case Neutral => (s.(ps := ReadMarker), Ok)
    case Reading => (s.(ps := ReadMarker), Ok)
    case WriteMarker => (s.(ps := Reading), Ok)
    case WriteAddedData => (Finish(s).0.(ps := ReadRecordHeader), Ok)
    case WriteRecord => (s.(ps := ReadRecordHeader), Ok)
    case _ => (s, Ok)
  }

  function StartWriting(s: State): (State, KcfError) {
    match s.ps
    case Neutral => PutMarker(s.(ps := WriteMarker))
    case Reading => PutMarker(s.(ps := WriteMarker))
    case Writing => PutMarker(s.(ps := WriteMarker))
    case ReadMarker => PutMarker(s.(ps := WriteMarker))
    case ReadRecordHeader => (s.(ps := WriteRecord), Ok)
    case ReadAddedData => (s, InvalidState)
    case ReadRecordData => (s, InvalidState)
    case _ => (s, Ok)
  }

  /** The archive header record of format version 1. */
  const ARCHIVE_HEADER: Rec := Rec(0, 0x41, 0, 0, 0, 0, [1, 0])

  function InitArchive(s: State): (State, KcfError) {
    var (w, err) := StartWriting(s);
    if !err.Ok? then (w, err) else PutRecord(w, ARCHIVE_HEADER)
  }
}
