# KCF container: verified model

KCF ("Kondratenko's Container File") stores a sequence of records behind a six-byte marker. A record has a
small header, some data, and optionally *added data* of any length whose size and CRC-32C stand in the
header. This project models two layers of the program and proves that they do what they are for.

**The CRC-32C engine.** `Crc32c` defines the checksum one message bit at a time (section 12.1 of RFC 3720) and
proves the algebra of the shift register: it is linear and injective, and messages combine by superposition.
`Burst` proves what that detects: damage within 32 consecutive bits always shows. `Gf2` models the 32x32 matrices over GF(2), the operator that
appends zero bytes built by repeated squaring in two alternating buffers, and its four-table form.
`CrcHardware` is the three-way interleaved form for the crc32 instructions, `CrcSoftware` the two table-driven
forms for little- and big-endian machines, `Checksum` the choice between them. Every form is a method with the
source's loops, proved to return the bit-at-a-time CRC for every seed, buffer, length and start alignment.

**The record container.** `BytePack`, `Record` and `FileInfo` serialise and parse; `Stream` is a seekable byte
stream. `Machine` gives one function per archive operation, from the handle's state before to its state after;
the class `Handle.Kcf`, whose methods update fields, header buffers and stream in place, is proved to take
exactly these steps. `Writer` says what any sequence of writer calls leaves in the stream, in terms of a log of
records with their added data; `WriterLaws` what that means for a caller; `Reader` that parsing and draining
invert it; `RoundTrip` puts the two together and `Entries` says so call by call; `Phases` treats runs that mix
reading and writing, and `Switching` says what each mode switch makes possible.

Nothing is tied to its own definition alone. The layouts are stated byte by byte in numbers, flags by their binary
digits (`Digits`), the header CRC as a number modulo 2^16, and `Format` has the archives published with the program,
byte for byte.

C's fixed-width arithmetic is explicit: CRC values are 32-bit vectors, bytes 8-bit vectors, sizes and counters
numbers below 2^16, 2^32 or 2^64 with wrap-around written out. `Xor`, `Not`, `Down8` and the like are the C
operators under names, so that proofs can hide them.

## Results

- The interleaved, the little-endian and the big-endian form all return the reference CRC
  (`CrcHardware.Engine.Crc32cHw`, `CrcSoftware.Little.Crc32cSwLittle`, `CrcSoftware.Big.Crc32cSwBig`), so they
  agree with each other, and any chunking gives the CRC of the whole (`Crc32c.AnyPartition`).
- `Gf2.Crc32cZerosOp` leaves the operator for the largest power of two not above its length, 1 for 0.
- Over every run of writer calls the stream is the log (`Writer.WritingPhase`); patching a header on finishing
  replaces just the header bytes (`Writer.PatchReplacesHeader`), and streaming in chunks leaves the stream of a
  single call exactly under a condition on size and flags (`WriterLaws.StreamingIsOneCall`).
- Every archive written within the stated limits reads back as written, for any chunking and any buffer sizes
  (`RoundTrip.ArchiveRoundTrip`), and those limits are exactly what makes the items sound
  (`RoundTrip.WrittenSoundIff`, `RoundTrip.ItemReadIff`). Every record call is answered by one record read back,
  with its data and all the chunks given for it, cut to the declared size (`Entries.RecordsComeBack`).
- A damaged record is refused exactly unless the checksums agree modulo 2^16 (`Record.DamageRefusedIff`), and the
  file parser answers so (`FileInfo.KcfFileInfo.Parse`).
- On a stream that ends too early no call delivers a byte that does not fill its buffer, and none leaves the added
  data; whether a call succeeds is told exactly (`Reader.ShortStream`, `Reader.NextRecordIff`).
- Records replaced inside an archive leave the reader right behind them (`Switching.ReadOnBehind`).
- Damage to stored added data within 32 consecutive bits, wherever in their bytes these lie, makes the CRC computed
  on reading differ from the stored one (`Burst.BurstDetected`, `RoundTrip.DamageShows`); 33 bits can go unnoticed
  (`Burst.GeneratorUndetected`).

Where the code does less than its interface promises, the exact condition is proved:

- Going from reading to writing does not reset the byte counter and the CRC, which the union fields then hand
  to the writer. The record streamed next leaves the stream a fresh handle would leave exactly when the left-over
  count takes no room from the data offered, and the header either is not patched or shows neither of the two
  (`WriterLaws.LeftOverCountersIff`, `Phases.WritingAfterReadingIff`). With a declared size the room that remains
  wraps around in 64 bits: the size is never exceeded exactly when the left-over count is not above it, and what is
  kept is what a clean writer keeps, for all offers, exactly when nothing is left over
  (`WriterLaws.DeclaredKeptIff`). `Phases.LeftOverExample` and `Phases.DeclaredSizeExample` are archives, opened
  and read by calls, after which the next record is wrong.
- An archive read to its end and extended holds the old and the new records, for all writer calls, exactly when the
  record read last leaves nothing behind (`Phases.AppendedArchive`).
- A record with an added-size field of 0 is not passed by a loop that reads while added data is available
  (`Reader.AvailabilityLoopIff`).
- A record whose `HeadSize` is below its header's length leaves the handle in a state no call gets out of
  (`Phases.MalformedHeaderIsFinal`). Reading on at the end of the stream is such a case: a reader that goes one
  record too far can never write again (`Phases.ReadingOnIsFinal`).
- An eight-byte unpacked size announced without `HasUnpackedSize` breaks the file-information layout
  (`FileInfo.InfoRoundTripIff`), and a name is copied from inside a record's data exactly when the data is as
  long as its flags and name length say (`FileInfo.NameInsideIff`).
- A record is stored whole and inside the buffer allocated for it exactly when its length fits the 16-bit
  `HeadSize` (`Record.FitsItsBufferIff`).

## Readings of the source

- `kcf/crc32c.c:240-249`: the tail loop advances `next` only in the branch for other compilers; that branch is
  modelled. The first loop comment of `crc32c_zeros_op` says "less than" where the code gives "not above".
- `kcf/marker.c` and `kcf/read.c:224` name states that `kcf/kcf_impl.h` no longer has. They are read as the
  `ParserState` values: marker states as `READ_MARKER` and `WRITE_MARKER`, the reader's as
  `READ_RECORD_HEADER`, and the writer's idle state after the marker as `WRITE_RECORD`, the only reading under
  which `KCF_start_reading` switches to reading there, as its description says. `IsWriting`, never assigned, is
  not modelled.
- `kcf/files.c`: `file_info_to_record` parses and `record_to_file_info` serialises. The parser leaves the file
  type alone, as the code does.
- `kcf/write.h:38-41` announces the eight-byte size from 2^31 - 1 bytes on; the code uses it above that, which
  is what `Machine.BeforeFix` does. The repository's format description and `include/kcf/archive.h:44` disagree
  on the type byte of regular files, `F` against `R`; file types are plain bytes here.
- Data lengths that wrap around (a header longer than `HeadSize`) are taken to fail to allocate; memory for
  data shorter than promised keeps what the allocator left in it, a parameter of the read.
- `rec_to_buffer` and `file_info_to_record` copy without a bound. The memory behind a buffer or behind a record's
  data is then taken to exist: the array given to `ToBuffer` may be longer than its size, and `Parse` takes what
  lies behind the data as a parameter. Variables that a read past the end leaves unset have arbitrary values.
- The name of a file is measured with `strlen`, so it holds no zero byte in the source. `FileInfo.Info` allows any
  bytes, and the theorems about names cover more than the source can hold.

## Model

| member | source | states |
|---|---|---|
| Crc32c.BitStepIsTimesX | kcf/crc32c.c:52-53 | with the register read most significant coefficient first, a step is multiplication by x modulo the standard's generator |
| Crc32c.CheckValue | kcf/crc32c.h:12-16 | the definition gives the published check value for "123456789" |
| Crc32c.ZeroBitsLinear | kcf/crc32c.c:63-72 | any number of empty steps is linear over exclusive or |
| Crc32c.ZeroBitsInjective | kcf/crc32c.c:52-53 | any number of empty steps loses no state |
| Crc32c.ByteStepByTable | kcf/crc32c.c:349-352 | a message byte is a table value of the low byte xored onto the state shifted by eight |
| Crc32c.RawCombine | kcf/crc32c.c:204-205 | the state after two parts is the first part's state under as many zero bytes, xored with the second part's zero-seeded state |
| Crc32c.RawInjective | kcf/crc32c.c:344-375 | different states stay different over any message |
| Crc32c.CrcChunks | kcf/crc32c.h:12-16 | seeding a call with the previous result continues the checksum despite the complements |
| Crc32c.AnyPartition | kcf/crc32c.h:12-16 | every partition of a buffer into chunks gives the checksum of the whole |
| Crc32c.CrcSeedInjective | kcf/crc32c.h:12-16 | two seeds never collide on the same bytes |
| Burst.RawIsRawBits | kcf/crc32c.c:52-53 | the register after a message is the one after its bits, the low bit of each byte first |
| Burst.ShortBitsInjective | kcf/crc32c.c:52-53 | different strings of up to 32 bits leave different registers |
| Burst.BurstDetected | kcf/crc32c.c:52-53 | buffers that differ, and only within 32 consecutive bits, have different checksums for every seed |
| Burst.GeneratorUndetected | kcf/crc32c.c:52-53 | that bound is sharp: a difference within 33 bits, the generator, changes no checksum, whatever stands around it |
| Gf2.Gf2MatrixTimes | kcf/crc32c.c:63-72 | the shifting loop stays within 32 columns and sums those the vector selects |
| Gf2.TimesIsZeroBits | kcf/crc32c.c:59-62 | a matrix holding the images of the unit vectors acts on all 2^32 states as the operator itself |
| Gf2.Gf2MatrixSquare | kcf/crc32c.c:74-79 | every column of the result is the matrix applied to its own column |
| Gf2.SquareIsZerosOp | kcf/crc32c.c:74-79 | squaring the operator for n zero bits gives the one for 2n |
| Gf2.OneZeroBitOp | kcf/crc32c.c:89-95 | the initial matrix is the operator for one zero bit |
| Gf2.PowerFloorBounds | kcf/crc32c.c:81-85 | the number of bytes is a power of two, not above the length (1 for 0) and more than half of it |
| Gf2.Crc32cZerosOp | kcf/crc32c.c:86-118 | for every length the destination ends with the operator for that power of two of zero bytes, in whichever buffer it was computed |
| Gf2.Crc32cZeros | kcf/crc32c.c:120-132 | the four tables hold the operator on every byte value in every position |
| Gf2.ShiftIsZeroBits | kcf/crc32c.c:134-138 | four lookups apply the operator to any state |
| CrcHardware.Crc32qStep | kcf/crc32c.c:198-200 | the eight-byte instruction on a little-endian load advances the checksum by those eight bytes |
| CrcHardware.ThreeStreams | kcf/crc32c.c:182-206 | three separately computed streams combine to the state of their concatenation |
| CrcHardware.CombineByTables | kcf/crc32c.c:134-138 | the tables stitch two parts of a message together for every state |
| CrcHardware.InterleavedBlock | kcf/crc32c.c:187-206 | one interleaved block advances the state by its three streams of bytes |
| CrcHardware.Engine.InitHw | kcf/crc32c.c:150-158 | afterwards both table sets are right, whether or not they were before |
| CrcHardware.Engine.Crc32cHw | kcf/crc32c.c:160-268 | the hardware form returns the bit-at-a-time checksum for every seed, buffer and alignment, and terminates |
| CrcSoftware.EightBytesAreSlices | kcf/crc32c.c:353-364 | eight bytes advance the state by eight lookups in the word of state and bytes |
| CrcSoftware.SliceNext | kcf/crc32c.c:333-338 | each table follows from the one before by one zero byte |
| CrcSoftware.Little.InitSwLittle | kcf/crc32c.c:313-340 | table k holds the effect of k + 1 zero bytes on every byte value |
| CrcSoftware.Little.Crc32cSwLittle | kcf/crc32c.c:342-375 | the little-endian form returns the bit-at-a-time checksum for every seed, buffer and alignment |
| CrcSoftware.Big.InitSwBig | kcf/crc32c.c:389-418 | the byte table is unswapped, the eight word tables are the same slices byte-swapped |
| CrcSoftware.BigWord | kcf/crc32c.c:432-434 | the swapped state xored with a big-endian load is the swap of the little-endian word |
| CrcSoftware.Big.WordLookupIsSum | kcf/crc32c.c:435-442 | the swapped tables in opposite order give the swapped sum of slices |
| CrcSoftware.Big.Crc32cSwBig | kcf/crc32c.c:420-453 | the big-endian form returns the bit-at-a-time checksum for every seed, buffer and alignment |
| Checksum.Engines.Crc32cSw | kcf/crc32c.c:455-468 | the machine's byte order does not show in the result |
| Checksum.Engines.Crc32c | kcf/crc32c.c:296-303 | neither does the choice of hardware or software |
| BytePack.WriteU8 | kcf/bytepack.c:105-113 | stores a byte where there is room and moves the offset by what was stored |
| BytePack.WriteU16 | kcf/bytepack.c:115-120 | stores as many low-first bytes as fit and reports whether all did |
| BytePack.WriteU32 | kcf/bytepack.c:122-127 | the same for four bytes, half by half |
| BytePack.WriteU64 | kcf/bytepack.c:129-134 | the same for eight bytes, half by half |
| BytePack.ReadU16 | kcf/bytepack.c:18-29 | yields the little-endian number when it lies below the size and moves the offset by what was there |
| BytePack.ReadU32 | kcf/bytepack.c:31-42 | the same for four bytes, half by half |
| BytePack.ReadU64 | kcf/bytepack.c:44-55 | the same for eight bytes, half by half |
| BytePack.LeRoundTrip | kcf/bytepack.c:57-178 | a number that fits its width is read back as it was written |
| BytePack.LeDigits | kcf/bytepack.c:105-134 | the bytes written are the digits of the number to the base 256, the lowest first |
| BytePack.LeInjective | kcf/bytepack.c:57-102 | different bytes never read as the same number |
| BytePack.Low4 | kcf/bytepack.c:122-127 | a four-byte field stores a number modulo 2^32 |
| Stream.OverwriteAppend | io/cfile.c:63-102 | two writes in a row are one write of both |
| Stream.OverwriteAgain | io/cfile.c:63-125 | rewriting the beginning of what was written with as many bytes replaces just those |
| Stream.OverwriteFrame | io/cfile.c:63-102 | a write replaces what lies under it, extends the stream where it must, and leaves the rest |
| Stream.OverwriteGap | io/cfile.c:63-102 | a write behind the end leaves zeros in between |
| Record.KcfRecord.CalculateCrc | kcf/record.c:26-58 | the checksum of the serialised bytes from the third on, as a number modulo 2^16, the fields always fitting the 16-byte scratch buffer |
| Record.KcfRecord.Validate | kcf/record.c:60-63 | true exactly when the stored header CRC is that number |
| Record.KcfRecord.ToBuffer | kcf/record.c:77-103 | for any record, serialises the header as far as the size allows and the data behind it, touches nothing else, or nothing at all when the size is below the declared one |
| Record.KcfRecord.Fix | kcf/record.c:105-124 | size modulo 2^16 and header CRC agree with the rest, which is unchanged |
| Record.KcfRecord.Copy | kcf/record.c:126-151 | the copy equals the source |
| Record.FixedFacts | kcf/record.c:105-124 | a fixed record of legal size declares its serialised length, validates, and is a fixed point |
| Record.FitsItsBufferIff | kcf/record.c:77-124 | a fixed record is stored whole and inside a buffer of its declared size exactly when 16 bits hold its length |
| Record.HeaderCrcCoversBytes | kcf/record.c:105-124 | fixing stores the checksum of the serialised bytes from the third to the last modulo 2^16, and their number modulo 2^16 |
| Record.ValidatedIff | kcf/record.c:60-63 | a record is accepted exactly when the stored number is that checksum modulo 2^16 |
| Record.DamageRefusedIff | kcf/record.c:26-63 | a fixed record with any other header CRC is refused, and one changed elsewhere is accepted exactly when the checksums agree modulo 2^16 |
| Record.FlagDigits | kcf/record.h:16-18 | what the flags announce, and the length of the header, by binary digits |
| Record.Layout | kcf/record.c:77-103 | where each field of a serialised record lies, and its bytes as numbers |
| Record.SizeFieldShows | kcf/record.c:90-95 | the size field reads as the size, modulo 2^32 in its short form |
| RoundTrip.FirstMarkerExact | kcf/marker.c:21-34 | the search finds the first occurrence or there is none |
| RoundTrip.FindMarkerExact | kcf/marker.c:13-43 | succeeds exactly when the rest of the stream contains the marker, stopping just behind its first occurrence; otherwise consumes everything |
| Handle.Kcf.FindMarker | kcf/marker.c:13-43 | the sliding window, zero-filled at first, makes the same find as that search |
| Handle.Kcf.WriteMarker | kcf/marker.c:45-64 | in the marker state only, writes the six bytes and becomes ready for records |
| Handle.Kcf.WriteRecord | kcf/write.c:9-52 | finishes an open record, writes the fixed one, and keeps it for patching when it announces added data |
| Handle.Kcf.WriteRecordWithAddedData | kcf/write.c:54-106 | finishes an open record and writes the record with size, CRC and flags set, then the data |
| Handle.Kcf.WriteAddedData | kcf/write.c:108-141 | takes what the declared size has room for, counts it and extends the running CRC |
| Handle.Kcf.Backpatch | kcf/write.c:161-175 | rewrites the header at the record's offset and restores the position |
| Handle.Kcf.FinishAddedData | kcf/write.c:143-192 | patches unless size is declared and no CRC wanted, then clears every counter |
| Handle.Kcf.ReadRecordHeader | kcf/read.c:18-80 | decodes the header under every combination of flags, zeros where the stream ends early |
| Handle.Kcf.ReadRecord | kcf/read.c:82-130 | reads header and data and enters the added-data state exactly when a size is announced |
| Handle.Kcf.ReadAddedData | kcf/read.c:201-250 | delivers at most what is available, updates counters and CRC, and returns to record headers when drained |
| Handle.Kcf.StartReading | kcf/archive.c:30-57 | the mode change of each state, an open record being finished first |
| Handle.Kcf.StartWriting | kcf/archive.c:59-85 | the mode change of each state, the marker being written where none has been passed |
| Handle.Kcf.InitArchive | kcf/archive.c:87-98 | starts writing and puts the archive header record |
| Writer.PatchReplacesHeader | kcf/write.c:157-175 | after patching, the stream is the one that writing with size and CRC known in advance would have left |
| Writer.StepRefines | kcf/write.c:9-192 | every writer call keeps stream, position, counters and running CRC in step with the log |
| Writer.RunRefines | kcf/write.c:9-192 | so does every sequence of writer calls, also in the middle of a record |
| Writer.WritingPhase | kcf/write.c:9-192 | every run of a writing phase, from any stream, position and left-over counters, leaves stream, position, counters and running CRC as its log says |
| WriterLaws.OpenPosition | kcf/write.c:33-46 | in an open record the position is record offset plus header size plus bytes taken, and these bytes follow the header |
| WriterLaws.KeepsPrefix | kcf/write.c:118-135 | for any chunking and any counters, the bytes kept are the prefix of the whole for which the declared size less the count, in 64 bits, has room |
| WriterLaws.StreamingIsOneCall | kcf/write.c:54-192 | streaming a record of undeclared size leaves the stream of the one-call writer exactly when there is data and the size field is the one that writer picks |
| WriterLaws.PatchedRightIff | kcf/kcf_impl.h:50-61 | a patched header is right exactly when left-over count and CRC do not show in its fields |
| WriterLaws.LeftOverCountersIff | kcf/write.c:118-167 | the stream after any streamed record is the clean one exactly when the left-over count takes no room from the data offered, and the header is not patched or shows neither counter nor CRC |
| WriterLaws.DeclaredKeptIff | kcf/write.c:118-127 | no offer exceeds a declared size exactly when the left-over count is not above it, and every offer is kept as by a clean writer exactly when there is none |
| Reader.ParseInverts | kcf/read.c:36-69 | parsing a serialised header gives back every field its flags announce |
| Reader.RecordRoundTrip | kcf/read.c:82-130 | reading a serialised record gives it back, whatever memory its data is read into |
| Reader.CanonValidates | kcf/record.c:60-63 | the record read validates exactly when the one written did |
| Reader.ReadConserves | kcf/read.c:201-250 | for any buffer sizes the calls deliver the next bytes in order, available and read add up, the CRC is theirs, and the reader is back at a header exactly when a call was made and all is delivered |
| Reader.ShortStream | kcf/read.c:223-244 | where the stream ends within the added data: the calls deliver what fills whole buffers and count exactly that, the next succeeds exactly when its buffer can be filled too, and a refused one changes the position only |
| Reader.NextRecordIff | kcf/read.c:96-99 | the next record can be read exactly when a call was made, the buffers had room for all added data, and the stream has it |
| Reader.HeaderSeen | kcf/read.c:29-69 | the header decoded is the bytes that are there and zeros for the others |
| Reader.CutRecord | kcf/read.c:105-128 | a record cut off within its data is read with the rest of its memory as it was |
| Reader.AvailabilityLoopIff | kcf/read.c:193-228 | reading while data is available reaches the next record exactly when there was some |
| RoundTrip.ItemRoundTrip | kcf/read.c:82-250 | a sound record and its added data are read back for any adequate buffer sizes |
| RoundTrip.ArchiveLayout | kcf/write.c:9-192 | a finished archive is the marker and the finished records of the log |
| RoundTrip.ClosedSoundIff | kcf/write.c:155-167 | finishing gives a sound record exactly when the declared size is written in full or the count fits the field |
| RoundTrip.TogetherSound | kcf/write.c:73-100 | a record written together with its data is always sound |
| RoundTrip.WrittenSoundIff | kcf/write.c:9-192 | all records of a run are sound exactly when each was fit to be finished when it was |
| RoundTrip.ArchiveRoundTrip | kcf/read.c:82-250 | what such a run writes is found, read back record by record with all added data, validates, and its stored CRCs are the computed ones |
| RoundTrip.ItemReadIff | kcf/read.c:223-242 | added data reads back as written exactly when the size field shows its length |
| RoundTrip.DamageShows | kcf/read.c:240-241 | damage within 32 consecutive bits of stored added data makes computed and stored CRC differ |
| Entries.RecordsComeBack | kcf/write.c:9-192 | each record call of such a run is answered by one record read back, in order, with its type and data, the flags as given or as its added data requires, and with all data given for it up to the declared size |
| Entries.WithAddedFlags | kcf/write.c:73-90 | the low five flags stay; without data nothing is announced; with data a size, the CRC as asked for, and eight bytes exactly when asked for or above 2147483647; size and CRC are those of the data |
| Phases.AlwaysResting | kcf/archive.c:30-85 | between calls of any run the handle is neutral, reading or writing at a definite place |
| Phases.AddedDataOnlyWhenOpen | kcf/write.c:108-153 | over any run, added data and finishing are accepted exactly between a record that announced added data and what finishes it |
| Phases.SwitchBetween | kcf/archive.c:30-85 | over any run, between a successful writing call and a later successful reading call lies a switch to reading, and the other way round a switch to writing |
| Phases.MalformedHeaderIsFinal | kcf/read.c:105-112 | a header longer than its declared size is refused, and no later call changes handle or stream |
| Phases.ReadingOnIsFinal | kcf/read.c:36-112 | reading a record with at most four bytes left is refused, and no later calls change the handle or let it write |
| Phases.LeftOver | kcf/archive.c:76-78 | switching to writing after a record leaves its byte count and stored CRC in the writer's counters |
| Phases.WritingAfterReadingIff | kcf/kcf_impl.h:50-61 | a record streamed after reading comes out clean exactly when the added data read last takes no room from it, and its header is not patched or shows neither that length nor the CRC stored with it |
| Phases.AppendedArchive | kcf/archive.c:59-85 | an archive read to its end and extended holds the old and then the new records, for all writer calls, exactly when the last record read leaves nothing behind |
| Phases.LeftOverExample | kcf/kcf_impl.h:50-61 | an archive, opened and read by calls, after which the next record streamed without a declared size is wrong |
| Phases.DeclaredSizeExample | kcf/write.c:118-127 | another after which a record declared with twenty bytes takes ten of the twenty offered and goes on to say twenty |
| Switching.RefusedIff | kcf/archive.c:30-98 | over any run, exactly which calls are refused for their place, changing nothing |
| Switching.SwitchToReading | kcf/archive.c:30-57 | a new handle may look for the marker, a writing one may read the record at its position, an open record being finished first, and a reading one stays as it is |
| Switching.SwitchToWriting | kcf/archive.c:59-85 | the six bytes of the marker are written where none has been passed and nowhere else, inside a record it is refused, and otherwise records may be written |
| Switching.ThereAndBack | kcf/archive.c:30-85 | between records, switching over and back changes nothing |
| Switching.EndOfPhase | kcf/archive.c:46-55 | after any writing phase the finished records are in the stream and the position is behind them |
| Switching.ReadOnBehind | kcf/archive.c:46-55 | after replacing records by as many bytes the reader goes on with the record behind them |
| Format.HeaderCheckValue | tests/tests_record.c:21-26 | the header CRC and size of the published archive header |
| Format.InitWrites | kcf/archive.c:87-98 | initialising writes the marker where none has been passed, finishes an open record, and writes the eight bytes of the header |
| Format.NewArchive | kcf/archive.c:87-98 | a new archive is the published fourteen bytes |
| Format.PublishedArchive | tests/tests_read.c:61-157 | the published archive of five records is read as its contents say, for any buffer sizes |
| Format.NoMarker | tests/tests_marker.c:37-59 | the published file without a marker is refused |
| FileInfo.KcfFileInfo.SizeOf | kcf/files.c:14-38 | the number of bytes the serialiser allocates |
| FileInfo.BytesMatchSize | kcf/files.c:14-38 | that is exactly the number it fills |
| FileInfo.InfoLayout | kcf/files.c:111-156 | the flag byte as a number, and where each field of the data lies with its bytes as numbers |
| FileInfo.ParsedLayout | kcf/files.c:72-106 | which fields are taken from complete data and from where, by the binary digits of its first byte |
| FileInfo.KcfFileInfo.Serialise | kcf/files.c:111-156 | the record's data is the layout with its optional fields, and the record is fixed |
| FileInfo.KcfFileInfo.Parse | kcf/files.c:51-109 | refuses records whose stored CRC is not their checksum modulo 2^16 or whose type is not 0x46; otherwise assigns the present fields and no others, as far as the data goes, and copies the name from wherever its length leads |
| FileInfo.NameInsideIff | kcf/files.c:98-106 | the name copied lies inside the data, whatever the unset variables hold, exactly when the data is as long as its flags and name length say |
| FileInfo.AgreeingParse | kcf/files.c:51-156 | with agreeing size flags every present field comes back, as far as its width holds it |
| FileInfo.InfoRoundTripIff | kcf/files.c:51-156 | information comes back whole exactly when eight-byte sizes are announced with a size, four-byte sizes fit, and the name length fits 16 bits |
| FileInfo.FileRecordRoundTripIff | kcf/files.c:51-156 | a serialised file record read back from an archive validates as a file record, and parsing it recovers the information exactly when the size flags agree and a four-byte size fits |

## Left out

- `io/*.c`: errors, short writes and dispatch; the stream returns what is left and writes everything.
- `kcf/insert.c`, `kcf/extract.c`, `cmd/kcf/main.c`: unfinished glue and the command line above the record layer.
- `KCF_skip_record` and `IO_skip`: the return convention is inverted there.
- `rec_to_archive_header` and `ahdr_clear`: a fixed two-byte payload; the record they concern is written by `InitArchive`.
- `file_info_copy`, `file_info_clear`, `KCF_close`: field copies and freeing.
- Allocation failures other than the wrapped data length, null pointer arguments, and assertions.
- CPU feature detection and inline assembly: the instruction is taken to consume bytes in order of significance, its destination register is represented by its low 32 bits.
- Handle.Kcf.WriteRecord: requires a record that fits its 16-bit size, because the source overruns its buffer otherwise (`Record.FitsItsBufferIff`).
- Handle.Kcf.WriteRecordWithAddedData: the same, for the record with the flags it gets for its added data.
