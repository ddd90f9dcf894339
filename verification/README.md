# Verified model of the proglog storage engine

proglog keeps an append-only log on disk. A `Log` is a list of `Segment`s; a
`Segment` is a `Store` (length-prefixed records) and an `Index` (sixteen-byte
entries from offset to byte position), both in memory-mapped files that are
pre-sized with zeros and trimmed only when they are closed. A gRPC service puts
the log behind one mutex.

This project models that stack down to its bytes and proves what it amounts to:
a base offset and a sequence of records, in every crash-free run; and, in runs
with crashes, that no record whose append returned is ever lost.

## Layout

| file | contents |
|---|---|
| `bytes.dfy`, `results.dfy` | bytes, little-endian 64-bit numbers, results and errors |
| `framing.dfy` | the store format, the recovery scan, reading at a position |
| `entries.dfy` | the index format, first-match lookup, the highest-offset scan |
| `segmentmodel.dfy`, `protocol.dfy` | a segment as a value; an append as a series of writes |
| `names.dfy`, `listing.dfy` | file names; a directory listing in any order |
| `logmodel.dfy`, `soundlog.dfy`, `truncation.dfy` | the log as a value, its invariant, what each operation keeps |
| `crash.dfy`, `truncrash.dfy` | recovery after crashes inside appends, rotations and truncations; logs that come back stuck |
| `jammed.dfy` | logs on which appends were refused: what is kept, what reopening and truncating do |
| `explained.dfy`, `crashruns.dfy` | runs that mix crashes with everything else: what is never lost, and what can be read at all |
| `refinement.dfy`, `runs.dfy`, `scanning.dfy` | the abstract log, whole-stack refinement, rotation bounds, the iterator |
| `server.dfy` | interleaved requests over one mutex |
| `mapping.dfy`, `store.dfy`, `index.dfy`, `segment.dfy`, `log.dfy`, `service.dfy` | the objects, with their arrays updated in place |

The objects (`Store`, `Index`, `Segment`, `Log`, `LogScanIterator`,
`LogService`) keep the source's fields and branches. Each of their methods is
proved to compute a function of the object's value (`SegmentModel.Seg`,
`LogModel.LogState`), and the theorems are about those functions.

## Main results

* **Whole-stack refinement** (`StackRuns.WholeStackRefinement`). In every run
  from an empty directory of appends, reads, truncations at segment boundaries
  and clean restarts, every reply is the abstract log's reply.
* **Crash safety over runs** (`CrashRuns.RunSafe`, `CrashRuns.AckedRecordsSurvive`).
  However appends, refused appends, appends that fail half way, crashes between any
  two writes, restarts and truncations are mixed, a record whose append returned at
  some point is read back at its offset at every later point, unless a truncation at
  or below it was started in between.
* **Nothing is invented** (`CrashRuns.NothingInvented`). At every point of such a run
  exactly the records that were completely written can be read, with one exception
  at offset 0 whose condition is given.
* **Exact recovery** (`Framing.LongestValidPrefix`, `SegmentModel.ZeroPaddedReopen`,
  `CrashSafety.CrashOpenLog`, `TruncateCrashes.TruncateCrashIff`). What the scan
  keeps, and where the counters come back, for torn tails, zero padding and files
  that were being removed.
* **Formats, limits and errors in numerals** (`Bytes.LittleEndian`,
  `Framing.FrameLayout`, `Names.NameLayout`, `Framing.RecordLimit`,
  `LogModel.OpenedIndexFile`, `LogModel.AppendLogIs`, `Framing.ReadAtErrors`,
  `SegmentModel.ReadSegOutcomes`). What is in the files, when a log rotates and how
  each read fails, said without the definitions the code and the model share.
* **Linearizability** (`Server.ServerLinearizable`), with the append split into
  rotation, store write and index write, so that the mutex matters.
* **End to end** (`Service.LogService.Produce`, `Service.LogService.Consume`). The
  handlers, run on the arrays of the objects, answer as the abstract log does.

## What the code does not do, with the exact condition

* Padding counts. Eight zero bytes are an empty record and sixteen zero bytes an
  index entry, so a segment that crashed without any entry comes back one offset
  further on: exactly when its index file holds at least sixteen bytes
  (`CrashSafety.CrashOpenLog`). That offset cannot be read, and the iterator never
  gets past it (`CrashRuns.ScanInRun`); only offset 0 then reads the first record
  of the store, if there is one (`CrashRuns.NothingInvented`).
* `append` does not enforce the 100 MiB limit of the recovery scan. A clean
  restart brings the log back if and only if no record is longer
  (`Refinement.CloseOpenIff`).
* `truncate` inside a segment keeps the whole segment, and its records are still
  read (`Truncation.TruncateInside`). If that segment is full, as every segment but
  the last is in a crash-free log, the next append does return the truncation point,
  but reading it still gives the old record, so the one just acknowledged cannot be
  read; if it is not full, the append returns the old end of the segment instead
  (`Truncation.AppendInside`). Truncation past the end is judged by the same
  condition (`Truncation.AppendBeyond`). Truncation is right if and only if the
  offset is a boundary (`Refinement.TruncateRefinesIff`, `Truncation.TruncateSoundIff`).
* A crash while a segment is created, after its store file was pre-sized and before
  its index file exists, brings the log back stuck: its active segment is full but
  holds no offset. This happens exactly when a segment may hold no more than the
  pre-sized bytes, 1 MiB in the source (`CrashSafety.CrashBetweenFilesStuckIff`, for
  every way a segment is created, `CrashSafety.EveryCreation`); both the default
  configuration and the one in `src/main.rs` are of that kind. (A failed append whose
  record fills a segment without entries has the same effect.) An append succeeds if
  and only if the log is not stuck (`SoundLogs.AppendLogCorrect`).
* A refused append opens the files of the active segment once more. It keeps every
  read, and the log goes on refusing (`JammedLogs.RefusedAppend`,
  `CrashSafety.StuckForEver`) until its files are opened from the start: the log is
  then still stuck exactly if the last refused append found no padding in the index
  file (`JammedLogs.RestartEndsJam`). After a recovery, one refused append and a clean
  restart end it, and one offset is skipped (`JammedLogs.RefusalThenRestart`); a
  clean restart alone does not.
* After a refused append, `truncate` at or below the next offset removes the shared
  files once and fails on them the second time, with the segments unchanged
  (`JammedLogs.JamTruncateFails`). The next append is then acknowledged, and its
  record can be read if and only if no segment opened by a refused append came with
  padding entries, or, at offset 0, if the padding happens to read the same record
  (`JammedLogs.JamTruncateAppend`).
* Truncation is not atomic: it removes two files for every segment, one after the
  other. A crash among the removals leaves a consistent log exactly when each
  segment kept both its files or neither, and the segments removed are none, all of
  those to be dropped, or the first ones of the log; the one harmless leftover is an
  index file of a segment at 0 without a whole entry
  (`TruncateCrashes.TruncateCrashIff`). Otherwise there is a hole of offsets that no
  segment holds (`TruncateCrashes.TruncateCrashHole`), or an index file without its
  store, which the next rotation at its base opens: the append then returns the next
  offset only if that index holds no entry (`TruncateCrashes.StaleRotation`,
  `TruncateCrashes.StaleIndexReused`). If nothing is left, the log starts again at 0
  and not at the truncation point (`TruncateCrashes.TruncateCrashRestarts`).
* An index write whose flush fails has already copied its entry. After a crash that
  entry counts; the log is consistent if and only if the segment is still the active
  one, and in any other the record whose append failed hides an acknowledged one
  (`CrashSafety.FailedFlushIff`).
* A reopened non-empty file is mapped past its end. Bytes appended there are
  inside the file only if the mapping was grown; `Stores.Store.Append` says exactly
  when, and in a store created empty they always are. Every statement about
  restarts and crashes takes the mapped tail to behave like a zero-filled extension
  of the file; without that, the records that survive are the ones that lie wholly
  before the cut (`Framing.TornTail`).

Two comments in the source differ from the code, and the model follows the code:
`scan_from` is documented as avoiding index lookups (src/storage/log.rs:100-102)
but reads every record through the index, and the default store limit is
commented as 1 MB but is 40000 bytes (src/storage/log.rs:24).

## Model

| member | source | states |
|---|---|---|
| Bytes.DecodeEncode | src/storage/store.rs:117 | a length or offset written with `to_le_bytes` is read back by `from_le_bytes` |
| Bytes.EncodeDecode | src/storage/store.rs:277-283 | every eight bytes are the encoding of the number read from them |
| Bytes.ZeroWord | src/storage/store.rs:277-283 | eight zero bytes and the number zero are the same thing |
| Bytes.LittleEndian | src/storage/store.rs:117 | byte i of an encoded number is its base-256 digit i, lowest first, written out with numerals |
| Bytes.LittleEndianValue | src/storage/store.rs:277-283 | the number read from eight bytes is b0 + 256 b1 + 65536 b2 and so on |
| Framing.FrameLayout | src/storage/store.rs:114-123 | a stored record is its eight length bytes, lowest first, and then its data, byte by byte |
| Framing.RecordLimit | src/storage/store.rs:285-297 | a file holding one record is kept whole up to 104857600 bytes of data and cut to nothing beyond |
| Framing.LongestValidPrefix | src/storage/store.rs:246-340 | the scan keeps the longest prefix that is a concatenation of whole records of at most 100 MiB, and only one list of records encodes it |
| Framing.ParseFindsAll | src/storage/store.rs:264-314 | unique parse: any bounded records standing at a position are the next ones the scan accepts |
| Framing.ParseWithTail | src/storage/store.rs:264-314 | whole records followed by any bytes are kept, whatever the bytes |
| Framing.FramedIff | src/storage/store.rs:264-314 | the scan keeps a whole file exactly when the file encodes some bounded records |
| Framing.ScanIdempotent | src/storage/store.rs:316-330 | a second scan of a repaired file truncates nothing and finds the same records |
| Framing.ZeroTail | src/storage/store.rs:57-67 | t bytes of zero padding become exactly t/8 empty records |
| Framing.TornTail | src/storage/store.rs:264-330 | a file cut anywhere recovers exactly the records wholly before the cut |
| Framing.ScanKeepsAllIff | src/storage/store.rs:285-297 | encoded records pass the scan untouched if and only if none exceeds 100 MiB |
| Framing.ReadAtIff | src/storage/store.rs:141-204 | a read returns a record if and only if its frame stands at that position |
| Framing.ReadAtErrors | src/storage/store.rs:141-204 | a read is beyond the end exactly when its position is, and corrupted exactly when it is inside and no record's frame stands there |
| Framing.ReadEncoded | src/storage/store.rs:141-204 | record i of a store is read at the end of the records before it |
| Framing.ReadAtPrefix | src/storage/store.rs:141-204 | a successful read is not changed by later bytes |
| Entries.DecodeEncodeEntries | src/storage/index.rs:141-148 | written entries are read back, with any partial entry behind them dropped |
| Entries.EncodeDecodeEntries | src/storage/index.rs:54-75 | an index file is, up to its partial last entry, the encoding of the entries read from it |
| Entries.EntryLayout | src/storage/index.rs:141-148 | an entry is its offset in eight bytes and then its position in eight |
| Entries.DecodePadded | src/storage/index.rs:94 | zero padding is read as entries for offset 0 at position 0 |
| Entries.LookupIsFirst | src/storage/index.rs:188-203 | lookup returns the first entry with the offset, and nothing exactly when there is none |
| Entries.LookupConcat | src/storage/index.rs:188-203 | later entries never hide an earlier one |
| Entries.LookupPadded | src/storage/index.rs:188-203 | padding changes no lookup that succeeded, and none of a non-zero offset |
| Entries.HighestIsMax | src/storage/segment.rs:37-44 | the recovery loop finds the maximum of the base and all offsets |
| Entries.NextOfPadded | src/storage/segment.rs:34-46 | padding moves the recovered counter only for an empty index, and then to base + 1 |
| SegmentModel.OpenIsSound | src/storage/segment.rs:21-63 | opening any two files gives whole records and a counter above every entry |
| SegmentModel.AppendReadsBack | src/storage/segment.rs:67-127 | an append is read back at its offset and disturbs no readable offset |
| SegmentModel.OpenThenAppends | src/storage/segment.rs:21-127 | after opening arbitrary bytes, any appends are all read back and every earlier successful read keeps its answer |
| SegmentModel.OrphanKeepsSound | src/storage/segment.rs:80-84 | a failed index write leaves an orphaned record and every read as it was |
| SegmentModel.ReachSegOf | src/storage/segment.rs:67-96 | a segment reached by appends is determined by its base and its records |
| SegmentModel.ReadSegOf | src/storage/segment.rs:100-127 | a crash-free segment answers every offset like its sequence of records |
| SegmentModel.ReadSegOutcomes | src/storage/segment.rs:100-127 | on any segment: out of range, not indexed, beyond the end and corrupted, each with the exact condition under which it is answered |
| SegmentModel.CloseOpenIdentity | src/storage/store.rs:343-350 | trimming both files and opening them again is the identity on a sound segment |
| SegmentModel.ReopenIdentityIff | src/storage/store.rs:285-297 | reopening a crash-free segment is the identity if and only if no record exceeds 100 MiB |
| SegmentModel.CrashOpen | src/storage/segment.rs:33-46 | torn store tail and padded index: every readable offset survives, and the exact counter |
| SegmentModel.ZeroPaddedReopen | src/storage/segment.rs:34-46 | the exact segment recovered over t zero bytes and k zero entries |
| AppendProtocol.StepKeepsInv | src/storage/store.rs:114-123 | no write of an append touches the bytes before it |
| AppendProtocol.CompleteRun | src/storage/segment.rs:80-86 | all the writes together are the append |
| AppendProtocol.EntriesPointAtRecords | src/storage/segment.rs:76-86 | at every point of an append, whatever index writes failed before, each entry points at the start of a complete record and later entries at later records |
| AppendProtocol.PointsMeans | src/storage/segment.rs:76-86 | such an entry reads its record; positions strictly increase by the frames between; the records are the first the scan finds |
| AppendProtocol.AttemptsIndexed | src/storage/segment.rs:76-86 | after any series of successful and failed appends the entries point, in order and at consecutive offsets, at the successful ones |
| AppendProtocol.AttemptsRead | src/storage/segment.rs:80-127 | and each of those offsets reads the record of its append |
| AppendProtocol.OneFrameApart | src/storage/store.rs:114-123 | when no step failed consecutive positions differ by eight plus the record length |
| AppendProtocol.CrashAnywhere | src/storage/segment.rs:76-86 | crash after any write: old reads survive, the counter is exact, and the new record is there once its entry is |
| Names.StemRoundTrip | src/storage/log.rs:283-284 | every u64 has a twenty-digit name that parses back to it |
| Names.NameLayout | src/storage/log.rs:283-284 | character i of a file name is decimal digit i of the base, highest of twenty first, and the ending is .log or .idx |
| Names.ParseU64Iff | src/storage/log.rs:241-247 | a stem parses to v exactly if it is decimal digits, with an optional plus, of value v below 2^64 |
| Names.NameRoundTrip | src/storage/log.rs:241-247 | store names give their base back and index names are not taken for segments |
| Names.ParseLogNameIff | src/storage/log.rs:241-247 | a file name is taken for a segment exactly if it ends in .log behind a non-empty stem that parses |
| Names.NamesDistinct | src/storage/log.rs:283-284 | different segments never share a file |
| Listing.SortSorts | src/storage/log.rs:251 | sorting gives the listed bases in order, none added or lost |
| Listing.ListedConcat | src/storage/log.rs:234-248 | the bases found in a listing are those of its parts, in listing order |
| Listing.ListedOne | src/storage/log.rs:234-248 | one name gives the base it parses to, or none |
| Listing.LoadOrder | src/storage/log.rs:231-251 | any order of the directory yields the ascending bases whose store files exist |
| LogModel.Find | src/storage/log.rs:303-315 | the search finds a segment that contains the offset, and nothing only when none does |
| LogModel.FindExact | src/storage/log.rs:303-315 | in tiled segments at most one contains an offset, and the first-match search finds it |
| LogModel.TiledCovers | src/storage/log.rs:303-315 | every offset between the first base and the end lies in a segment |
| LogModel.TiledBounds | src/storage/log.rs:303-315 | no offset outside lies in any |
| LogModel.AppendLogIs | src/storage/log.rs:72-85 | the whole outcome of an append on any log, with the limits written out: below both limits the active segment takes the record and nothing else changes; at one, exactly one segment opened at the next offset is added and takes it or refuses it |
| LogModel.ReadLogIs | src/storage/log.rs:89-98 | a read is answered by the first segment that contains the offset, and is OffsetNotFound with the range of the log exactly when none does |
| LogModel.RetainConcat | src/storage/log.rs:178-179 | the segments kept by a truncation of two lists are those kept of each |
| LogModel.TruncateLogIs | src/storage/log.rs:155-198 | the state after a truncation: kept segments, active index and counter, or one segment opened at the offset |
| LogModel.RemoveOneMore | src/storage/log.rs:161-177 | removing the files of a segment takes the store file first, and the first missing file ends it with an error |
| LogModel.TotalSizeConcat | src/storage/log.rs:149-151 | the total size of two lists of segments is the sum of theirs |
| LogModel.OpenedIndexFile | src/storage/index.rs:54-84 | opening a directory leaves an index file at its own whole entries, an empty one at 16000 zero bytes, and every other index file as it was |
| LogModel.OpenedStoreFile | src/storage/store.rs:57-90 | it leaves a store file at what the scan keeps, an empty one at 1048576 zero bytes, and every other store file as it was |
| LogModel.OpenLogIs | src/storage/log.rs:42-68 | opening gives the listed bases in ascending order, the last active, its counter the next offset; or one segment at 0 |
| LogModel.OpenLogEach | src/storage/log.rs:223-280 | when no base is listed twice every segment is recovered from its own two files |
| SoundLogs.RotateHoused | src/storage/log.rs:202-219 | rotation adds one empty segment at the next offset with files of its own, and keeps the tiling |
| SoundLogs.RotateKeepsSound | src/storage/log.rs:202-219 | rotation changes no read |
| SoundLogs.RotationIsSafe | src/storage/log.rs:75-78 | a full segment that holds an offset can be rotated without reopening any file |
| SoundLogs.AppendLogCorrect | src/storage/log.rs:72-85 | append on any recovered log keeps every read, and succeeds if and only if the log is not stuck; then it returns the next offset, is read back and keeps the tiling |
| SoundLogs.FailedAppendKeepsSound | src/storage/segment.rs:80-84 | an append that failed between its two writes keeps the log consistent and all reads |
| SoundLogs.CloseOpenLog | src/storage/log.rs:223-280 | closing and opening, the directory listed in any order, restores segments, active segment and counters |
| SoundLogs.ClosedOthers | src/storage/store.rs:343-350 | closing creates and removes no file and leaves those of no open segment as they were |
| Truncation.TruncateSoundIff | src/storage/log.rs:155-198 | truncation leaves a consistent log if and only if the offset is a boundary |
| Truncation.TruncateReads | src/storage/log.rs:155-198 | at a boundary exactly the reads below it survive and the counter is the offset |
| Truncation.TruncateInside | src/storage/log.rs:178-194 | inside a segment that segment is kept whole and its records stay readable |
| Truncation.AppendInside | src/storage/log.rs:72-85 | the append after that returns the truncation point if the segment is full, and then cannot be read back; otherwise the segment's old end |
| Truncation.AppendBeyond | src/storage/log.rs:178-194 | after truncating past the end the append returns the old end, or the truncation point behind a gap if the active segment is full |
| Truncation.DeletedNames | src/storage/log.rs:161-177 | exactly the files of the segments at or above the offset are deleted |
| CrashSafety.CrashOpenLog | src/storage/log.rs:223-280 | recovery from any crash directory is consistent, keeps every read, and moves the counter only for padding without entries |
| CrashSafety.CrashImageIff | src/storage/traits.rs:22-26 | what a crash may leave of a segment, spelled out: its data with any bytes behind, its index bytes with any number of zeros behind |
| CrashSafety.StuckIff | src/storage/segment.rs:145-147 | exactly when opening leaves an active segment that is full and holds no offset |
| CrashSafety.CrashBetweenFilesStuckIff | src/storage/segment.rs:30-31 | a crash between creating the two files of a segment, however it came to be created, leaves the log stuck exactly for limits up to the pre-sized bytes |
| CrashSafety.EveryCreation | src/storage/log.rs:178-257 | rotation, the first opening and an emptying truncation all leave a log whose active segment was just created |
| SoundLogs.SameFilesFullAgain | src/storage/log.rs:202-209 | a segment opened over the files of one whose store is at its limit is full again |
| CrashSafety.StuckRefuses | src/storage/log.rs:72-85 | an append on a log as it was just opened succeeds if and only if the log is not stuck |
| CrashSafety.StuckForEver | src/storage/log.rs:72-85 | a stuck log refuses every one of any series of appends |
| JammedLogs.RefusedAppend | src/storage/log.rs:72-85 | a refused append adds one more full segment over the same files and changes nothing else |
| JammedLogs.WholeReads | src/storage/log.rs:89-98 | refused appends change no read below the next offset; at it, what was opened again answers |
| JammedLogs.RestartEndsJam | src/storage/log.rs:223-280 | closing and opening keeps every read; the log is still stuck exactly if it was and the last refused append found no padding entry |
| JammedLogs.RefusalThenRestart | src/storage/log.rs:223-280 | a log that came back stuck takes appends again after one refused append and a clean restart, one offset further on |
| JammedLogs.JamTruncateFails | src/storage/log.rs:155-177 | after a refused append truncation at or below the next offset fails with the files gone and the segments kept |
| JammedLogs.JamTruncateAppend | src/storage/log.rs:72-85 | the append after that is acknowledged and can be read exactly if no refused append found padding entries |
| CrashSafety.FailedFlushIff | src/storage/index.rs:141-159 | an entry copied before its flush failed counts after a crash; the log is consistent if and only if it is in the active segment |
| TruncateCrashes.TruncateCrashIff | src/storage/log.rs:167-177 | a crash among the removals leaves a consistent log exactly when every segment kept both files or neither and what is left has no gap |
| TruncateCrashes.RemovalSteps | src/storage/log.rs:161-177 | the directories such a crash can leave are those the removals go through, segment by segment and store file first |
| TruncateCrashes.TruncateCrashHole | src/storage/log.rs:167-177 | records in the segments that are left survive; the hole, the next offset and the base of what comes back |
| TruncateCrashes.TruncateCrashRestarts | src/storage/log.rs:178-194 | a crash before the new first segment is created restarts the log at 0, whatever the truncation point; the reply of the next append, with and without an index file left over |
| TruncateCrashes.StaleRotation | src/storage/log.rs:202-219 | whenever a log rotates onto an index file left without its store: the exact reply, and which offsets read the record |
| TruncateCrashes.StaleIndexReused | src/storage/traits.rs:22-26 | an index file left without its store is reused by the next rotation, which then returns the next offset only if it holds no entry |
| CrashSafety.CrashInAppendIsCrash | src/storage/segment.rs:76-86 | a crash inside an append looks like one before it, or after it once the entry is written |
| CrashRuns.StepSafe | src/storage/log.rs:72-280 | every event keeps acknowledged records readable; an append is refused exactly on a stuck log, and otherwise acknowledged at the next offset, where nothing counts as written; only a truncation at or below an offset takes its acknowledgement back |
| CrashRuns.RunSafe | src/storage/log.rs:72-280 | after every run from an empty directory the log is consistent, but for segments opened again by refused appends, and every acknowledged record is read back |
| CrashRuns.AckedRecordsSurvive | src/storage/log.rs:72-280 | a record acknowledged at any point of a run is read at any later point, if no truncation at or below it lies between |
| CrashRuns.NothingInvented | src/storage/log.rs:72-280 | at every point of a run exactly what was completely written can be read, unchanged, but for offset 0 behind padding |
| CrashRuns.ScanInRun | src/storage/log.rs:339-382 | on any log a run can reach the iterator yields the readable records in order up to the end or to the first padded base, and stays there |
| Refinement.ReadRefines | src/storage/log.rs:89-98 | reading is indexing the sequence; out of range is OffsetNotFound with the log's range |
| Refinement.AppendRefines | src/storage/log.rs:72-85 | append returns base + length and adds at the end, through rotation |
| Refinement.FullIsNotEmpty | src/storage/segment.rs:145-147 | with limits of at least one a full crash-free segment is never empty |
| Refinement.TruncateRefinesIff | src/storage/log.rs:155-198 | truncation yields the prefix below the offset if and only if the offset is a boundary |
| Refinement.CloseOpenIff | src/storage/log.rs:223-280 | a clean restart restores the segments if and only if no record exceeds 100 MiB |
| Refinement.ReopenRefines | src/storage/log.rs:223-280 | a clean restart is invisible to the abstract log |
| StackRuns.StepRefines | src/storage/log.rs:72-280 | each call replies as the abstract log does |
| StackRuns.WholeStackRefinement | src/storage/log.rs:42-280 | so does every run from an empty directory, reply by reply |
| StackRuns.TruncateThenAppend | src/storage/log.rs:155-198 | after a boundary truncation the next append returns the truncation point |
| StackRuns.Conservation | src/storage/log.rs:149-151 | the total size is eight bytes plus the payload for every record |
| StackRuns.BoundsAndConservation | src/storage/log.rs:75-83 | after every run no segment has more entries than its limit or a record that starts past its byte limit, all but the last hold at least the store limit in bytes or the index limit in entries, and the bytes add up |
| Scanning.ScanYieldsBeforeStop | src/storage/log.rs:339-382 | on any log the iterator yields the records up to the first offset that cannot be read, in order |
| Scanning.ScanYieldsAtStop | src/storage/log.rs:339-382 | and from then on the same error for ever, or None at the end |
| Scanning.ScanYields | src/storage/log.rs:339-382 | on a crash-free log: exactly the records from its start, in order, then None; below the base OffsetNotFound |
| Server.StepKeepsLog | src/server/grpc.rs:60-66 | while the mutex is held no other request leaves an append half done, so a prepared segment is never found full |
| Server.StepKeepsMutex | src/server/grpc.rs:60-66 | the mutex is held by exactly one request between its lock and its release |
| Server.IndexCompletes | src/server/grpc.rs:60-66 | the last write of a produce completes the sequential append |
| Server.ServerLinearizable | src/server/grpc.rs:52-91 | every interleaving is linearizable in the order of the mutex, respecting real time, and no produce finds its segment filled by another |
| Server.ProduceOffset | src/server/grpc.rs:60-70 | a produce is answered with the old end plus the number of produces before it |
| Server.ProducesDistinct | src/server/grpc.rs:60-70 | no offset is answered twice |
| Server.ProducesGapFree | src/server/grpc.rs:60-70 | no offset is skipped, and each holds the record of its produce |
| Server.ConsumeReturnsProduced | src/server/grpc.rs:80-90 | a successful consume returns the record of the produce with that offset, or one that was there from the start |
| Server.ProducesInRealTime | src/server/grpc.rs:52-71 | a produce answered before another was invoked has the smaller offset |
| Server.AnsweredBeforeInvoked | src/server/grpc.rs:52-91 | in any run, if one request is answered at an earlier step than another is invoked, it comes first in the order of the mutex |
| Stores.Store.constructor | src/storage/store.rs:26-90 | opening keeps exactly the recovered records, sizes an empty file and its mapping to 1048576 bytes, and says when the file is shorter than the mapping |
| Stores.Store.ScanAndRepair | src/storage/store.rs:246-340 | the loop returns the length of the longest prefix made of whole records of at most 104857600 bytes |
| Stores.Store.Append | src/storage/store.rs:97-137 | the frame is added at the end, the old size is its position, 8 + length is the total returned, the mapping stays within twice the data plus 1 MiB |
| Stores.Store.Read | src/storage/store.rs:141-204 | the record whose frame stands at the position; beyond the end or corrupted, each exactly when it is |
| Stores.Store.Grow | src/storage/store.rs:213-243 | room for the pending bytes, every byte kept, the mapping doubled, or longer if 1048576 spare bytes need it |
| Stores.Store.FewGrowths | src/storage/store.rs:213-243 | g growths need about 2^g half mebibytes of data |
| Stores.Store.Drop | src/storage/store.rs:343-350 | the file is trimmed to the data |
| Indexes.Index.constructor | src/storage/index.rs:36-109 | opening reads the whole entries of any file and leaves a file with entries at exactly those, one without at 16000 zero bytes |
| Indexes.Index.Write | src/storage/index.rs:126-171 | the entry is added, earlier ones decode unchanged; the file grows exactly when the mapping is full, once |
| Indexes.Index.Read | src/storage/index.rs:175-204 | the search loop returns the first match or not found |
| Indexes.Index.ReadOffsetAtIndex | src/storage/index.rs:207-221 | the offset of an entry, or a corrupted entry past the end |
| Indexes.Index.ReadPositionAtIndex | src/storage/index.rs:224-241 | the position of an entry, or a corrupted entry past the end |
| Indexes.Index.Grow | src/storage/index.rs:244-279 | the capacity is the opening capacity times a power of two: the doubling always wins |
| Indexes.Index.Drop | src/storage/index.rs:282-287 | the file is trimmed to the entries |
| Segments.Segment.constructor | src/storage/segment.rs:21-63 | opening recovers the segment from any two files; its counter is the base, or one past the highest offset of any entry |
| Segments.Segment.FindHighest | src/storage/segment.rs:37-44 | the loop finds the highest offset, at least the base |
| Segments.Segment.Append | src/storage/segment.rs:67-96 | with the store or the index at its limit it refuses unchanged; otherwise it takes the record at its next offset, one entry and one frame more |
| Segments.Segment.Read | src/storage/segment.rs:100-127 | out of range, not indexed, corrupted, or the record |
| Segments.Segment.UncleanReopen | src/storage/store.rs:57-67 | files left by a crash of a running segment, cut anywhere in their padding, keep every read |
| Segments.Segment.Drop | src/storage/segment.rs:10-17 | both files are trimmed to what the segment holds |
| Logs.Log.constructor | src/storage/log.rs:42-68 | opening any directory gives the log over its listed segments, or a first segment at 0, and leaves the index file of every listed base at its own whole entries, or at 16000 zero bytes if it has none |
| Logs.Log.CollectBases | src/storage/log.rs:234-248 | the loop collects the bases of the store files in listing order |
| Logs.Log.RotateSegment | src/storage/log.rs:202-219 | one new segment at the next offset becomes active |
| Logs.Log.Append | src/storage/log.rs:72-85 | the new state and reply are those of the log model, on a stuck log too; below the limits the next offset of the active segment is returned and no segment is added, at one exactly one is |
| Logs.Log.FindSegmentForOffset | src/storage/log.rs:303-315 | the loop finds the first segment that contains the offset |
| Logs.Log.Read | src/storage/log.rs:89-98 | the reply is that of the log model |
| Logs.Log.TotalBytes | src/storage/log.rs:149-151 | the sum of the store sizes |
| Logs.Log.Truncate | src/storage/log.rs:155-198 | the new state is that of the log model, also when a removal fails: which files are gone, and that nothing else changed; it cannot fail when the directory agrees |
| Logs.Log.Close | src/storage/store.rs:343-350 | every file ends up holding exactly its segment's data or entries, and can be opened again |
| Logs.LogScanIterator.Next | src/storage/log.rs:339-382 | the item and the new cursor are those of the scan model, the segment index is that of the segment read, and the position stays None |
| Service.LogService.Produce | src/server/grpc.rs:52-71 | the answer is that of the append: the next offset below the limits, internal exactly if the active segment and the one opened after it are both at a limit, never another failure; on a log that stands for an abstract one it is its end and the record is added there |
| Service.LogService.Consume | src/server/grpc.rs:73-91 | on any log: not found exactly if no segment contains the offset, internal exactly if one does and cannot read it; on a log that stands for an abstract one, the record with its offset, and not found exactly for offsets outside |
| Service.Outcomes | src/storage/log.rs:89-98 | a read fails with OffsetNotFound exactly when no segment contains the offset, and with any other error exactly when the first that does cannot read it |

## Left out

- Real file and mapping calls, their failures, flushing and page-level persistence: files are byte sequences, mappings are arrays, and the mapped tail past the end of a file is taken to be zero-filled and kept.
- Torn writes inside one sixteen-byte index entry: the code has no check for them, so an entry is written atomically; store tails after a crash are arbitrary bytes.
- u64 wrap-around: offsets stay below 2^64 - 1 and files below 2^62 bytes, and no size computation of the model exceeds u64 under those bounds; the addition of a length read from arbitrary bytes (src/storage/store.rs:180) is unbounded here.
- Stores.Store.Append: requires room below 2^62 bytes, because sizes are otherwise u64 in the source.
- Logs.Log.Close: requires that where two segments share their files (rotating an empty segment opens them again) the later one holds only zeros behind the earlier one, because trimming twice loses anything else.
- Logs.Log.Truncate: does not model that dropped segments still set the length of their removed files, which nobody can see.
- TruncateCrashes.StaleIndexReused: is about the index of the last segment, which the next rotation opens; that of an earlier one is opened when the log rotates at its base, and TruncateCrashes.StaleRotation says what happens then, but not which appends lead there.
- CrashRuns.RunSafe: appends at most 100 MiB at a time, because a longer record is lost at the next restart (Refinement.CloseOpenIff); a truncation that completes is at a boundary, and one that fails or is cut short where that leaves no consistent log ends the run (Truncation.TruncateSoundIff, JammedLogs.JamTruncateAppend, TruncateCrashes.TruncateCrashIff).
- CrashRuns.StepSafe: a failed append is one whose store or index could not grow; a failed flush is not an event, because after one of the store nothing is known of the bytes in the file, and a crash after one of the index can hide an acknowledged record (CrashSafety.FailedFlushIff).
- Failures while a segment's files are created, as events of a run.
- Error wrapping (src/errors.rs, src/storage/mod.rs, the texts of status messages), lock poisoning, task failures, tracing, protobuf and the async runtime.
- `StorageBackend` and the other trait items without an implementation, src/main.rs, build.rs and examples/client.rs.
- Plain getters (`len`, `size`, `segment_count`, `latest_offset`, `is_empty`).
