# Verified models of Valkey's core algorithms

This project models six parts of the Valkey server, as it is compiled to WebAssembly, and proves
what each part is for. Every file is Dafny; `dafny verify dfyconfig.toml` checks all of it.

1. **CRC64** (`Crc64`, `CrcCombine`, `CrcSpeed`). The bit-by-bit CRC of `crc64.c` is the meaning of
   a checksum. The table, the slice-by-8 loop, the split of a buffer into two or three segments and
   the merge through squared GF(2) matrices all compute it, for every buffer, alignment and cutoff.
2. **The append-only file** (`AofFormat`, `FormatLaws`, `AofFlush`, `FlushLaws`, `AofRewrite`,
   `AofRecovery`). Printing and loading the log, also when it is cut at any byte; the flush state
   machine, and what of the log is on disk; the rewrite protocol, in which the disk must recover
   exactly the commands written so far at every crash point; and the three together, when a crash
   tears a write.
3. **ACL command rules** (`AclRules`, `AclSelector`, `AclLaws`). A selector keeps a bitmap and a rule
   string. Replaying the string rebuilds bitmap and first arguments exactly as long as no retained
   text breaks apart when the string is split; then the panic in the description code is unreachable.
4. **Cluster slots** (`HashSlot`, `SlotRouting`, `RoutingLaws`, `SlotMigration`). Slots of keys and of
   patterns, the routing decision and what becomes of a client that follows it, and the two-node
   protocol that routing and MIGRATE form while a slot moves.
5. **Blocking on keys** (`BlockIndex`, `Blocking`, `BlockingLaws`). The two-way index of waiting
   clients, its counters, the queue of ready keys, and the serving pass over a list that changes
   under it: who is served, and that nobody is forgotten.
6. **Bitmaps and defragmentation** (`Bitmap`, `Popcount`, `Bitpos`, `RangeLaws`, `Bitfield`, `Bitop`,
   `Defrag`). Word-at-a-time code against bit-by-bit meaning, overflow tests at the 64-bit limits,
   and the arithmetic of allocator bins.

Code that changes state is modelled by classes and by methods with loops; each is proved against a
function or predicate that does not mention its body. The modules named `...Laws`, and lemmas named
`...Means`, then say what those functions mean without them: by bits, by the times of events, by who
waits for what, by the commands of a request. I/O, clocks and the commands of clients are
parameters: scripts of results of `write(2)`, outcomes of persisting a manifest, replies of the
other node, effects of a re-executed command. A crash image is any disk the server can leave behind,
and `AofRewrite.Server.constructor` starts from any image that recovers, so runs may crash and
restart between any two disk steps.

## Where the code does not do what one would expect

Each is stated as a condition that holds if and only if the expected property does, except for the
last one and for slabs that are not filled alike, where it is sufficient.

- A log cut inside a command behind an open MULTI is truncated after the last whole command, not
  before the MULTI (`AofFormat.KeepsUnits`, with the log of `AofFormat.PartialBehindMulti`).
- The INCR file that a rewrite opens has no O_APPEND, and ftruncate does not move the file offset:
  after a short write that is taken back the next write leaves a hole of zero bytes
  (`AofFlush.TransferConserves`, `AofFlush.TransferAtEnd`, over runs `AofFlush.RunConserves`, with
  the writes of `AofFlush.HoleAfterTruncation` and the run of `FlushLaws.HoleInNewFile`).
- A background fsync that fails is not repeated by a flush under "always" with nothing to write
  (`AofFlush.RunDurable`, with the run of `AofFlush.FailedSyncUnseen`).
- A write that a crash tears makes the log fail to load if an earlier switch to a new INCR file had
  failed after the manifest was renamed, because the torn file is not the last one on disk
  (`AofRecovery.TornWrite`, over runs `AofRecovery.TornRun`, with the run of
  `AofRecovery.TornBehindFailedSwitch`).
- A rewrite that completes does not recover if the directory fsync after the manifest rename fails,
  or if the forced flush before the fork was incomplete (`AofRewrite.AfterDoneRecovers`, over runs
  `AofRewrite.RunRecovers`, with the run of `AofRewrite.ShortFlushRepeatsCommand`).
- A first argument with a blank or a quote is accepted, but the rule string does not
  replay to the selector's permissions (`AclSelector.TextReplays`, with the operations of
  `AclSelector.BlankRefused` and `AclSelector.BlankAllowsCommand`).
- MIGRATE leaves a key on both nodes if the reply to its RESTORE is lost, with COPY, or if it goes to
  another database in which the source has that key too (`SlotMigration.MigrateKeepsApart`, over
  runs `SlotMigration.RunKeepsApart`, with `SlotMigration.LostReplySplits`).
- A request with a shard channel is served by a migrating node without regard to its keys, also a
  transaction that writes other keys (`SlotMigration.ServedWithItsKeys`, with
  `SlotMigration.ShardedTransactionSplits`).
- COPY that ends with the word DB reads behind its arguments (`SlotRouting.CopyReadsArguments`,
  with `SlotRouting.CopyEndsWithDb`).
- BITFIELD SET with OVERFLOW SAT misses the nearest limit for signed values so low that a
  subtraction wraps around, and for negative values in unsigned fields (`Bitfield.SetSignedExact`,
  `Bitfield.SetSaturatesUpwards`, `Bitfield.SetUnsignedNearest`, `Bitfield.SetMinusOne`).
- BITPOS gives reversed negative ends an empty range, as BITCOUNT does, except at the start of the
  string (`Bitpos.ReversedLooked`, `Bitpos.LookedIsSelected`, with `Bitpos.ReversedFinds`).
- An end in front of the string stands for its first unit, so that BITCOUNT and BITPOS do not find such
  a range empty (`RangeLaws.SelectedMeans`, `RangeLaws.LookedMeans`, with `RangeLaws.EndInFront`).
- A signal queues a key although nobody at it waits for that type of value, if somebody waits there and
  some other client is blocked for the type or by a module (`BlockingLaws.SignalsMean`).
- Sizes up to 64 that are no multiple of 8 are not rounded up to their bin (`Defrag.BinRoundsUp`,
  with `Defrag.NineBytes`). Only region sizes of the allocator are looked up, which are classes.
- A least-filled slab is not moved when 1125 times the allocated regions of the non-full slabs leaves
  the machine word; for slabs filled alike that is exact (`Defrag.EvenSlabsMove`, with the bin of
  `Defrag.MachineRefusesLeast`), and inside the word it is always moved (`Defrag.MachineMovesLeast`).
- While no short write is taken back in a file without O_APPEND, no byte is misplaced
  (`AofFlush.NothingMisplaced`).

## Model

| member | source | states |
|---|---|---|
| `Crc64.BitStepLinear` | src/src/crc64.c:114-126 | one zero bit of the reflected CRC is linear over xor |
| `Crc64.ZeroBitsLinear` | src/src/crccombine.c:172-177 | appending any number of zero bits is linear over xor |
| `Crc64.ZeroBitsCompose` | src/src/crccombine.c:172-177 | appending m and then n zero bits is appending m + n, which is why squaring doubles |
| `Crc64.CrcConcat` | src/src/crc64.c:108-131 | CRCs compose over concatenation of byte strings |
| `Crc64.CrcAffine` | src/src/crc64.c:108-131 | the CRC of the xor of two starts is the CRC of one xor the other moved by as many zero bytes |
| `Crc64.CombineLaw` | src/src/crccombine.c:226-251 | crc(c, a ++ b) is crc(c, a) moved by the length of b, xor crc(0, b) |
| `Crc64.ReflectInvolution` | src/src/crc64.c:70-98 | reflecting all 64 bits twice gives the word back |
| `Crc64.ReflectXor` | src/src/crc64.c:70-98 | reflection is linear over xor |
| `Crc64.MsbStepReflected` | src/src/crc64.c:114-126 | the most-significant-first step of the reference is the reflected least-significant-first step |
| `Crc64.FeedBit` | src/src/crc64.c:114-126 | feeding one bit of a byte and shifting is one step of the byte xored in first |
| `Crc64.FeedByte` | src/src/crc64.c:113-127 | the eight turns of the inner loop advance the reflected CRC by one byte |
| `Crc64.Reference` | src/src/crc64.c:108-131 | the nested loops compute the reflected CRC of any buffer from any start |
| `Crc64.CheckValue` | src/src/crc64.c:108-131 | the CRC of the nine digits 1 to 9 is e9c6d914c4b8d9ca, the check value of this polynomial |
| `CrcCombine.TimesTurn` | src/src/crccombine.c:52-108 | one switch on four bits of the vector adds exactly the columns they select |
| `CrcCombine.Times` | src/src/crccombine.c:47-112 | a matrix whose columns are the operator on unit vectors, times a vector, is the operator on it |
| `CrcCombine.Square` | src/src/crccombine.c:172-177 | the square of the matrix for n zero bits is the matrix for 2n |
| `CrcCombine.OneBitColumn` | src/src/crccombine.c:194-201 | the first matrix holds the one-bit operator on every unit vector |
| `CrcCombine.FillOneBit` | src/src/crccombine.c:192-201 | the first loop fills the matrix of one zero bit |
| `CrcCombine.InitCache` | src/src/crccombine.c:192-212 | after initialisation row k is the operator that appends 2^k zero bytes |
| `CrcCombine.Combine` | src/src/crccombine.c:226-251 | the first CRC moved by len2 zero bytes, xor the second, for every length |
| `CrcCombine.HalveLength` | src/src/crccombine.c:238-246 | each turn accounts for one binary digit of the length |
| `CrcCombine.CombineBlocks` | src/src/crccombine.c:226-251 | combine(crc(c, a), crc(0, b), length of b) is crc(c, a ++ b) |
| `CrcSpeed.TableStep` | src/src/crcspeed.c:56-63 | eight zero bits are a table look-up of the low byte and a shift |
| `CrcSpeed.InitTable` | src/src/crcspeed.c:47-63 | entry (k, n) is the CRC of byte n followed by k zero bytes |
| `CrcSpeed.EntryStep` | src/src/crcspeed.c:56-63 | the next slice of the table appends one zero byte |
| `CrcSpeed.SlicesCorrect` | src/src/crcspeed.c:130-142 | the sum of table look-ups of the bytes of a word is the word moved by as many zero bytes |
| `CrcSpeed.Lookup` | src/src/crcspeed.c:134-142 | one look-up of a filled table |
| `CrcSpeed.SliceBy8` | src/src/crcspeed.c:130-142 | the eight look-ups advance a CRC by eight bytes |
| `CrcSpeed.LoadCrc` | src/src/crcspeed.c:130-142 | xoring a little-endian word in first is feeding its eight bytes |
| `CrcSpeed.Feed1` | src/src/crcspeed.c:187-191 | the byte loop body feeds one byte |
| `CrcSpeed.Feed8` | src/src/crcspeed.c:239-244 | the word loop body feeds eight bytes |
| `CrcSpeed.SegmentFits` | src/src/crcspeed.c:144-154 | segments are whole words and fit the buffer |
| `CrcSpeed.ThreeSegments` | src/src/crcspeed.c:194-215 | the interleaved loop leaves the CRCs of three consecutive segments |
| `CrcSpeed.TwoSegments` | src/src/crcspeed.c:217-234 | the interleaved loop leaves the CRCs of two consecutive segments |
| `CrcSpeed.Merge` | src/src/crcspeed.c:144-154 | merging segment CRCs gives the CRC of both segments together |
| `CrcSpeed.Segments` | src/src/crcspeed.c:193-235 | split, parallel loops and merge advance the CRC over all their bytes, for every pair of cutoffs |
| `CrcSpeed.SpeedLittle` | src/src/crcspeed.c:179-253 | the whole routine is the CRC, for every buffer, address and pair of cutoffs |
| `CrcSpeed.AgreesWithReference` | src/src/crc64.c:108-143 | on reflected starts the fast routine and the bit-by-bit reference return the same number |
| `AofFormat.DecimalParses` | src/src/aof.c:1394-1417 | the loader's number parser reads back every printed length, whatever follows |
| `AofFormat.HeaderRead` | src/src/aof.c:1614-1626 | a printed header line is read whole, and nothing behind it |
| `AofFormat.CommandRead` | src/src/aof.c:1614-1664 | a printed command is read back with arbitrary bytes in its arguments |
| `AofFormat.CommandCut` | src/src/aof.c:1614-1664 | a command cut at any byte is read as an unexpected end, never as another command |
| `AofFormat.CutLog` | src/src/aof.c:1598-1710 | a log cut at any byte loads exactly its whole commands, with the offset the loader keeps |
| `AofFormat.WholeCommandsLongest` | src/src/aof.c:1598-1710 | no longer prefix of commands fits in the bytes that are left |
| `AofFormat.OnlyUnitsRun` | src/src/aof.c:1677-1687 | what is executed are the complete units: single commands and MULTI to EXEC |
| `AofFormat.MultiStartsUnit` | src/src/aof.c:1677-1687 | the offset before MULTI is the end of the last complete unit |
| `AofFormat.KeepsUnits` | src/src/aof.c:1698-1745 | the kept offset ends the last complete unit exactly if no partial command is behind an open MULTI |
| `AofFormat.AppendedBehindMulti` | src/src/aof.c:1698-1745 | what is appended after such a truncation is queued instead of executed |
| `AofFormat.PartialBehindMulti` | src/src/aof.c:1698-1745 | a concrete log that is truncated behind its MULTI |
| `AofFormat.RunMeans` | src/src/aof.c:1446-1482 | running what was fed has the effect of each command in its own database |
| `AofFormat.FeedThenLoad` | src/src/aof.c:1446-1482 | loading what the feeder wrote gives the dataset of all commands, although SELECTs are left out |
| `AofFormat.Feeder.constructor` | src/src/aof.c:1446-1482 | an empty log with no database selected |
| `AofFormat.Feeder.Feed` | src/src/aof.c:1446-1482 | appends a SELECT exactly if the database changes, then the command |
| `AofFormat.Feeder.FeedAll` | src/src/aof.c:1446-1482 | after any list of propagated commands the buffer holds the text of those commands with their SELECTs |
| `AofFormat.FeedAndLoad` | src/src/aof.c:1446-1771 | the buffer of a fresh feeder, given to the loader, yields each command in its own database, in order |
| `AofFormat.Cat` | src/src/aof.c:1394-1417 | the printing loops give the printed form of the command |
| `AofFormat.LoadArgs` | src/src/aof.c:1635-1664 | the argument loop reads what the format says, or finds where it ends |
| `AofFormat.Load` | src/src/aof.c:1522-1771 | the loading loop computes the loader's meaning on any bytes, also with errors and truncation |
| `FormatLaws.CommandText` | src/src/aof.c:1394-1416 | the text of a command starts with an asterisk, the number of its arguments, CR and LF |
| `FormatLaws.ArgumentText` | src/src/aof.c:1394-1416 | every argument stands behind a dollar, its length, CR and LF, and in front of CR and LF |
| `FormatLaws.DecimalText` | src/src/aof.c:1394-1416 | numbers are decimal, without leading zeros |
| `FormatLaws.GetText` | src/src/aof.c:1394-1416 | GET k is the twenty bytes of the protocol |
| `FormatLaws.OtherBytesRefused` | src/src/aof.c:1614-1622 | a byte that starts neither a command nor an annotation makes the load fail, whatever was loaded before it |
| `FormatLaws.UnknownRefused` | src/src/aof.c:1666-1675 | a command the table does not know makes the load fail, and nothing behind it is run |
| `FormatLaws.AnnotationSkipped` | src/src/aof.c:1621-1621 | a line that starts with a hash sign changes nothing |
| `FormatLaws.StrictLoad` | src/src/aof.c:1717-1758 | without aof-load-truncated the same commands are run, and exactly the logs that would be truncated are refused |
| `FormatLaws.TransactionRuns` | src/src/aof.c:1677-1687 | MULTI, commands and EXEC have the effect of the commands alone |
| `FormatLaws.SelectThenRun` | src/src/aof.c:1677-1687 | a command runs in the database that the SELECT before it names |
| `AofFlush.Aof.constructor` | src/src/aof.c:700-752 | a log opened with O_APPEND at start, all of it durable |
| `AofFlush.Aof.SyncDone` | src/src/aof.c:907-910 | a background fsync that works makes durable what was handed to it; one that fails makes nothing durable |
| `AofFlush.Aof.SetPolicy` | src/src/config.c:2719-2727 | a change to "always" first waits for the background fsync; bytes and sizes stay |
| `AofFlush.Aof.NewFile` | src/src/aof.c:774-835 | the log continues in an empty file whose descriptor has no O_APPEND |
| `AofFlush.Aof.Write` | src/src/aof.c:1140-1157 | the write loop puts a prefix of the buffer at the end of the file, or at its offset without O_APPEND, and returns its length, or -1 if nothing was written |
| `AofFlush.Aof.HandleShort` | src/src/aof.c:1264-1345 | a short write ends the server under "always"; otherwise it is taken back, or its bytes leave the buffer |
| `AofFlush.Aof.WriteBuffer` | src/src/aof.c:1248-1356 | one attempt to write takes the log exactly where the step function on logs says |
| `AofFlush.Aof.TryFsync` | src/src/aof.c:1358-1391 | in the foreground under "always", in the background at most once a second and one at a time, or not at all during a child |
| `AofFlush.Aof.FlushNothing` | src/src/aof.c:1182-1206 | an empty buffer: only a pending fsync is tried |
| `AofFlush.Aof.FlushBuffer` | src/src/aof.c:1248-1392 | a flush that is not postponed writes, then syncs |
| `AofFlush.Aof.Flush` | src/src/aof.c:1178-1392 | ends the server exactly under "always" by a write that is not complete or an fsync that fails; otherwise the log is what the step function says, with its fsync offset and what is on disk; `FlushLaws.WriteIsTried`, `FlushLaws.TriedReaches` and `FlushLaws.StartsMeans` say what that is by times and bytes |
| `FlushLaws.TriedReaches` | src/src/aof.c:1178-1356 | a flush that does not try leaves file and buffer alone; one that does puts into the file what the disk takes, or nothing if that is taken back |
| `FlushLaws.WriteIsTried` | src/src/aof.c:1208-1236 | over any run a flush does not try to write exactly if it is not forced, the policy is everysec, an fsync runs, and the first flush postponed since the last one that tried is this one or less than 2000 ms ago |
| `FlushLaws.PostponedTwoSeconds` | src/src/aof.c:1208-1236 | of the flushes from one with bytes to write to one 2000 ms later, at least one tries |
| `FlushLaws.StartsMeans` | src/src/aof.c:1358-1391 | a flush that wrote everything starts a background fsync exactly under everysec, 1000 ms after the last, if none runs, something is not synced, and no child forbids it |
| `FlushLaws.StartsApart` | src/src/aof.c:1358-1391 | no flush starts one within 1000 ms of the last, beside another, or under another policy |
| `FlushLaws.OncePerSecond` | src/src/aof.c:1358-1391 | over any run, background fsyncs that flushes start are at least 1000 ms apart |
| `FlushLaws.OnlyFailureStops` | src/src/aof.c:1140-1157 | short and interrupted writes are retried; only a failure keeps bytes out of the file, exactly those behind it |
| `FlushLaws.DiesOfDisk` | src/src/aof.c:1268-1375 | the server ends itself only under "always", never if the disk works, and always if the first write fails |
| `FlushLaws.HoleInNewFile` | src/src/aof.c:1296-1310 | a run of a server that feeds two bytes to a new INCR file and has three in it |
| `AofFlush.Aof.Run` | src/src/aof.c:1178-1392 | any run of feeds, flushes, fsync results, policy changes and new files is a trace of that relation; only a flush under "always" can end it |
| `AofFlush.TransferConserves` | src/src/aof.c:1248-1356 | an attempt loses, repeats or invents no byte exactly if the offset is at the end of the file or nothing left the buffer |
| `AofFlush.TransferAtEnd` | src/src/aof.c:1296-1310 | the offset leaves the end of the file exactly by a short write taken back without O_APPEND |
| `AofFlush.HoleAfterTruncation` | src/src/aof.c:1296-1310 | two writes after which the file holds a zero byte that nobody fed |
| `AofFlush.NextConserves` | src/src/aof.c:1178-1392 | one event keeps closed files, open file and buffer together equal to all bytes fed exactly if it does not write behind the end |
| `AofFlush.RunConserves` | src/src/aof.c:1178-1392 | the bytes are conserved after every event of a run exactly if no event of it writes behind the end |
| `AofFlush.NothingMisplaced` | src/src/aof.c:1178-1392 | that is so while no short write is taken back in a file without O_APPEND |
| `AofFlush.RunSteady` | src/src/aof.c:1358-1391 | over any run that misplaces nothing, the bytes up to the fsync offset are on disk exactly if the last fsync of the open file neither runs nor failed |
| `AofFlush.RunDurable` | src/src/aof.c:1358-1391 | after any returned flush under "always" all bytes fed are in the files, and the open file is on disk exactly if the flush got to its fsync or the last fsync had not failed |
| `AofFlush.FailedSyncUnseen` | src/src/config.c:2719-2727 | a run from server start in which a background fsync fails while the policy changes: under "always" the byte is in the file, but not on disk |
| `AofRewrite.LoadedFilesKept` | src/src/aof.c:1774-1895 | only files that the manifest loads matter to recovery |
| `AofRewrite.HistoryIrrelevant` | src/src/aof.c:658-680 | HISTORY entries do not matter to recovery |
| `AofRewrite.EmptyIncr` | src/src/aof.c:774-835 | naming an empty new INCR file changes nothing that is replayed |
| `AofRewrite.InstallSnapshot` | src/src/aof.c:427-520 | installing a snapshot as BASE recovers exactly if nothing was pending when it was taken |
| `AofRewrite.CrashSafe` | src/src/aof.c:523-602 | in every valid state the disk recovers exactly the commands written |
| `AofRewrite.RestartedOk` | src/src/aof.c:700-752 | starting from a disk that recovers gives a valid state |
| `AofRewrite.FlushedOk` | src/src/aof.c:1178-1392 | a flush of any part of the buffer keeps the invariant |
| `AofRewrite.CreatedOk` | src/src/aof.c:774-835 | so does creating the next INCR file |
| `AofRewrite.NamedOk` | src/src/aof.c:774-835 | so does a manifest on disk that is one INCR ahead |
| `AofRewrite.SwitchedOk` | src/src/aof.c:774-835 | so does switching to the new file |
| `AofRewrite.ForkedOk` | src/src/aof.c:2590-2658 | so does the fork |
| `AofRewrite.BaseRenamedOk` | src/src/aof.c:2771-2920 | so does the child's file under its new BASE name |
| `AofRewrite.BaseDroppedOk` | src/src/aof.c:2771-2920 | so does unlinking it again when the manifest could not be replaced |
| `AofRewrite.InstalledOk` | src/src/aof.c:2771-2920 | so does the new manifest, in memory and on disk |
| `AofRewrite.ForgottenOk` | src/src/aof.c:658-680 | so does the deletion of one history file |
| `AofRewrite.SavedOk` | src/src/aof.c:658-680 | so does persisting the manifest without its history |
| `AofRewrite.AfterDoneRecovers` | src/src/aof.c:2771-2920 | the disk after a completed rewrite recovers exactly if the fork left nothing pending and persisting did not fail after the rename |
| `AofRewrite.ShortFlushRepeatsCommand` | src/src/aof.c:2590-2658 | a run in which an incomplete flush before the fork makes a command replay twice |
| `AofRewrite.EventSafe` | src/src/aof.c:2771-2920 | an event that avoids both failing guards keeps every crash point recoverable |
| `AofRewrite.EventBreaks` | src/src/aof.c:2771-2920 | one that meets a guard leaves a disk that does not recover |
| `AofRewrite.RunRecovers` | src/src/aof.c:2590-2920 | all crash points of a run recover exactly if no event of it meets a guard |
| `AofRewrite.EventKeepsDataset` | src/src/aof.c:2590-2920 | only feeding adds a command to the dataset, and only a restart loses the unwritten ones |
| `AofRewrite.RunKeepsDataset` | src/src/aof.c:2590-2920 | the dataset after a run is what was fed, in order, less what restarts lost |
| `AofRewrite.Server.constructor` | src/src/aof.c:700-752 | the server starts from any disk image that recovers, which is its first crash point |
| `AofRewrite.Server.FlushCommands` | src/src/aof.c:1178-1392 | moves a prefix of the buffer to the open file, and records the disk |
| `AofRewrite.Server.OpenNewIncr` | src/src/aof.c:774-835 | creates, names and switches; state and crash points are exactly those of its steps, any of which may fail |
| `AofRewrite.Server.StartRewrite` | src/src/aof.c:2590-2658 | flush, new INCR and fork: state and crash points for every failure |
| `AofRewrite.Server.DeleteHistory` | src/src/aof.c:658-680 | the loop unlinks file by file; the disk after each unlink is a crash point |
| `AofRewrite.SweptFiles` | src/src/aof.c:658-680 | exactly the files the history names are gone, and the rest of the state is as it was |
| `AofRewrite.Server.MarkRewritten` | src/src/aof.c:490-520 | the loop moves all INCRs but the last to the history, newest first |
| `AofRewrite.Server.DropBase` | src/src/aof.c:2846-2858 | a manifest that was not persisted: the new BASE is unlinked, also if the manifest on disk names it |
| `AofRewrite.Server.RewriteDone` | src/src/aof.c:2771-2920 | state and crash points of the completion, for a failed rename, both failures of persisting and success |
| `AofRewrite.RewriteLeaves` | src/src/aof.c:2771-2920 | a rewrite that succeeds leaves the snapshot as BASE and the last INCR; the former BASE, the other INCRs and the former history are gone from the disk, every other file is untouched |
| `AofRewrite.Server.Reload` | src/src/aof.c:230-382 | a restart loads exactly what the disk names |
| `AofRewrite.Server.Step` | src/src/aof.c:2590-2920 | one event: state and recorded crash points |
| `AofRewrite.Server.Run` | src/src/aof.c:2590-2920 | any run of feeds, flushes, rewrites, failures, deletions and restarts: all recorded crash points recover exactly if no event meets a guard, and the dataset is what survives |
| `AofRecovery.LoadAppendOnlyFiles` | src/src/aof.c:1774-1895 | the loops over BASE and INCR files load each with a new client on the dataset so far; a truncated file is an error unless it is the last |
| `AofRecovery.LoadBehind` | src/src/aof.c:1522-1771 | how a file loads does not depend on what was loaded before it |
| `AofRecovery.CutFilesLoad` | src/src/aof.c:1774-1895 | whole files around one that was cut at any byte: the load fails exactly if the cut shows and the file is not the last; otherwise all whole commands run |
| `AofRecovery.WriteFiles` | src/src/aof.c:2601-2608 | the files after any propagation and any rewrites, each of which forgets the selected database |
| `AofRecovery.OwnDatabases` | src/src/aof.c:1446-1482 | loading all files runs every propagated command once, in order, in its own database, whenever rewrites switched files outside of transactions |
| `AofRecovery.WriteAndLoad` | src/src/aof.c:1774-1895 | the same of the loops that write the files and those that load them |
| `AofRecovery.RecoveredFiles` | src/src/aof.c:1774-1895 | what an image recovers is what its files hold, one after the other |
| `AofRecovery.TornWrite` | src/src/aof.c:1140-1157 | a crash at any byte of a write: the disk loads as the image with exactly the whole commands, which recovers; it does not load exactly if the cut shows while the disk names a further file |
| `AofRecovery.TornRun` | src/src/aof.c:2590-2920 | so it is after every run in which no rewrite breaks |
| `AofRecovery.TornBehindFailedSwitch` | src/src/aof.c:774-835 | a run after which the first byte of a write, alone on disk, makes the log fail to load |
| `AofRecovery.FlushTears` | src/src/aof.c:1140-1157 | what an interrupted flush leaves in the open file is a cut of the text fed to it |
| `AclRules.FindBlank` | src/src/acl.c:602-606 | the end of the current rule |
| `AclRules.NextRule` | src/src/acl.c:595-617 | where the current rule and its separator are, and whether it is the new rule or a sub-rule of it |
| `AclRules.RemoveRule` | src/src/acl.c:588-630 | the in-place loop turns a joined rule list into the joined list of the rules that stay |
| `AclRules.WithoutMembers` | src/src/acl.c:588-630 | exactly the rules that do not match stay |
| `AclRules.UpdateRules` | src/src/acl.c:634-642 | the new rule comes last, in lower case, with its sign |
| `AclRules.ParsedLength` | src/src/sds.c:1044-1127 | an argument and the rest behind it are no longer than the text, and the argument is all of the text only if nothing in it breaks apart |
| `AclRules.SplitLengths` | src/src/sds.c:1150-1185 | no argument is longer than the text it was split from, and each is shorter if the text breaks apart |
| `AclRules.SplitBehind` | src/src/sds.c:1150-1185 | behind retained rules the last text is split on its own |
| `AclRules.SplitJoin` | src/src/acl.c:811-819 | splitting the joined string as arguments gives the rules back |
| `AclRules.UpdatedNormal` | src/src/acl.c:634-642 | no rule of the list covers an earlier one |
| `AclRules.NormalReplays` | src/src/acl.c:811-819 | so replaying the list removes nothing and rebuilds the same string |
| `AclSelector.LookupLower` | src/src/server.c:3463-3504 | the look-up of a command does not depend on case |
| `AclSelector.ParseRetained` | src/src/acl.c:1243-1322 | the text kept for an operation parses to the same effect and is kept unchanged |
| `AclSelector.MatchCovers` | src/src/acl.c:588-630 | a rule that is removed only had effects the new rule overwrites |
| `AclSelector.WithoutAgrees` | src/src/acl.c:588-642 | dropping covered rules changes the replay only where the new rule decides |
| `AclSelector.ReplayUpdated` | src/src/acl.c:634-642 | the updated list replays to the old permissions changed by the new rule |
| `AclSelector.ReservedUntouched` | src/src/acl.c:542-583 | no rule changes the reserved bit |
| `AclSelector.Selector.constructor` | src/src/acl.c:356-375 | a fresh selector allows nothing and describes itself |
| `AclSelector.Selector.SetBit` | src/src/acl.c:574-583 | sets or clears one bit |
| `AclSelector.Selector.ChangePerm` | src/src/acl.c:646-665 | changes the command and, of a container, its subcommands, and resets first arguments of the command (`AclLaws.CommandRuleMeans` says it bit by bit) |
| `AclSelector.Selector.ChangeCategory` | src/src/acl.c:668-732 | changes the commands and subcommands of the category, and those of a container in it (`AclLaws.CategoryRuleMeans` says it bit by bit) |
| `AclLaws.LookupNames` | src/src/server.c:3463-3504 | a text finds a command exactly if it is its name, or the subcommand's behind its container and a bar, in any case |
| `AclLaws.AllowPart` | src/src/acl.c:1243-1308 | +a with b behind a bar, by cases: the subcommand b of a, first argument b of a command without subcommands, or which error |
| `AclLaws.CategoryRuleMeans` | src/src/acl.c:668-732 | bit by bit: a category rule sets the bits of the commands with the category of their own, or whose container has it, and no others; first arguments go exactly of the commands with the category of their own |
| `AclLaws.CommandRuleMeans` | src/src/acl.c:646-665 | bit by bit: a command rule sets the bits of the command and of the subcommands of a container, and no others; first arguments go exactly of that command |
| `AclLaws.SetCategory` | src/src/acl.c:1317-1322 | ACL SETUSER +@cat and -@cat on a selector: accepted exactly if there is such a category, with that meaning for its bits |
| `AclLaws.SetCommand` | src/src/acl.c:1243-1316 | ACL SETUSER +name and -name on a selector: accepted exactly if the name is a command's, with that meaning |
| `AclLaws.AllowPartOf` | src/src/acl.c:1252-1308 | ACL SETUSER +a with b behind a bar: what is accepted, and that a first argument is added without touching bits |
| `AclLaws.UpdatedList` | src/src/acl.c:588-642 | a new rule removes exactly the earlier ones for the same text or a part of it behind a bar, keeps the others in order, and comes last |
| `AclSelector.Selector.AddFirstArg` | src/src/acl.c:987-1012 | adds a first argument once, without regard to case |
| `AclSelector.Selector.ApplyPerm` | src/src/acl.c:1243-1322 | permission and rule string change together |
| `AclSelector.Selector.ApplyCategory` | src/src/acl.c:721-732 | the same for a category |
| `AclSelector.Selector.ApplyFirstArg` | src/src/acl.c:987-1012 | the same for a first argument |
| `AclSelector.Selector.Reset` | src/src/acl.c:1172-1181 | everything or nothing, with an empty rule string |
| `AclSelector.Selector.Allow` | src/src/acl.c:1243-1305 | each way to allow a command and each error, on the text as a C string |
| `AclSelector.Selector.SetSelector` | src/src/acl.c:1144-1322 | on every text, up to its first zero byte: a refused one changes nothing, an accepted one changes the permissions, and the string then replays to them exactly if the retained text has no blank and no quote |
| `AclSelector.Selector.Rebuild` | src/src/acl.c:793-819 | the replay of the string has the same permissions and the same string |
| `AclSelector.Selector.Describe` | src/src/acl.c:790-838 | the comparison that would panic never fails; the text is the side and the rules |
| `AclSelector.AnyRun` | src/src/acl.c:790-838 | the panic is unreachable after any sequence of operations, accepted or refused, whose retained texts have no blank and no quote |
| `AclSelector.RetainedReplays` | src/src/acl.c:811-819 | a retained list, joined and split again, performs to its replay |
| `AclSelector.BrokenIsFirstArg` | src/src/acl.c:1243-1322 | a text that breaks apart can only come from a first argument |
| `AclSelector.TextReplays` | src/src/acl.c:790-838 | after any retained rules and one more accepted operation, the string replays to the permissions exactly if the new text has no blank and no quote |
| `AclSelector.ZeroByteEnds` | src/src/acl.c:1262-1302 | what follows a zero byte is not part of the operation: a first argument with anything behind a zero byte is retained without it, and replays |
| `AclSelector.BlankRefused` | src/src/acl.c:1243-1322 | an accepted first argument with a blank whose replay is refused |
| `AclSelector.BlankAllowsCommand` | src/src/acl.c:1243-1322 | one whose replay is accepted and allows a command that the selector does not |
| `AclSelector.CommandIds.constructor` | src/src/acl.c:1670-1694 | no ids yet |
| `AclSelector.CommandIds.GetId` | src/src/acl.c:1670-1694 | ids are stable and distinct by lower-case name, and never the reserved one |
| `AclSelector.CommandIds.TableIds` | src/src/acl.c:1670-1694 | a command table whose ids come from this class has ids that are distinct and not the reserved one |
| `AclSelector.CommandIds.FitTable` | src/src/acl.c:1670-1694 | every id is below 1024, the size of the bitmap and of the table of first arguments, exactly while at most 1023 names have one |
| `HashSlot.KeyHashSlot` | src/src/cluster.c:58-77 | the loops hash the first non-empty tag, or the whole key |
| `HashSlot.TagDecides` | src/src/cluster.c:58-77 | the text between the first opening brace and the first closing one behind it decides the slot, if there is any |
| `HashSlot.SameTagSameSlot` | src/src/cluster.c:58-77 | keys with the same tag have the slot of the tag itself |
| `HashSlot.WholeKeyDecides` | src/src/cluster.c:58-77 | without an opening brace, without a closing one behind it, or with nothing between them, all of the key decides |
| `HashSlot.LiteralPrefix` | src/src/util.c:63-194 | a match agrees with the pattern up to its first special character |
| `HashSlot.SameTag` | src/src/cluster.c:58-77 | strings that agree up to the closing brace have the same tag |
| `HashSlot.PatternDecides` | src/src/cluster.c:82-107 | a pattern with nothing special before its deciding point has the slot of every key it matches |
| `HashSlot.PatternHashSlot` | src/src/cluster.c:82-107 | a slot is returned exactly if nothing special comes first, and then all matching keys have it |
| `HashSlot.DecidedMeans` | src/src/cluster.c:82-107 | the deciding point of a pattern is the end of that tag, or the end of the pattern |
| `SlotRouting.TransactionSlot` | src/src/cluster.c:1071-1087 | one slot for all queued commands, or a cross-slot error |
| `SlotRouting.CountCommand` | src/src/cluster.c:1177-1228 | the counters of one command know which keys are missing and present |
| `SlotRouting.CopyReadsArguments` | src/src/cluster.c:1203-1212 | whether COPY is refused is settled by its arguments exactly if it does not end with the word DB, in which case the argument behind the last one is read |
| `SlotRouting.CopyEndsWithDb` | src/src/cluster.c:1203-1212 | COPY a b DB is decided by what is behind its arguments |
| `SlotRouting.CountKeys` | src/src/cluster.c:1132-1230 | the counters of a request decide missing, existing and several keys exactly, and refusals of MOVE and COPY |
| `SlotRouting.GetNodeByQuery` | src/src/cluster.c:1048-1304 | the reply is the routing decision on all inputs, with shard channels, the command's own flags and those of its queue; `RoutingLaws` says which reply that is, by owner, keys and flags |
| `RoutingLaws.RequestKeys` | src/src/cluster.c:1149-1228 | a request touches exactly the keys of its commands, each in the database of the last SELECT before it |
| `RoutingLaws.RefusedMeans` | src/src/cluster.c:1193-1212 | a request is refused while the slot moves exactly if it has MOVE with a key, or COPY to another database than the one it runs in |
| `RoutingLaws.SettledAnswers` | src/src/cluster.c:1048-1304 | every reply of a node that moves the slot neither way, if and only if: MOVED exactly for a request with one owned slot that is let through, of another owner, and that no replica serves; the errors likewise; never ASK |
| `RoutingLaws.RedirectsElsewhere` | src/src/cluster.c:1265-1304 | MOVED names the owner, which is another node; ASK names the node the slot moves to |
| `RoutingLaws.MovedOnce` | src/src/cluster.c:1303-1304 | the node that MOVED names does not answer MOVED if it agrees on the owner |
| `RoutingLaws.MigratingAnswers` | src/src/cluster.c:1265-1276 | a primary that moves its slot away: served exactly if all keys are held, ASK exactly if none is, TRYAGAIN otherwise |
| `RoutingLaws.ImportingAnswers` | src/src/cluster.c:1278-1304 | a primary that the slot moves to: MOVED to the owner exactly without ASKING, TRYAGAIN exactly if several keys are named and one is missing |
| `RoutingLaws.MigrateStays` | src/src/cluster.c:1258-1263 | MIGRATE is executed by either node of a moving slot |
| `RoutingLaws.FollowedIsServed` | src/src/cluster.c:1048-1304 | among primaries that agree, from any node a client that follows MOVED and ASK is served within two redirections, also while the slot moves |
| `SlotMigration.Compact` | src/src/cluster.c:557-597 | the in-place loop keeps exactly the live keys, in order |
| `SlotMigration.SelectHeld` | src/src/cluster.c:505-511 | the loop over the names keeps exactly those that are held, in order |
| `SlotMigration.DeleteAcknowledged` | src/src/cluster.c:638-671 | the loop over the replies deletes exactly the acknowledged keys, none with COPY |
| `SlotMigration.MigrateKeys` | src/src/cluster.c:505-671 | exactly the acknowledged keys leave the source, none with COPY |
| `SlotMigration.SentInOrder` | src/src/cluster.c:505-597 | the keys sent are those named that are held and not expired, as often as named and in their order |
| `SlotMigration.MigrateAtSource` | src/src/cluster.c:505-671 | the source of the protocol after MIGRATE is what that method leaves, in the database of the command |
| `SlotMigration.AcknowledgedWereSent` | src/src/cluster.c:638-671 | the acknowledged keys are exactly those sent whose reply was good |
| `SlotMigration.SentWereHeld` | src/src/cluster.c:505-597 | only keys that the source holds are sent, so only such are deleted |
| `SlotMigration.SourceServesHeld` | src/src/cluster.c:1261-1304 | a request that the migrating source serves has all its keys there |
| `SlotMigration.ServedWithItsKeys` | src/src/cluster.c:1149-1228 | that is so, whatever the source holds, exactly if the request names no shard channel |
| `SlotMigration.ShardedTransactionSplits` | src/src/cluster.c:1217-1228 | a transaction with a shard channel that is executed at the source after its key had moved |
| `SlotMigration.SourceAsksForAbsent` | src/src/cluster.c:1267-1276 | a request it answers with ASK has no key there |
| `SlotMigration.TargetServes` | src/src/cluster.c:1282-1304 | the importing target serves only after ASKING, and several keys only if it holds all |
| `SlotMigration.StepKeepsApart` | src/src/cluster.c:1048-1304 | one event leaves the key sets apart exactly if it is no unclean MIGRATE, and a command that is executed runs with its keys |
| `SlotMigration.SourceShrinks` | src/src/cluster.c:1048-1304 | no event gives the source a key |
| `SlotMigration.MigrateKeepsApart` | src/src/cluster.c:557-671 | MIGRATE leaves them apart exactly if every restored key was acknowledged and there was no COPY, or it went to a database where the source does not have it |
| `SlotMigration.LostReplySplits` | src/src/cluster.c:638-660 | a lost reply that leaves a key on both nodes |
| `SlotMigration.RunKeepsApart` | src/src/cluster.c:1048-1304 | over whole runs no key is ever on both nodes exactly if every MIGRATE is clean, and then every executed command runs with its keys |
| `SlotMigration.RunSourceShrinks` | src/src/cluster.c:1048-1304 | over whole runs the source gains no key |
| `BlockIndex.AddedExact` | src/src/blocked.c:449-481 | one more entry keeps the two-way index and its counts exact |
| `BlockIndex.ReleasedExact` | src/src/blocked.c:579-611 | one entry less keeps them exact, and the asserted count entry exists |
| `BlockIndex.WantsChange` | src/src/blocked.c:482-483 | a client without keys may change whether it waits for deletions |
| `BlockIndex.UnlinkIsWithout` | src/src/blocked.c:579-592 | unlinking the remembered node removes exactly that client from the list |
| `Blocking.CountedBlock` | src/src/blocked.c:106-118 | the counters stay the number of blocked clients of each kind |
| `Blocking.CountedUnblock` | src/src/blocked.c:244-253 | and cannot become negative |
| `Blocking.WaiterSignals` | src/src/blocked.c:522-548 | a client that waits for the signal makes all its quick checks pass |
| `Blocking.ExactLists` | src/src/blocked.c:434-503 | a client is in the list of a key exactly if the key is in its set, at most once, and no list is empty |
| `Blocking.PassHere` | src/src/blocked.c:630-640 | the saved pointer of the pass names the next client of the initial list |
| `Blocking.PassNext` | src/src/blocked.c:630-657 | a visit keeps released clients out, the others in order, newcomers behind, and the saved pointer inside the list |
| `Blocking.Server.constructor` | src/src/blocked.c:81-94 | nobody waits and nothing is ready |
| `Blocking.Server.BlockClient` | src/src/blocked.c:106-118 | marks the client and counts it |
| `Blocking.Server.JoinLists` | src/src/blocked.c:449-481 | the client joins the end of the list of each key once; nobody else moves |
| `Blocking.Server.JoinKeys` | src/src/blocked.c:434-488 | blocking on keys keeps index, counts and counters exact |
| `Blocking.Server.LeaveKeys` | src/src/blocked.c:490-503 | the client leaves all lists; nobody else moves; the assertions on the way hold |
| `Blocking.Server.Enqueue` | src/src/blocked.c:206-213 | a client is queued for reprocessing at most once |
| `Blocking.Server.UnblockClient` | src/src/blocked.c:217-256 | unblocking keeps everything exact and leaves no trace in the index |
| `Blocking.Server.SignalKey` | src/src/blocked.c:522-566 | queue and set of ready keys agree without repetition, and no signal that somebody waits for is lost |
| `BlockingLaws.SignalsMean` | src/src/blocked.c:522-548 | a signal makes a key ready exactly if some client is blocked for that type of value or by a module, and some client at the key may be concerned |
| `Blocking.Server.Perform` | src/src/blocked.c:434-566 | exactly the effects of the script, which keep everything exact and leave blocked clients alone |
| `Blocking.Server.BlockElse` | src/src/blocked.c:660-694 | blocking for other reasons keeps everything exact |
| `Blocking.Server.Detach` | src/src/blocked.c:700-713 | the client is in no list and is not blocked when its command starts again |
| `Blocking.Server.Rerun` | src/src/blocked.c:714-745 | the command runs again; a client that is not blocked by it is queued, or a module's handler called |
| `BlockingLaws.RerunMeans` | src/src/blocked.c:714-745 | a client that its command does not block again is queued, and nothing else changes behind the command |
| `Blocking.Server.UnblockOnKey` | src/src/blocked.c:700-745 | the command runs with the client in no list; afterwards the client is blocked anew, queued, or left to its module's handler |
| `Blocking.Server.VisitClient` | src/src/blocked.c:636-655 | one visit serves the client exactly under the source's condition (`BlockingLaws.ReleasedMeans` says it by kinds of values); a released client left its lists and had its command run, anybody else is undisturbed |
| `Blocking.Server.HandleKey` | src/src/blocked.c:624-657 | a pass visits exactly the clients that waited at its start, once and in order; the list is then those not released, in order, then newcomers; clients it does not release wait on as they were |
| `BlockingLaws.ReleasedMeans` | src/src/blocked.c:636-655 | a client of BLPOP, BZPOPMIN or XREAD is released exactly by a list, a sorted set or a stream, or by anything if it is to hear of deletions; a module's client is not released here |
| `BlockingLaws.PassServes` | src/src/blocked.c:624-657 | in a pass, waiter i is visited as number i, and released exactly under that condition |
| `Blocking.Server.HandleFirst` | src/src/blocked.c:405-420 | the key may be signalled again while it is handled |
| `Blocking.Server.HandleReady` | src/src/blocked.c:383-425 | one complete pass for each ready key in signal order, each from the state the last one left, until none is ready; a nested call does nothing |
| `BlockingLaws.HandledIsReleased` | src/src/blocked.c:383-425 | a client that waits at a key that gets a round, and finds what it waits for when looked at, is released by that round or an earlier one |
| `BlockingLaws.SignalThenHandle` | src/src/blocked.c:383-657 | a key is signalled and the ready keys handled: whoever waited there for that type, or for a deletion, is released if the key still has such a value when looked at |
| `Blocking.Server.TakeUnblocked` | src/src/blocked.c:158-170 | the first queued client leaves the queue and may be queued again |
| `Blocking.Server.Run` | src/src/blocked.c:106-745 | over any run the index is exact, no list empty, and every counter right |
| `Bitmap.FirstMaskBits` | src/src/bitops.c:995-996 | the first edge mask selects the bits before the range |
| `Bitmap.LastMaskBits` | src/src/bitops.c:995-996 | the last edge mask selects the bits behind it |
| `Bitmap.ValueDigit` | src/src/bitops.c:393-405 | the bits of a field are the binary digits of its value |
| `Popcount.CountIs` | src/src/bitops.c:166-183 | the parallel steps leave in each byte lane the number of its set bits |
| `Popcount.LaneCounts` | src/src/bitops.c:166-183 | the steps on one byte give the number of its set bits |
| `Popcount.TopLane` | src/src/bitops.c:180-185 | seven words do not overflow a lane and the multiplication adds the lanes |
| `Popcount.SwarCounts` | src/src/bitops.c:154-186 | one turn counts the set bits of 28 bytes |
| `Popcount.PopcountScalar` | src/src/bitops.c:141-191 | the number of set bits for every length and address |
| `Popcount.EdgesCount` | src/src/bitops.c:992-1035 | subtracting the masked edge bytes leaves the bits of the range, also within one byte |
| `Popcount.Clamp` | src/src/bitops.c:986-991 | negative ends count from the end, and ends outside are clamped |
| `Popcount.CountMasked` | src/src/bitops.c:1025-1035 | set bits of the bytes without those the masks select |
| `Popcount.Resolve` | src/src/bitops.c:974-1001 | the range of the arguments, empty for reversed negative ends |
| `Popcount.BitCount` | src/src/bitops.c:953-1037 | the number of set bits in the clamped range |
| `RangeLaws.SelectedMeans` | src/src/bitops.c:974-1001 | BITCOUNT selects a bit exactly if it is in the range as written, negative ends counting from the end, and the ends are not reversed |
| `RangeLaws.CountIsCardinality` | src/src/bitops.c:953-1037 | the count is the number of elements of the set of positions with a set bit |
| `RangeLaws.BitNumbers` | src/src/bitops.c:373-386 | bit i is bit 7 - i % 8 of byte i / 8 |
| `Bitpos.NativeSkips` | src/src/bitops.c:297-305 | a word equals the skipped one exactly if all its bytes do |
| `Bitpos.BigIsValue` | src/src/bitops.c:315-323 | the word loaded byte by byte is the value of its bits |
| `Bitpos.Present` | src/src/bitops.c:325-349 | the padded last word holds the sought bit, so the panic is unreachable |
| `Bitpos.LoadWord` | src/src/bitops.c:315-323 | loads the window, padded with zeros |
| `Bitpos.ScanWord` | src/src/bitops.c:336-349 | finds the first sought bit of the word and always returns |
| `Bitpos.ServerBitpos` | src/src/bitops.c:265-350 | the first position of the bit, -1 or the end, for any word size and address |
| `Bitpos.Search` | src/src/bitops.c:1130-1164 | masked first byte, whole bytes and masked last byte together search the range |
| `Bitpos.BitPos` | src/src/bitops.c:1054-1180 | the first position in the clamped range; -1 if none; past the string only for a clear bit without an explicit end |
| `RangeLaws.LookedMeans` | src/src/bitops.c:1085-1122 | BITPOS looks at a bit exactly if it is in the range as written |
| `RangeLaws.ReplyMeans` | src/src/bitops.c:1054-1180 | the reply is the least position in that range with the bit; without one it is -1, or the length for a clear bit without an explicit end |
| `RangeLaws.EndInFront` | src/src/bitops.c:1085-1122 | the range from 0 to -100 of one byte is that byte |
| `Bitpos.ReversedLooked` | src/src/bitops.c:1085-1122 | of the ranges with reversed negative ends exactly those that start behind the first unit, or of an empty string, are empty |
| `Bitpos.LookedIsSelected` | src/src/bitops.c:1085-1122 | BITPOS looks at the bits BITCOUNT counts exactly if the ends are not reversed at the start of the string |
| `Bitpos.ReversedFinds` | src/src/bitops.c:1085-1122 | a string in which BITPOS finds a bit in a range that is empty for BITCOUNT |
| `Bitfield.WrappedMeans` | src/src/bitops.c:441-444 | the wrapped number is congruent modulo 2^bits and fits |
| `Bitfield.WrapSignedExact` | src/src/bitops.c:520-537 | sign extension or masking of the 64-bit sum is that representative |
| `Bitfield.UnsignedExact` | src/src/bitops.c:454-488 | overflow is reported exactly if the sum does not fit, with the limit of the mode |
| `Bitfield.SignedExact` | src/src/bitops.c:490-539 | the same for signed fields up to 64 bits |
| `Bitfield.SetUnsignedExact` | src/src/bitops.c:454-488 | SET checks its argument as an unsigned 64-bit number |
| `Bitfield.SetUnsignedNearest` | src/src/bitops.c:1363-1370 | which is what the argument asks for unless it is negative and the mode is SAT |
| `Bitfield.SetMinusOne` | src/src/bitops.c:1363-1370 | SET of -1 in an unsigned 8-bit field with SAT stores 255, not 0 |
| `Bitfield.SetSignedExact` | src/src/bitops.c:490-539 | SET always notices overflow; its limit is right exactly if the subtraction does not wrap around under SAT |
| `Bitfield.SetSaturatesUpwards` | src/src/bitops.c:496-505 | an input on which SAT stores the highest instead of the lowest number |
| `Bitfield.StoreMeans` | src/src/bitops.c:373-386 | storing writes the number modulo 2^bits and no other bit |
| `Bitfield.SetUnsigned` | src/src/bitops.c:373-386 | the in-place loop stores the bits |
| `Bitfield.SetSigned` | src/src/bitops.c:388-391 | the same for signed numbers |
| `Bitfield.GetUnsigned` | src/src/bitops.c:393-405 | the loop reads the value of the bits |
| `Bitfield.GetSigned` | src/src/bitops.c:407-430 | the value in two's complement of its width |
| `Bitfield.WriteReads` | src/src/bitops.c:373-430 | what is written is read back, and no other bit changes |
| `Bitfield.IncrByMeans` | src/src/bitops.c:1326-1380 | INCRBY stores the exact sum, its representative, the nearest limit, or nothing, and changes no other bit |
| `Bitfield.SetMeans` | src/src/bitops.c:1325-1382 | SET replies the former value, stores the number, its representative, or a limit under SAT, or does nothing and replies null exactly under FAIL on overflow; no other bit changes |
| `Bitfield.GetMeans` | src/src/bitops.c:1384-1413 | GET changes nothing and replies the value of the bits, in two's complement if signed, zeros behind the string |
| `Bitfield.ExecuteSigned` | src/src/bitops.c:1325-1352 | SET and INCRBY on signed fields are the specified step |
| `Bitfield.ExecuteUnsigned` | src/src/bitops.c:1353-1382 | SET and INCRBY on unsigned fields are the specified step |
| `Bitfield.ExecuteGet` | src/src/bitops.c:1384-1413 | GET through the nine-byte window reads the zero-extended string |
| `Bitfield.Execute` | src/src/bitops.c:1317-1413 | one operation is the specified step, which `Bitfield.GetMeans`, `Bitfield.SetMeans` and `Bitfield.IncrByMeans` state by values and bits |
| `Bitfield.GrownReads` | src/src/bitops.c:638-666 | growing the string changes nothing that can be read |
| `Bitfield.BitField` | src/src/bitops.c:1263-1414 | all operations in order on the grown string, in bounds |
| `Bitfield.RepliesInOrder` | src/src/bitops.c:1310-1414 | reply j is that of operation j on the string the operations before it left |
| `Bitfield.GrownExactly` | src/src/bitops.c:1263-1305 | the string keeps its bytes and gets zero bytes, no more than the farthest write needs |
| `Bitop.FoldSettled` | src/src/bitops.c:900-919 | once AND reaches 0 or OR reaches all ones, the rest of the keys do not matter |
| `Bitop.WordAnd` | src/src/bitops.c:843-855 | AND of 32-bit words acts on each byte |
| `Bitop.WordOr` | src/src/bitops.c:856-868 | OR of 32-bit words acts on each byte |
| `Bitop.WordXor` | src/src/bitops.c:869-881 | XOR of 32-bit words acts on each byte |
| `Bitop.WordNot` | src/src/bitops.c:882-892 | NOT of a 32-bit word acts on each byte |
| `Bitop.ApplyToBytes` | src/src/bitops.c:843-881 | each operator on 32-bit words acts on each byte |
| `Bitop.ApplyToHalves` | src/src/bitops.c:843-881 | each operator on 64-bit words acts on both halves |
| `Bitop.CombineWord32` | src/src/bitops.c:843-881 | a 32-bit word is loaded, combined and stored: each of its bytes is combined, no other changes |
| `Bitop.CombineWord64` | src/src/bitops.c:843-881 | the same for a 64-bit word |
| `Bitop.CombineWord` | src/src/bitops.c:843-881 | one machine word of either size |
| `Bitop.InvertWord32` | src/src/bitops.c:882-892 | a 32-bit word is loaded, inverted and stored: each of its bytes is inverted |
| `Bitop.InvertWord64` | src/src/bitops.c:882-892 | the same for a 64-bit word |
| `Bitop.InvertWord` | src/src/bitops.c:882-892 | one machine word of either size |
| `Bitop.CombineBlock` | src/src/bitops.c:843-881 | four words in place |
| `Bitop.InvertBlock` | src/src/bitops.c:882-892 | four words inverted in place |
| `Bitop.Lengths` | src/src/bitops.c:790-820 | the shortest and the longest input, missing keys being empty |
| `Bitop.FastPath` | src/src/bitops.c:834-893 | the bytes done four words at a time hold the fold |
| `Bitop.FoldByte` | src/src/bitops.c:897-921 | the inner loop with early exit is the whole fold |
| `Bitop.FoldBits` | src/src/bitops.c:897-921 | bit by bit: AND is all strings, OR some string, XOR an odd number of strings, NOT the opposite of the one string; zeros behind the end of a string |
| `Bitop.BitOp` | src/src/bitops.c:790-922 | at every byte below the longest input, the fold over zero-padded inputs |
| `Defrag.ClassToBin` | src/src/allocator_defrag.c:166-192 | the size classes have consecutive bins, for every exponent |
| `Defrag.ClassesIncrease` | src/src/allocator_defrag.c:166-192 | the classes strictly increase |
| `Defrag.BinRoundsUp` | src/src/allocator_defrag.c:166-192 | a size gets the least class that holds it exactly if it is above 64 or a multiple of 8 |
| `Defrag.NineBytes` | src/src/allocator_defrag.c:166-192 | nine bytes get the bin of eight |
| `Defrag.LeastFilledMoves` | src/src/allocator_defrag.c:358-373 | with two non-full slabs a least-filled one is moved and a full one never |
| `Defrag.DecisionMeans` | src/src/allocator_defrag.c:358-373 | the decision in terms of the slabs: below an eighth, or at most 9/8 of the average fill |
| `Defrag.MachineAgrees` | src/src/allocator_defrag.c:358-373 | in machine words the decision is that on numbers while no product leaves its word |
| `Defrag.MachineMovesLeast` | src/src/allocator_defrag.c:358-373 | in machine words, with two non-full slabs and 1125 times the allocated regions inside the word: a least-filled slab is moved and a full one never |
| `Defrag.MachineMeans` | src/src/allocator_defrag.c:358-373 | the decision of the machine in terms of the slabs, while its products are inside their words |
| `Defrag.EvenSlabsMove` | src/src/allocator_defrag.c:358-373 | slabs filled alike, all of them least-filled, are moved by the machine exactly if 1125 times their regions is inside the word |
| `Defrag.MachineRefusesLeast` | src/src/allocator_defrag.c:358-373 | a bin of 512 regions with 8000 slabs of 511, all refused by 32-bit words |

## Left out

- CrcSpeed.SpeedLittle: the big-endian routine and the 16-bit CRCs are not modelled; the second matrix multiplication of `crccombine.c` is an alternative that is not used.
- AofFormat.Load: sizes that do not fit a C integer, timestamp annotations when they are written, and the RDB preamble are not modelled.
- AofFormat.FeedThenLoad: commands are abstract steps on a dataset; their own semantics are not modelled.
- AofFlush.Aof.Run: what becomes of a file after it was closed is not modelled (`AofFlush.RunDurable` says when the flush before that made all of it durable), nor are latency samples and replication offsets.
- FlushLaws.WriteIsTried: clocks do not show zero, which the source uses for "not postponed"; `FlushLaws.PostponedTwoSeconds` and `FlushLaws.OncePerSecond` are about clocks that do not run backwards.
- AofRewrite.Server.FlushCommands: writes whole commands; `AofFlush` says when the bytes of a flush are conserved, and `AofRecovery.TornWrite` what a torn write loads to.
- AofRecovery.LoadAppendOnlyFiles: the upgrade from a single file, the status of an empty log and a BASE in RDB format are not modelled.
- AofRewrite.Server.RewriteDone: the first rewrite after the log is turned on at run time, with its temporary INCR file, is not modelled.
- AofRewrite.Server.Reload: the text format of the manifest is not modelled; a manifest is replaced in one step or not at all.
- AclSelector.AnyRun: covers operations whose retained text does not break apart; `AclSelector.TextReplays` says that the others are exactly those that do not replay.
- AclSelector.Selector.SetSelector: operations on keys, channels and databases are accepted without effect; passwords and selectors in parentheses are not modelled.
- AclSelector.Selector.AddFirstArg: first arguments are kept for every command id; the table of pointers has 1024 entries, and `AclSelector.CommandIds.FitTable` says when every id is inside.
- HashSlot.PatternHashSlot: CRC16 is any function; the nesting limit of the glob matcher is not modelled.
- SlotRouting.GetNodeByQuery: how keys are found in the arguments of a command is not modelled.
- SlotMigration.RunKeepsApart: clients that name shard channels are outside of the run (`SlotMigration.ServedWithItsKeys` says why); expiry between requests and the finalisation of the slot are not modelled.
- Blocking.Server.Rerun: a module's handler is an arbitrary script of effects.
- Blocking.Server.HandleKey: clients freed while their command runs and SWAPDB are not modelled; a module's own callback is an arbitrary script and its clients leave the lists later, through UnblockClient.
- Blocking.Server.HandleReady: scripts are finite lists; once they are used up commands have no further effect, so that handling ends.
- Popcount.PopcountScalar: the AVX2 and NEON variants are not modelled, and an entry of the 256-byte table is the number of ones of its index.
- Popcount.BitCount: parsing of arguments and type errors are not modelled; a string is at most as long as the assertion in the source allows, so 64-bit positions do not overflow.
- Bitpos.BitPos: parsing of arguments and type errors are not modelled.
- Bitfield.BitField: parsing of arguments, the read-only command and the change counter for notifications are not modelled.
- Bitop.BitOp: type errors and the storing of the target key are not modelled; words are little-endian.
- Defrag.LeastFilledMoves: is about numbers; `Defrag.MachineMovesLeast` and `Defrag.MachineMeans` are about machine words. The statistics queries are not modelled.
- Not modelled at all: sockets and the event loop, RDB encoding, replication, pub/sub, memory management, and the statistics and latency code.
