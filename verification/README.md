# Verified models of the firmware's storage, buffer, protocol and formatting code

This project models the parts of the firmware that change state step by step and proves, for every input and every
run, that each of them implements a simple abstract object. Methods have the loops and branches of the C functions
they are named after; what they compute is stated with functions and predicates about which the properties are then
proved. `dafny verify dfyconfig.toml` checks everything.

## What is modelled

**The time-series log** (`Tsdb*.dfy`, over `FlashDevice.dfy` and `StatusTable.dfy`). Flash is a sequence of bytes:
erasing sets 0xFF, programming can only clear bits. A sector is a 40-byte header, 16-byte index entries growing up and
data growing down (write granularity 1, 32-bit times). The abstract state is the history of all accepted records and
how many of them have been rolled over; flash holds exactly the rest. Proved: appends with rollover, which give nothing
up before every sector is filled to less than a longest entry (`AppendAll`), iteration in both directions, queries by
time and counts, status changes, and when a clean restart is invisible. A downward query reads
one index position behind the last entry of each sector. When a sector is filled to its last byte that position holds
data, and the query may go wrong: `TightSectorMisleads` is such a run, and `DownQueryRightExactly` says for all states
when the query is right. In the last sector of the flash that position may lie behind the end. Reading it then fails
without notice, here and in the walk of the start-up, and the buffer keeps whatever it held: `Noise` stands for that,
and the exact conditions for query and restart are over it, too.

**The key-value store** (`Kvdb*.dfy`) at record level: a sector is a sequence of records with status, name and value,
and sizes are counted in bytes (the configuration file leaves this store switched off; the header's default sizes are
used). `KvdbImage.dfy` gives the bytes of a record in flash as far as lookups see them. The abstract object is a map.
Proved: the map refinement of set and delete with garbage collection through a spare sector, the two RAM tables, the
two-phase replacement, and what a start makes of the flash when power has gone after any flash write of any operation.
The allocator's rule that more than a header and a name stay free behind a record is what makes collection always
succeed; it also means that no sector ever becomes full in the code's own sense and that the collection at the end of
a set is never requested, so both are dead branches here.

`KvdbRoom.dfy` says when a set finds room. One that finds none collects the first dirty sector, and then succeeds
exactly if the record fits beside what the live records of that sector left in the spare one. So a store whose sectors
each take one record more than there are names never fills up, however long the run (`Run`), provided that its clean
sectors hold live records only; a start that met an unfinished record may leave that one in a clean sector.

Limits of the code are stated exactly. The cached lookup compares only as many bytes as the key has with what stands
in flash from a record's name on, so a cached record of another name with the same 16 hash bits may answer for a key:
`FindKv` agrees with the full scan, a delete removes the right record, and a set replaces the right one, if and only
if none does. The hash is the real one, so that there are such names (`KvdbShadow.dfy`), and runs refine a map for all
values if and only if no name in play starts another with the same hash.

Every flash state in the course of a run holds the map after some of its operations (`Run`), where a record that is
only marked for replacement counts. A start (`Load`, `KvdbRecovery.dfy`) makes a store of that map again with these
exceptions, each with its exact condition. The scan stops at an unfinished new record, so if it comes there before it
comes to the old one the key is missing until the next start. Where it begins is decided by the sector table as the
handle has it when the search for the oldest sector reads it, before it is emptied: a handle that has never been used
always begins at sector 0. When power goes behind the very first write of a set, and no sector has room for the old
record even when the dirty ones have been collected, the start never ends. And when power goes while a collection
copies a record into the last empty sector, the resumed collection has no spare sector: it loses exactly what
first-fit packing of the first dirty sector into the free space of the clean ones leaves over (`DoGc`,
`KvdbPacking.dfy`). `CutCopyAndRestart` says for every flash write of such a copy whether the key is kept.

**The CRC-32** of the records (`Crc.dfy`): the table-driven form equals division by the polynomial bit by bit, pieces
compose, and every change within four consecutive bytes is detected.

**The RTT rings** (`RttRing.dfy`, `RttConcurrent.dfy`, `Cyclic.dfy`): the writers that skip, trim, overwrite or block
and the two-chunk reader refine a bounded queue of bytes. The overwriting writer does so only for writes that come
round to the end of the buffer once; longer ones leave the offsets wrong, and what the buffer then holds is stated
exactly. The blocking writer and the host are also modelled as interleaved steps, with memory barriers as step order.

**vsnprintf** (`Vsnprintf*.dfy`): the directive state machine and the integer converter write into a bounded buffer
what an unbounded output begins with. That output is also described by a grammar of directives, and
`VsnprintfDirective.dfy` says what a single one prints without naming the converter: the value of its argument read
back in the base of its conversion, letter case, sign, padding, digits, ticks, and the arguments taken. A digit behind
a star precision can make the precision a negative number other than -1. The loop that copies a string then counts
away from zero: formats and arguments for which that does not happen (`Safe`, the precondition) are exactly the
`Bounded` ones. Arguments are a sequence of typed values; `long` and pointers have 32 bits.

**The apbus frames** (`Apbus*.dfy`): codec, checksum and the resumable reader, for every chunking of the stream. The
reader's buffer has 280 bytes; a header that announces more than 256 bytes of body is excluded by a precondition.

**The boot loader** (`Nboot.dfy`): power may go at any byte that is erased or programmed; erasing the metadata page is
one step, and the erase of the slot covers whole copy chunks. An operation that fails ends in the loader's error loop
and leaves the same flash as a cut. `TornReadsOkExactly` shows that the torn mark of a download, unlike the torn
record of an invalid state, can read as a finished download, then with a wrong size.

**The event scheduler** (`Scheduler.dfy`), which holds min(queue_size, 255) events, with puts that interrupt each other
between any two of their writes, to any depth, with puts that interrupt the fetching of an event, and with handlers
that put; and **memmem** (`Memmem.dfy`).

Flash operations succeed unless power goes. Locks, logging and callbacks into unknown code are left out or are
parameters: callbacks of the log are functions that say whether to stop, handlers of the scheduler are lists of what
they put.

## Model

| member | source | states |
|---|---|---|
| StatusTable.SetStatus | src/3rdparty/FlashDB/src/fdb_utils.c:91-124 | the table in memory becomes the blank table with one status written, and the byte index is that of the one byte to program |
| StatusTable.GetStatus | src/3rdparty/FlashDB/src/fdb_utils.c:126-145 | the result is the highest marked position plus one: it is marked and nothing above it is |
| StatusTable.AdvanceDecodes | src/3rdparty/FlashDB/src/fdb_utils.c:147-171 | programming a status over any table takes the decoded status to the larger of the two; a multiple of 8 changes nothing |
| StatusTable.RoundTripExactly | src/3rdparty/FlashDB/src/fdb_utils.c:91-145 | a status written to a blank table decodes to itself if and only if it is 0 or no multiple of 8 (a multiple of 8 shifts 0xFF by 0 and clears no bit) |
| StatusTable.RunDecodesToMaximum | src/3rdparty/FlashDB/src/fdb_utils.c:91-171 | after any run of status writes in any order the table decodes to the largest effective status among them |
| StatusTable.IncreasingRunShowsLast | src/3rdparty/FlashDB/src/fdb_utils.c:91-171 | increasing writes, the database's discipline, always decode to the last one |
| StatusTable.BlankDecodes | src/3rdparty/FlashDB/src/fdb_utils.c:126-145 | an erased table decodes to status 0 |
| FlashDevice.ProgramClean | src/3rdparty/FlashDB/src/fdb_utils.c:299-320 | programming erased bytes stores exactly the data |
| FlashDevice.Flash.WriteStatus | src/3rdparty/FlashDB/src/fdb_utils.c:147-171 | one byte of the table is programmed; the table in flash is the advanced one, nothing else changes |
| FlashDevice.Flash.ReadStatus | src/3rdparty/FlashDB/src/fdb_utils.c:173-180 | the status read is what the table in flash decodes to |
| FlashDevice.Flash.ContinueFF | src/3rdparty/FlashDB/src/fdb_utils.c:185-210 | the address returned starts a run of erased bytes that reaches the end and is preceded by a written one; it is the end itself when the last byte is written |
| Crc.TableIsEightSteps | src/3rdparty/FlashDB/src/fdb_utils.c:21-67 | every entry of the table is what eight steps of the division by the polynomial make of its index |
| Crc.CalcCrc32 | src/3rdparty/FlashDB/src/fdb_utils.c:77-90 | the table-driven loop computes the checksum as defined bit by bit |
| Crc.CrcInPieces | src/3rdparty/FlashDB/src/fdb_kvdb.c:371-388 | a record read in pieces of 32 bytes has the checksum of the whole |
| Crc.PiecesCompose | src/3rdparty/FlashDB/src/fdb_utils.c:69-90 | continuing from the checksum of a first piece gives the checksum of the whole |
| Crc.BurstIsDetected | src/3rdparty/FlashDB/src/fdb_kvdb.c:389-399 | any change confined to four consecutive bytes changes the checksum, so a record damaged like that is never read as good |
| Crc.CheckValue | src/3rdparty/FlashDB/src/fdb_utils.c:21-90 | the characters 1 to 9 have the check value of CRC-32, 0xCBF43926 |
| TsdbLayout.StatusByteDecodes | src/3rdparty/FlashDB/src/fdb_utils.c:91-145 | the one-byte tables of the log decode back to the status they were made for |
| TsdbLayout.RegionsDisjoint | src/3rdparty/FlashDB/src/fdb_tsdb.c:302-321 | index entries end before the data begins, data ranges of different entries do not overlap, and all of it lies in the sector |
| TsdbLayout.EntryReadsBack | src/3rdparty/FlashDB/src/fdb_tsdb.c:114-131 | every retained index entry is read back as it was written: status, time and length, and its address and length locate exactly the bytes appended |
| TsdbLayout.LayoutInBytes | src/3rdparty/FlashDB/src/fdb_tsdb.c:80-102 | the layout in numbers: status byte, the letters TSL0 and the start time in the header, for a closed sector the time and address of its last entry; entry j sixteen times j bytes behind the forty of the header with time, length and address in little-endian words, its data in front of that of the entries before it |
| TsdbRing.SectorWalk | src/3rdparty/FlashDB/src/fdb_tsdb.c:133-196 | the two address walks visit each sector once, wrap at the ends, and then stop |
| TsdbRing.BytesHoldAfterWrite | src/3rdparty/FlashDB/src/fdb_tsdb.c:302-382 | rewriting one sector replaces that one sector of the abstract ring |
| TsdbRing.RecordsAfterAppend | src/3rdparty/FlashDB/src/fdb_tsdb.c:384-425 | an entry added to the current sector adds one record at the end of what the ring retains |
| TsdbWrite.WriteTsl | src/3rdparty/FlashDB/src/fdb_tsdb.c:302-321 | the four programs of an entry leave a sector that holds exactly one more entry, land only on erased bytes or advance a status table, and touch nothing else |
| TsdbWrite.CloseSector | src/3rdparty/FlashDB/src/fdb_tsdb.c:328-345 | the header then carries the last time and index and the sector is full; its entries are untouched |
| TsdbWrite.FormatSector | src/3rdparty/FlashDB/src/fdb_tsdb.c:263-279 | the sector is empty, all others are as before |
| TsdbWrite.StartSector | src/3rdparty/FlashDB/src/fdb_tsdb.c:372-379 | an empty sector is in use with its start time saved and still no entry |
| TsdbState.CloseStep | src/3rdparty/FlashDB/src/fdb_tsdb.c:328-345 | closing the current sector keeps the ring invariant and the retained records |
| TsdbState.NextAfterClose | src/3rdparty/FlashDB/src/fdb_tsdb.c:346-366 | the sector behind a closed one is empty until the ring has been filled, and from then on the oldest |
| TsdbState.RotateStep | src/3rdparty/FlashDB/src/fdb_tsdb.c:356-366 | formatting the oldest of n full sectors drops exactly its records from the front of the retained suffix |
| TsdbState.StartStep | src/3rdparty/FlashDB/src/fdb_tsdb.c:372-379 | taking the waiting sector into use keeps the ring invariant |
| TsdbState.AppendStep | src/3rdparty/FlashDB/src/fdb_tsdb.c:384-425 | adding the entry completes an append: the retained records are again a suffix of the longer history, strictly increasing in time |
| TsdbState.AppendRetains | src/3rdparty/FlashDB/src/fdb_tsdb.c:323-382 | an append gives nothing up as long as the newest sector has room for the entry or another one is empty, and otherwise exactly what the oldest sector holds; with room it stays in its sector |
| TsdbState.AppendKeepsFilled | src/3rdparty/FlashDB/src/fdb_tsdb.c:323-382 | records have been given up only from a ring all of whose sectors hold entries, and no sector but the newest has room for a longest entry: an append keeps that |
| TsdbState.LastTimeIsNewest | src/3rdparty/FlashDB/src/fdb_tsdb.c:384-399 | the handle's last time bounds every time of the history and is that of the newest record |
| TsdbState.FreshIsQuiet | src/3rdparty/FlashDB/src/fdb_tsdb.c:797-826 | a formatted flash is a valid state with no records |
| Tsdb.TsDb.constructor | src/3rdparty/FlashDB/src/fdb_tsdb.c:922-1004 | on a flash left by this code the handle describes exactly the state in flash if and only if the walk over the current sector does not take what a failing read leaves in its buffer for an entry; on a flash without the magic word all sectors are formatted |
| Tsdb.TsDb.Load | src/3rdparty/FlashDB/src/fdb_tsdb.c:946-996 | the start-up does not write to a flash that is in order, and reaches a valid handle under that same exact condition |
| Tsdb.TsDb.ReloadCur | src/3rdparty/FlashDB/src/fdb_tsdb.c:980-996 | the current sector's description and the last time are recomputed from flash as the running handle held them, exactly under that condition; otherwise the handle points behind the last entry |
| Tsdb.TsDb.CheckHeaders | src/3rdparty/FlashDB/src/fdb_tsdb.c:770-795 | the header check finds the one sector in use, wherever it is in the ring, or the first empty one, and counts the empty ones |
| Tsdb.TsDb.FormatAll | src/3rdparty/FlashDB/src/fdb_tsdb.c:797-836 | every sector is formatted and the history starts afresh |
| Tsdb.TsDb.Append | src/3rdparty/FlashDB/src/fdb_tsdb.c:441-475 | refused exactly when the blob is too long or the time not later than the last, without any effect; else the record is in the history, and if header, entries so far, sixteen bytes and the blob go into the newest sector, or some sector is empty, nothing is given up and the ring holds one record more at its end; otherwise exactly the entries of the oldest sector go. Flash holds exactly what the ring retains |
| Tsdb.TsDb.TslAppend | src/3rdparty/FlashDB/src/fdb_tsdb.c:384-425 | history and ring become those that closing, rolling over, starting and adding an entry make, and the last time is that of the record |
| Tsdb.AppendAll | src/3rdparty/FlashDB/src/fdb_tsdb.c:384-475 | over any run of appends: the history grows by exactly the records that are short enough and later than the last accepted one, the ring holds a suffix of it, and that is all of it unless every sector holds entries and every one but the newest is filled up to less than a longest entry |
| Tsdb.TsDb.AddEntry | src/3rdparty/FlashDB/src/fdb_tsdb.c:409-424 | the entry is written and the handle's remaining space, end index and end time are again those of the sector in flash |
| Tsdb.TsDb.UpdateSecStatus | src/3rdparty/FlashDB/src/fdb_tsdb.c:323-382 | afterwards a sector is in use and has room for the entry, whichever of closing, rolling over and starting it took |
| Tsdb.TsDb.Roll | src/3rdparty/FlashDB/src/fdb_tsdb.c:328-366 | the current sector is closed and the next one is empty and current |
| Tsdb.TsDb.TakeNextSector | src/3rdparty/FlashDB/src/fdb_tsdb.c:346-366 | the sector behind a closed one becomes current; if it is not empty, exactly its records, the oldest, are given up |
| Tsdb.TsDb.Reuse | src/3rdparty/FlashDB/src/fdb_tsdb.c:350-366 | when the ring is full the oldest sector is given up and becomes the current one |
| Tsdb.TsDb.Iter | src/3rdparty/FlashDB/src/fdb_tsdb.c:482-524 | the callback sees every retained entry once, oldest first across the ring wrap, up to and including the first at which it stops |
| Tsdb.TsDb.IterReverse | src/3rdparty/FlashDB/src/fdb_tsdb.c:532-575 | the callback sees the exact reverse of the forward iteration, up to and including the first at which it stops |
| TsdbQuery.IterationIsLogSuffix | src/3rdparty/FlashDB/src/fdb_tsdb.c:482-524 | a whole forward iteration is the retained suffix of the accepted history: same number, same times, same data, strictly increasing |
| TsdbQuery.WindowHolds | src/3rdparty/FlashDB/src/fdb_tsdb.c:617-695 | a log object is in a query's window if and only if it is in the log and its time lies between the two bounds, both included |
| TsdbQuery.DownIsReverseOfUp | src/3rdparty/FlashDB/src/fdb_tsdb.c:532-575 | a walk down the whole ring passes exactly the reverse of a walk up |
| Tsdb.TsDb.SearchStart | src/3rdparty/FlashDB/src/fdb_tsdb.c:580-615 | the binary search returns the first position not earlier than `from` going up, the last not later going down, including its step to the position behind the last entry |
| Tsdb.TsDb.EmitSector | src/3rdparty/FlashDB/src/fdb_tsdb.c:660-685 | one sector's candidates are handed over up to the first outside the interval |
| Tsdb.TsDb.QueryStop | src/3rdparty/FlashDB/src/fdb_tsdb.c:634-690 | one sector of a query is skipped, searched or ends the query as the specification says |
| Tsdb.TsDb.IterByTime | src/3rdparty/FlashDB/src/fdb_tsdb.c:617-690 | the query equals filtering the whole iteration by the interval for every callback, going up always, and going down if no sector is filled to its last byte: what is visited lies between the bounds, and all that does is visited unless the callback stops |
| TsdbQueryProof.QueryIsWindow | src/3rdparty/FlashDB/src/fdb_tsdb.c:617-690 | skipping sectors, searching and stopping at the first miss equals filtering the whole iteration, in both directions and for every callback |
| TsdbQueryProof.EmitThenRest | src/3rdparty/FlashDB/src/fdb_tsdb.c:660-685 | stopping at the first entry outside the interval loses nothing when times are ordered |
| TsdbQueryProof.CandidatesAreTail | src/3rdparty/FlashDB/src/fdb_tsdb.c:580-615 | the entries a search leaves out are all before the interval and those it keeps are not, save the unused position behind the last entry |
| TsdbQueryExact.DownQueryRightExactly | src/3rdparty/FlashDB/src/fdb_tsdb.c:595-690 | a downward query is right if and only if no sector on its way misleads the search by what is read behind its last entry: data of a sector filled to its last byte that reads as an entry, or what a read past the end of the flash leaves in the buffer |
| Tsdb.TightSectorMisleads | src/3rdparty/FlashDB/src/fdb_tsdb.c:595-598 | two appends that fill a sector to its last byte and a downward query that then hands over something that was never appended |
| Tsdb.TsDb.QueryCount | src/3rdparty/FlashDB/src/fdb_tsdb.c:697-728 | the count is the number of log objects with that status and a time between the bounds, whichever comes first, in the same cases; and in all cases that of those that the query visits |
| Tsdb.CountIsNumber | src/3rdparty/FlashDB/src/fdb_tsdb.c:697-732 | counting while filtering gives the number of the places in the log that qualify |
| Tsdb.TsDb.ReadBlob | src/3rdparty/FlashDB/src/fdb_utils.c:237-251 | the data read for a visited entry is the blob that was appended, as far as the caller's buffer reaches |
| Tsdb.TsDb.ReadTsl | src/3rdparty/FlashDB/src/fdb_tsdb.c:114-131 | an index position is read as what its sixteen bytes stand for, or, if the reading fails, as what the buffer held |
| Tsdb.TsDb.SetStatus | src/3rdparty/FlashDB/src/fdb_tsdb.c:742-753 | the status of this one entry, in flash and as it is read, becomes the larger of the old and the new one; all other entries and sectors, history and handle are as before |
| Tsdb.TsDb.ReadSectorInfo | src/3rdparty/FlashDB/src/fdb_tsdb.c:198-261 | on a well-formed sector the description is the one computed from its contents, or, exactly when the walk takes a failed read for an entry, one that ends behind its last entry |
| Tsdb.TsDb.Traverse | src/3rdparty/FlashDB/src/fdb_tsdb.c:225-257 | walking the index of the sector in use recomputes its end, its data start and its remaining space, or strays behind its last entry; which of the two is decided by the position behind that entry |
| Tsdb.Restart | src/3rdparty/FlashDB/src/fdb_tsdb.c:922-996 | a clean restart is invisible if and only if no failed read passes for an entry: then a fresh handle on the flash of a running one holds the same current sector, oldest sector, last time and history; flash is unchanged either way |
| Tsdb.RestartGoesAstray | src/3rdparty/FlashDB/src/fdb_tsdb.c:114-131 | a run of two appends after which the current sector is the last of the flash and has eight bytes left, and a restart whose failed read finds an old index entry in its buffer: the handle is not the running one's |
| KvdbStore.IndexIsUnique | src/3rdparty/FlashDB/src/fdb_kvdb.c:555-579 | the flash contents determine where every key lives, so the map they stand for is well defined |
| KvdbStore.ScanReachesEveryRecord | src/3rdparty/FlashDB/src/fdb_kvdb.c:276-306 | because of the allocator's slack every record starts where the scan for the next magic word still looks |
| KvdbStore.SpareHasRoom | src/3rdparty/FlashDB/src/fdb_kvdb.c:894-909 | while a sector is collected the spare one holds at most what was moved so far, so by the slack rule the next live record fits |
| KvdbStore.CandidateIs | src/3rdparty/FlashDB/src/fdb_kvdb.c:894-934 | what alloc_kv may choose, in numbers: more than 88 bytes stay free behind the record; while a collection runs only clean sectors, else any but one under collection, and an empty one only if another one stays empty |
| KvdbStore.WritesAppend | src/3rdparty/FlashDB/src/fdb_kvdb.c:1031-1049 | every single write of a record, new or copied, shows the sectors with one more record up to the one that makes it count |
| KvdbPacking.TakesFirstRoom | src/3rdparty/FlashDB/src/fdb_kvdb.c:894-909 | with all sectors in use the sector that the allocator of a collection takes is the one with the first sufficient room in ring order |
| KvdbPacking.OneRoomForAll | src/3rdparty/FlashDB/src/fdb_kvdb.c:1117-1123 | a collection without a spare sector loses nothing as long as one clean sector has room for all that still has to be moved, wherever the records go |
| KvdbPacking.OneLeftIsLostExactly | src/3rdparty/FlashDB/src/fdb_kvdb.c:1117-1123 | the only record of a sector that still needs a place is lost if and only if no clean sector takes it |
| KvdbRoom.SpillIsAtMost | src/3rdparty/FlashDB/src/fdb_kvdb.c:1106-1137 | of the live records of a collected sector at most all go into the spare one |
| KvdbRoom.AllSpill | src/3rdparty/FlashDB/src/fdb_kvdb.c:1106-1137 | all of them do if no other sector has room for any |
| KvdbRoom.SpillsExactlyIfLost | src/3rdparty/FlashDB/src/fdb_kvdb.c:1106-1137 | none does if and only if first-fit packing into the clean sectors in use leaves nothing over |
| KvdbRoom.SpillMovesOn | src/3rdparty/FlashDB/src/fdb_kvdb.c:894-934 | each move of the allocator, sectors in use first and in ring order, keeps what the spare sector will hold in the end |
| KvdbRoom.RoomAfterCollection | src/3rdparty/FlashDB/src/fdb_kvdb.c:1065-1085 | after the collection of a sector with one other empty there is room for a record if and only if it fits an empty sector and, should anything have gone into the spare one, behind that |
| KvdbRoom.LeanHasRoom | src/3rdparty/FlashDB/src/fdb_kvdb.c:911-934 | a store whose clean sectors hold live records only, with less live data than a sector takes beside the new record, has room at once or a dirty sector to collect |
| KvdbRoom.LiveIsBounded | src/3rdparty/FlashDB/src/fdb_kvdb.c:555-579 | the live data in flash are no more than the longest record times the number of keys in the map |
| KvdbTables.ColdStart | src/3rdparty/FlashDB/src/fdb_kvdb.c:1766-1782 | a handle that has never been used starts its scans at sector 0, whatever the flash holds: the zeroed entries of the sector table are taken for sector 0, and stepping on from a sector without size leads there again |
| KvdbTables.WarmStart | src/3rdparty/FlashDB/src/fdb_kvdb.c:1766-1782 | a handle whose sector table is unused, or was left by a use of the same flash, starts where the sectors in use begin behind an empty one in flash |
| KvdbTables.OldestIs | src/3rdparty/FlashDB/src/fdb_kvdb.c:1545-1560 | the start is the last place where a sector in use follows an empty one, or sector 0 if there is none |
| KvdbImage.ReadEndsInSector | src/3rdparty/FlashDB/src/fdb_kvdb.c:257 | the 64 bytes that a lookup reads from a cached record's name on stay inside the sector, whose space behind the last record is erased |
| KvdbImage.PrefixOfRead | src/3rdparty/FlashDB/src/fdb_kvdb.c:256-258 | a key that those bytes start with starts, or is started by, the record's own name and value; every start of name and value that fits is read |
| KvdbImage.ErasedBehindLast | src/3rdparty/FlashDB/src/fdb_kvdb.c:256-258 | for the last record of a sector those bytes are its name and value and then erased flash |
| KvdbImage.ScanFindsExactly | src/3rdparty/FlashDB/src/fdb_kvdb.c:555-571 | the full scan takes a record for the key if and only if the name is the key and has fewer than 64 bytes, although names of 64 bytes are accepted and stored |
| KvdbSteps.SetLeavesTidy | src/3rdparty/FlashDB/src/fdb_kvdb.c:1305-1337 | after a set no record is left half replaced or half written |
| KvdbSteps.SetBehindShadowDoubles | src/3rdparty/FlashDB/src/fdb_kvdb.c:1315-1329 | replacing the record of another name while the key is stored leaves two live records of the key, so that the sectors stand for no map |
| KvdbSteps.NeverShadowed | src/3rdparty/FlashDB/src/fdb_kvdb.c:247-269 | names with distinct CRC halves, or of which none with its value starts the key or is started by it, keep the key from being answered by another's cached record, wherever the records lie and whatever follows them |
| KvdbSteps.FreshFlash | src/3rdparty/FlashDB/src/fdb_kvdb.c:1392-1400 | formatted sectors stand for the empty map |
| KvdbCuts.WriteImage | src/3rdparty/FlashDB/src/fdb_kvdb.c:1223-1262 | every flash state of a record being written in parts shows one more record, which counts only at the end; as long as only its status is written it takes one byte, or the place of a header at the start of a sector |
| KvdbCuts.CutImage | src/3rdparty/FlashDB/src/fdb_kvdb.c:1002-1063 | every flash state of a record being replaced, by a set or by its own copy in pieces of 32 bytes: until the last but one the old record is only marked and the new one does not count, and then the new one counts; nothing else differs |
| KvdbCuts.AddImage | src/3rdparty/FlashDB/src/fdb_kvdb.c:1223-1262 | every flash state while a new key is written holds the map before, and the last one the map with the key |
| KvdbCuts.DeleteImage | src/3rdparty/FlashDB/src/fdb_kvdb.c:961-988 | from the first flash write of a delete on the flash holds the map without the key |
| KvdbSweep.SweepMoves | src/3rdparty/FlashDB/src/fdb_kvdb.c:1106-1137 | moving one record, or deleting one that has been replaced, keeps the map and what the spare sector has taken within what the records passed needed |
| KvdbSweep.SweepFails | src/3rdparty/FlashDB/src/fdb_kvdb.c:1027-1029 | a record for which there is no room is given up and nothing else: the map loses its name, unless the record that replaces it is there |
| KvdbSweep.TightMoves | src/3rdparty/FlashDB/src/fdb_kvdb.c:1106-1137 | without an empty sector, moving a record leaves to be lost what first-fit packing of the rest into the rooms so reduced leaves over |
| KvdbSweep.MoveHolds | src/3rdparty/FlashDB/src/fdb_kvdb.c:1031-1049 | whenever power goes while a live record is moved, the flash holds the same map |
| Kvdb.Db.constructor | src/3rdparty/FlashDB/src/fdb_kvdb.c:1739-1800 | the oldest sector is looked for through the sector table as the handle has it, which decides with the flash where the scans start; then both tables are emptied, and flash and map are those of the image |
| Kvdb.Db.FindOldest | src/3rdparty/FlashDB/src/fdb_kvdb.c:1545-1560 | the search from sector to sector ends with the start that table and flash give: sector 0 if a zeroed entry answers for it, and else the last sector in use behind an empty one as table and flash show them |
| Kvdb.Db.UpdateKvCache | src/3rdparty/FlashDB/src/fdb_kvdb.c:203-242 | the entry of this CRC is replaced or removed, or a new one takes the first inactive or else the least active entry; entries passed over age by one; no CRC occurs twice among active entries, and a stored address is found from then on |
| Kvdb.Db.GetKvFromCache | src/3rdparty/FlashDB/src/fdb_kvdb.c:247-269 | a hit is an active entry with the key's CRC where the flash read from the record's name on starts with the key, and raises the activity of that entry; a miss means that there is none and changes nothing |
| Kvdb.Db.UpdateSectorCache | src/3rdparty/FlashDB/src/fdb_kvdb.c:147-168 | the description is in the table afterwards exactly if the sector had a slot or one was unused; every other slot stays, and the table keeps one slot per sector and goes on mirroring the flash |
| Kvdb.Db.ReadSectorInfo | src/3rdparty/FlashDB/src/fdb_kvdb.c:412-498 | whether from the table or from flash, the description is the true one, and a traversal knows the free space |
| Kvdb.Db.CountStores | src/3rdparty/FlashDB/src/fdb_kvdb.c:881-892 | the statistics count the empty sectors of the ring wherever the round starts |
| Kvdb.Db.FirstFit | src/3rdparty/FlashDB/src/fdb_kvdb.c:894-909 | the first sector in ring order with room and slack, or none exists |
| Kvdb.Db.AllocKv | src/3rdparty/FlashDB/src/fdb_kvdb.c:911-934 | a sector is returned if and only if one that may be chosen has room for the record and 88 bytes more; one in use before an empty one, and of its kind the first in ring order; the last empty one is only used by a running collection, otherwise a collection is requested |
| Kvdb.Db.DelKv | src/3rdparty/FlashDB/src/fdb_kvdb.c:936-997 | the record gets its new status, its sector is marked dirty, and the cache keeps no pointer to a dead record, except to one in the middle of a replacement |
| Kvdb.Db.MarkDirty | src/3rdparty/FlashDB/src/fdb_kvdb.c:978-994 | a clean sector is marked dirty in flash and in the table, any other is left alone |
| Kvdb.Db.UpdateSecStatus | src/3rdparty/FlashDB/src/fdb_kvdb.c:825-857 | an empty sector is taken into use; by the slack rule a sector in use never becomes full here |
| Kvdb.Db.WriteCopy | src/3rdparty/FlashDB/src/fdb_kvdb.c:1037-1049 | a copied record reaches the flash behind its status in pieces of 32 bytes, the last of which completes it |
| Kvdb.Db.ProgramRecord | src/3rdparty/FlashDB/src/fdb_kvdb.c:1223-1262 | the writes happen in the order status, parts (header, name and value of a new record, or the pieces of a copy), final status, and come to appending the record |
| Kvdb.Db.WriteRecord | src/3rdparty/FlashDB/src/fdb_kvdb.c:1194-1275 | one more live record in flash, and both tables agree with it afterwards |
| Kvdb.Db.FindKvNoCache | src/3rdparty/FlashDB/src/fdb_kvdb.c:524-579 | the full scan finds the one live record of the key, or there is none |
| Kvdb.Db.FindKv | src/3rdparty/FlashDB/src/fdb_kvdb.c:581-603 | the cached lookup returns what the full scan returns if and only if no cached record of another name answers for the key; otherwise it returns the live record of that other name, which has the same CRC half; the tables stay consistent |
| Kvdb.Db.GetKv | src/3rdparty/FlashDB/src/fdb_kvdb.c:618-640 | as much as the caller has room for of the stored value, and its full length; nothing for a missing key; the value is that of another name exactly when a cached record of that name answers for the key |
| Kvdb.Db.MoveKv | src/3rdparty/FlashDB/src/fdb_kvdb.c:1002-1063 | a move succeeds if and only if some sector is a candidate for the record, and takes the first of its kind; then the map is unchanged, except that a marked record lives again unless it has been replaced; otherwise the record stays marked and its name leaves the map. The flash writes of a moved live record are the listed ones |
| Kvdb.Db.CopyRecord | src/3rdparty/FlashDB/src/fdb_kvdb.c:1031-1063 | the copy is written and the original deleted; the map has the record's value for its name; the flash writes are the listed ones |
| Kvdb.Db.CollectInUse | src/3rdparty/FlashDB/src/fdb_kvdb.c:1117-1123 | a record in use or half replaced is moved, or given up exactly if there is no room; the share of the spare sector stays what it will be in the end |
| Kvdb.Db.FormatSector | src/3rdparty/FlashDB/src/fdb_kvdb.c:765-823 | erasing a sector without live records does not change the map |
| Kvdb.Db.CollectRecord | src/3rdparty/FlashDB/src/fdb_kvdb.c:1117-1123 | one step of a collection: the record is passed, moved, or given up exactly if there is no room; the map, the share of the spare sector and what packing leaves over are kept track of, and every flash state holds the map |
| Kvdb.Db.DoGc | src/3rdparty/FlashDB/src/fdb_kvdb.c:1106-1137 | collecting a dirty sector, also one whose collection was cut and with a marked record in it, leaves it empty; with an empty sector nothing is lost, and without one exactly what first-fit packing of its records into the free space of the clean sectors leaves over; every flash state on the way holds the map |
| Kvdb.Db.GcCollect | src/3rdparty/FlashDB/src/fdb_kvdb.c:1139-1160 | with several empty sectors nothing happens; else dirty sectors are collected in ring order until enough is free or none is left, so that for a record no longer than a sector it is exactly the first dirty one, with what that makes of the sectors; only the first can lose records, exactly as DoGc says; every flash state on the way holds the map |
| Kvdb.Db.NewKv | src/3rdparty/FlashDB/src/fdb_kvdb.c:1065-1085 | the map is unchanged, in every flash state. With room somewhere the first choice is returned and nothing collected; without, and with one sector empty, the first dirty sector is collected, and room is found if and only if the record fits an empty sector and what spilled over leaves room for it; with nothing to collect none is found |
| Kvdb.Db.CreateKv | src/3rdparty/FlashDB/src/fdb_kvdb.c:1194-1275 | with the room found beforehand the new record is written, or a name of more than 64 bytes is refused without effect; the error for size cannot occur |
| Kvdb.Db.Replace | src/3rdparty/FlashDB/src/fdb_kvdb.c:1315-1329 | marking, writing and deleting replace the record of the key if and only if no cached record of another name answers for it, and else that other one: then the map has the key set and the other name gone if the key was not stored, and if it was, the sectors stand for no map |
| Kvdb.Db.SetKv | src/3rdparty/FlashDB/src/fdb_kvdb.c:1305-1337 | the map gets the key set, less a name whose record answered for it, or a name of more than 64 bytes is refused, or there is no room and the map is unchanged. It reports that only if no sector has room for the record and 88 bytes, the last empty one left alone, and nothing can be collected, or after collecting the first dirty sector: without a live record in it exactly if the record does not fit a sector, and never if its live records leave room in one. The right record is replaced exactly if none of another name answers; a stored key for which one does becomes double. Every flash state on the way holds the map before or after |
| Kvdb.Db.DeleteKv | src/3rdparty/FlashDB/src/fdb_kvdb.c:1285-1303 | a delete removes exactly the key if and only if no cached record of another name answers for it, and else that other name; it reports whether something was there; from its first flash write on the flash holds the new map |
| Kvdb.Run | src/3rdparty/FlashDB/src/fdb_kvdb.c:1285-1337 | every run of sets and deletes without faults refines a map, for names of which none with the same CRC half starts another; every flash state in its course holds the map after some of the operations; and if a sector takes one record more than there are names, all as long as the longest, no set of any run reports that the store is full, given that it starts with live records only in its clean sectors |
| KvdbShadow.AnswersForAnother | src/3rdparty/FlashDB/src/fdb_kvdb.c:247-269 | from fresh flash: after a set of one name every other key with its CRC half that its name, value and the erased bytes behind them start with is answered with its value, and deleting that key removes it |
| KvdbShadow.RunNeedsApart | src/3rdparty/FlashDB/src/fdb_kvdb.c:1285-1337 | the condition of the refinement is needed: for any two names with equal CRC halves of which one starts the other, setting the longer and deleting the shorter leaves an empty store |
| KvdbShadow.SetDoubles | src/3rdparty/FlashDB/src/fdb_kvdb.c:1315-1329 | from fresh flash: for any two names with equal CRC halves of which one starts the other, setting the short one (to a value with which it is not taken for the long one), the long one and the short one again leaves sectors that stand for no map |
| KvdbShadow.CashHashesAsC | src/3rdparty/FlashDB/src/fdb_kvdb.c:206 | there are such names: the CRC-32 values of c and cash have the same upper half |
| KvdbShadow.CashAnswersForC | src/3rdparty/FlashDB/src/fdb_kvdb.c:247-269 | after a set of cash on fresh flash a lookup of c returns its value and a delete of c removes it |
| KvdbShadow.BdujHashesAsB | src/3rdparty/FlashDB/src/fdb_kvdb.c:206 | b and the five bytes b, d, u, j, 0xFF also have CRC-32 values with the same upper half |
| KvdbShadow.BAnswersForBduj | src/3rdparty/FlashDB/src/fdb_kvdb.c:256-258 | the erased byte behind a record counts: with the value duj stored under b that longer key is answered with it |
| Kvdb.Db.CheckAndRecoverKv | src/3rdparty/FlashDB/src/fdb_kvdb.c:1594-1621 | a record cut in its replacement is moved, or ends the scan exactly if there is no room for it; a visible unfinished record ends the scan; live records enter the cache |
| Kvdb.Db.ResumeGc | src/3rdparty/FlashDB/src/fdb_kvdb.c:1580-1592 | a cut collection is resumed if and only if at most one sector is empty, and then all dirty sectors are collected; what is lost is what DoGc says of the first of them |
| Kvdb.Db.IterateKv | src/3rdparty/FlashDB/src/fdb_kvdb.c:1651-1653 | one scan moves the marked record, unless it comes to the unfinished one first or finds no room; each of the three outcomes has its exact condition |
| Kvdb.Db.LoadRound | src/3rdparty/FlashDB/src/fdb_kvdb.c:1651-1657 | a round that finds no room collects and asks for another one; it ends for good exactly with one of the other outcomes |
| Kvdb.Db.Load | src/3rdparty/FlashDB/src/fdb_kvdb.c:1629-1665 | on every flash that a cut can leave: the start comes to its end with the map, less what a resumed collection loses; or, if and only if no collection is resumed and the scan comes to the unfinished record before the marked one, with the key still marked; or it does not end, because all sectors are clean and there is no room for the marked record, where every round leaves the flash as it was |
| KvdbRecovery.StartUp | src/3rdparty/FlashDB/src/fdb_kvdb.c:1739-1800 | a start with any tables left in the handle on any flash that a cut can leave, with the outcomes of Load over the sector where table and flash let the scan start |
| KvdbRecovery.StartUpTwice | src/3rdparty/FlashDB/src/fdb_kvdb.c:1739-1800 | two starts put every such flash in order, whatever the tables and the order of the records, unless the first one gets stuck |
| KvdbRecovery.CutAndRestart | src/3rdparty/FlashDB/src/fdb_kvdb.c:1594-1662 | a cut after any flash write of a replacing set, and a start with any tables: old value before the last but one write, new value from there on, other keys unchanged, if and only if a collection is resumed or the scan does not come to the unfinished new record first; else the key is missing. The start may fail to end only behind the very first write, and with all sectors clean it ends if and only if there is room for the old record |
| KvdbRecovery.ColdOrder | src/3rdparty/FlashDB/src/fdb_kvdb.c:1613-1618 | for a handle that has never been used the scan comes to the unfinished new record first if and only if it is in an earlier sector than the old one |
| KvdbRecovery.ShorterValueComesFirst | src/3rdparty/FlashDB/src/fdb_kvdb.c:1613-1618 | a concrete store in which the shorter new value goes to an earlier sector, so that the order is the wrong one |
| KvdbRecovery.ColdStartComesFirst | src/3rdparty/FlashDB/src/fdb_kvdb.c:1766-1782 | a concrete store in which the scan would come to the old record first from the sector that the flash shows as the oldest, and comes to the new one first from sector 0, where it starts |
| KvdbRecovery.LongValueIsStuck | src/3rdparty/FlashDB/src/fdb_kvdb.c:1651-1657 | a concrete store for which a start never ends: a long value in the only sector in use was about to be replaced by a short one |
| KvdbRecovery.RestartAfterCut | src/3rdparty/FlashDB/src/fdb_kvdb.c:1629-1665 | whatever write of whatever operation was the last one, two starts give the map back, less exactly what first-fit packing leaves over of the first dirty sector if no sector is empty, unless they get stuck |
| KvdbRecovery.RestartOfRun | src/3rdparty/FlashDB/src/fdb_kvdb.c:1629-1665 | a run cut at any flash write and started again holds the map after some of its operations, less what has been lost; nothing is lost if a sector is empty |
| KvdbRecovery.CutCopyAndRestart | src/3rdparty/FlashDB/src/fdb_kvdb.c:1106-1137 | a collection of a sector with one record into the only other sector, cut after any of its flash writes and resumed: the key is kept if and only if the copy counts already or has not been begun, or the record fits beside the place of a header, up to the status byte, or beside its own length, from the first piece on |
| KvdbRecovery.SecondOfTwoIsLostExactly | src/3rdparty/FlashDB/src/fdb_kvdb.c:1106-1137 | of two records of which the first has been moved, the second is lost if and only if the first, the cut copy and another copy do not go together into the spare sector |
| KvdbRecovery.CollectingTheMarked | src/3rdparty/FlashDB/src/fdb_kvdb.c:1117-1123 | a store used after one restart with its old record still marked: a collection brings the old value back if and only if the key has not been set anew, and otherwise gives the key two live records |
| RttRing.StoredAppends | src/3rdparty/SEGGER_RTT_V752d/RTT/SEGGER_RTT.c:433-486 | storing into the free space appends to the bytes waiting |
| RttRing.AdvanceDrops | src/3rdparty/SEGGER_RTT_V752d/RTT/SEGGER_RTT.c:570-643 | moving the read offset on drops the oldest bytes |
| RttRing.Ring.GetAvailWriteSpace | src/3rdparty/SEGGER_RTT_V752d/RTT/SEGGER_RTT.c:523-539 | the free space is the buffer size less one less what is waiting, in both positions of the offsets |
| RttRing.Ring.WriteNoCheck | src/3rdparty/SEGGER_RTT_V752d/RTT/SEGGER_RTT.c:433-486 | fitting data is appended, across the wrap if need be |
| RttRing.Ring.WriteBlocking | src/3rdparty/SEGGER_RTT_V752d/RTT/SEGGER_RTT.c:371-413 | with the host reading any amounts between the rounds, what it gets and what is left are the old contents and the data in order; the writer gets done exactly if the host makes room enough, otherwise it waits with a full ring |
| RttRing.Ring.WriteNoLock | src/3rdparty/SEGGER_RTT_V752d/RTT/SEGGER_RTT.c:1096-1145 | skip mode appends all or nothing, trim mode the longest prefix that fits, blocking mode all as soon as the host makes room |
| RttRing.Ring.WriteSkipNoLock | src/3rdparty/SEGGER_RTT_V752d/RTT/SEGGER_RTT.c:931-990 | the same buffer, offsets and success as skip mode |
| RttRing.Ring.ReadNoLock | src/3rdparty/SEGGER_RTT_V752d/RTT/SEGGER_RTT.c:662-732 | a read removes and returns the first min(n, waiting) bytes, also where the unsigned difference of the offsets wraps |
| RttRing.Ring.WriteWithOverwrite | src/3rdparty/SEGGER_RTT_V752d/RTT/SEGGER_RTT.c:830-901 | the ring holds the last size-1 bytes of old contents and data if and only if the write does not come round to the end of the buffer but one a second time, or the ring looks full afterwards and all those bytes but the ones the write offset has passed last are equal to the byte left from the first round; after q such rounds the buffer is given byte by byte and the ring seems to hold (q - 1) mod size bytes, none at all after the first |
| RttRing.SevenIntoFour | src/3rdparty/SEGGER_RTT_V752d/RTT/SEGGER_RTT.c:857-901 | seven bytes written over an empty ring of four leave it empty |
| RttRing.OverwriteResult | src/3rdparty/SEGGER_RTT_V752d/RTT/SEGGER_RTT.c:835-901 | that condition on the values: offsets and buffer after the write against the bytes that should be waiting |
| RttRing.FullAfterLaps | src/3rdparty/SEGGER_RTT_V752d/RTT/SEGGER_RTT.c:857-901 | a ring that looks full after several rounds holds, behind the write offset, the end of the last full round, then one byte of the first round, then the newest bytes |
| RttRing.Ring.PostTerminalSwitch | src/3rdparty/SEGGER_RTT_V752d/RTT/SEGGER_RTT.c:501-507 | two bytes, the escape and the terminal's digit, are appended, or a part of them where the writer comes to wait |
| RttRing.Ring.TerminalOut | src/3rdparty/SEGGER_RTT_V752d/RTT/SEGGER_RTT.c:1960-2033 | in skip and trim mode switch, text and switch back are appended together or not at all, the text trimmed to fit, and no call waits; in blocking mode they are handed over in order as far as the host makes room |
| RttConcurrent.NoUnreadByteOverwritten | src/3rdparty/SEGGER_RTT_V752d/RTT/SEGGER_RTT.c:371-413 | the byte stored next goes to an offset that no unread byte occupies |
| RttConcurrent.TakesTheNextByte | src/3rdparty/SEGGER_RTT_V752d/RTT/SEGGER_RTT.c:570-643 | what the host takes next is the next byte of the stream |
| RttConcurrent.StepKeeps | src/3rdparty/SEGGER_RTT_V752d/RTT/SEGGER_RTT.c:371-413 | every step of either side keeps the invariant |
| RttConcurrent.RunKeeps | src/3rdparty/SEGGER_RTT_V752d/RTT/SEGGER_RTT.c:371-643 | so does every interleaving |
| RttConcurrent.EveryRunIsFaithful | src/3rdparty/SEGGER_RTT_V752d/RTT/SEGGER_RTT.c:371-643 | in every interleaving the host has received a prefix of what was written, at most size-1 bytes are pending, and nothing is missing once both sides rest with equal offsets |
| RttConcurrent.EmptyRingMeansProgress | src/3rdparty/SEGGER_RTT_V752d/RTT/SEGGER_RTT.c:378-395 | a sample of an emptied ring yields a chunk while data is left, so a reading host unblocks the writer |
| VsnprintfSpec.TickedLength | src/components/libc/vsnprintf.c:81-96 | digits and ticks together have the length the code computes in advance |
| VsnprintfSpec.TicksAreEverySkip | src/components/libc/vsnprintf.c:135-157 | ticks separate groups of exactly three digits, four in hexadecimal, counted from the right |
| VsnprintfSpec.DigitsParseBack | src/components/libc/vsnprintf.c:141-157 | ticks aside, the digits parse back to the value for every precision |
| VsnprintfSpec.IntTextLength | src/components/libc/vsnprintf.c:94-165 | an integer conversion has length max(width, sign + prefix + digits + ticks) |
| VsnprintfSpec.NumberParsesBack | src/components/libc/vsnprintf.c:58-157 | the digits of a conversion parse back to the magnitude and are as many as precision and # ask for |
| VsnprintfSpec.ZeroWithPrecisionZero | src/components/libc/vsnprintf.c:81-85 | zero with precision 0 prints one 0, unlike section 7.19.6.1 of ISO/IEC 9899:1999 |
| VsnprintfSpec.SignedArgumentIsPrinted | src/components/libc/vsnprintf.c:310-340 | a signed argument in the range of its rank is printed with its own sign and magnitude, the smallest value included |
| VsnprintfSpec.NegativeLengthRunsAway | src/components/libc/vsnprintf.c:424-427 | from a negative length the counter of the copy loop is never zero, and every index is read, the one behind the argument's end and all further ones included |
| VsnprintfSpec.CopyIsSafeExactly | src/components/libc/vsnprintf.c:424-427 | the copy loop stops if and only if the length is not negative, and reads nothing but the argument if and only if the length is moreover not more than the argument has |
| VsnprintfSpec.SafeExactlyIfBounded | src/components/libc/vsnprintf.c:406-427 | in the whole run over a format every copy loop stops and stays inside its argument if and only if no string or character conversion is reached with a precision below -1 |
| VsnprintfSpec.StarsWithoutDigitsAreBounded | src/components/libc/vsnprintf.c:251-262 | without a digit right behind a star no conversion of a string is reached with a precision below -1 |
| VsnprintfSpec.StarDigitRunsAway | src/components/libc/vsnprintf.c:251-262 | a digit behind a negative star precision makes it -5: for every text the copy loop then does not stop |
| VsnprintfReadBack.IntTextReadsBack | src/components/libc/vsnprintf.c:44-166 | read as white space, sign, 0x and digits, the text of every integer conversion is the integer, whatever flags, width and precision |
| VsnprintfFormat.DirectiveRuns | src/components/libc/vsnprintf.c:192-478 | a directive of flags, width, precision, length modifiers and conversion prints what it means and takes the arguments it names, whatever follows |
| VsnprintfFormat.OutputIsDenotation | src/components/libc/vsnprintf.c:192-478 | the character state machine prints the meaning of the pieces of a format, one after the other |
| VsnprintfDirective.FlagsSet | src/components/libc/vsnprintf.c:201-230 | each of the six flag characters sets its own flag, in any order and any number |
| VsnprintfDirective.ModifierSizes | src/components/libc/vsnprintf.c:265-297 | hh takes 8 bits of the argument, h 16, none, l, z and t 32, and ll, j, L and q 64 |
| VsnprintfDirective.DecimalReads | src/components/libc/vsnprintf.c:233-262 | the digits of a width or a precision are decimal |
| VsnprintfDirective.OneDirective | src/components/libc/vsnprintf.c:192-478 | a format of one directive prints what its conversion makes of its flags, width, precision and argument |
| VsnprintfDirective.IntegerReadsBack | src/components/libc/vsnprintf.c:299-404 | the output of d and i read in base 10 is the signed argument of its size, that of u in base 10, of o in base 8 and of x, X, p and P in base 16 the unsigned one, whatever flags, width and precision |
| VsnprintfDirective.LettersAreCased | src/components/libc/vsnprintf.c:50-56 | x and p print no upper-case letter, X and P no lower-case one, and the other integer conversions no letter at all |
| VsnprintfDirective.TextIsPrinted | src/components/libc/vsnprintf.c:406-474 | without a width, s prints its string and c its character, up to the precision; n prints nothing and any other conversion its own letter |
| VsnprintfDirective.PaddingStands | src/components/libc/vsnprintf.c:112-165 | a field is padded with blanks behind the text for a minus flag or a negative star width, else with zeros behind sign and 0x for a zero flag, in front of a string, and else with blanks in front, up to the width |
| VsnprintfDirective.SignStands | src/components/libc/vsnprintf.c:120-133 | a minus stands exactly in front of negative values, else a plus if asked for, else a blank if asked for, else neither; then 0x or 0X in the case of the conversion |
| VsnprintfDirective.DigitsStand | src/components/libc/vsnprintf.c:67-86 | ticks aside, the digits are as many as the precision asks for and otherwise no more than the value needs, at least one, and one more for # in octal |
| VsnprintfDirective.TicksStand | src/components/libc/vsnprintf.c:88-157 | ticks separate groups of three digits, in hexadecimal of four, counted from the right, exactly if the flag is set |
| VsnprintfDirective.ArgumentsTaken | src/components/libc/vsnprintf.c:236-474 | a directive takes one argument for every star and one for its conversion, unless that is none |
| Vsnprintf.Emit | src/components/libc/vsnprintf.c:42 | a character is stored only below the bound and always counted |
| Vsnprintf.CountDigits | src/components/libc/vsnprintf.c:67-72 | the number of digits, zero for zero |
| Vsnprintf.Measure | src/components/libc/vsnprintf.c:58-104 | magnitude, number of digits and number of characters before anything is written |
| Vsnprintf.PutNumber | src/components/libc/vsnprintf.c:135-157 | digits generated from the right land in their places, each stored only below the bound |
| Vsnprintf.FormatInt | src/components/libc/vsnprintf.c:44-166 | the first n characters of the unbounded conversion are stored and nothing else is touched; the result is the unbounded length |
| Vsnprintf.PutString | src/components/libc/vsnprintf.c:406-435 | precision cuts, width pads, on the left with zeros for 0 or on the right for - |
| Vsnprintf.Convert | src/components/libc/vsnprintf.c:298-476 | each conversion prints what the specification says, of which VsnprintfDirective states the meaning, and takes its argument |
| Vsnprintf.Vsnprintf | src/components/libc/vsnprintf.c:168-488 | whenever all copy loops are safe, the first min(n-1, length) characters of the unbounded output and a NUL are stored when n > 0, nothing beyond is touched, the result is the unbounded length, and the loop ends |
| ApbusCodec.ChecksumLRC | src/components/apbus/apbus_backend_uart.c:145-152 | the 16-bit number that brings the sum of the bytes to a multiple of 2^16 |
| ApbusCodec.MakeMsg | src/components/apbus/apbus_backend_uart.c:163-186 | the buffer holds the frame, BC CB first, its words little-endian, and the trailer bringing the sum of all behind BC CB to a multiple of 2^16; nothing behind it is touched |
| ApbusCodec.CheckIntegrity | src/components/apbus/apbus_backend_uart.c:197-229 | broken exactly if the magic pair is missing or the size does not fit the announced length; accepted exactly if otherwise the sum of what is covered and the trailer as a word is a multiple of 2^16, and then the fields are those bytes |
| ApbusCodec.FrameTransmits | src/components/apbus/apbus_backend_uart.c:163-186 | every made frame has that form and that sum |
| ApbusCodec.TrailerCancels | src/components/apbus/apbus_backend_uart.c:145-152 | a trailer brings the sum to a multiple of 2^16 if and only if it is the checksum |
| ApbusCodec.CheckIsASum | src/components/apbus/apbus_backend_uart.c:197-216 | so the verdict is decided by that sum alone |
| ApbusCodec.CheckInvertsMake | src/components/apbus/apbus_backend_uart.c:163-229 | a made frame is accepted and gives back the message |
| ApbusCodec.AnyByteChangeIsDetected | src/components/apbus/apbus_backend_uart.c:197-229 | changing any single byte of a made frame, the length bytes included, makes the integrity check fail |
| ApbusCodec.LengthChangeIsDetected | src/components/apbus/apbus_backend_uart.c:203-212 | so does a change of a length byte, which moves the end of what the checksum covers |
| ApbusReader.FirstPair | src/components/apbus/apbus_backend_uart.c:79-110 | the position returned is that of the first magic pair |
| ApbusReader.Reader.Hunt | src/components/apbus/apbus_backend_uart.c:82-107 | one byte while hunting keeps the reader in step with the first magic pair of the stream, also for BC BC CB |
| ApbusReader.Reader.Fill | src/components/apbus/apbus_backend_uart.c:115-118 | a chunk of the frame is taken from the queue and appended, never past the frame's end |
| ApbusReader.Reader.Poll | src/components/apbus/apbus_backend_uart.c:72-136 | between two schedulings the reader yields with the queue empty, or finishes with exactly the frame, or with something that the integrity check rejects: that only when its time is up, or when it is not to wait, the queue is empty and nothing that can begin a frame has arrived; in that case it does not yield |
| ApbusReader.PartialIsBroken | src/components/apbus/apbus_backend_uart.c:203-212 | a partial frame that timed out is always rejected as broken, even where its length is read from an older frame |
| ApbusStream.ReadFrame | src/components/apbus/apbus_backend_uart.c:62-136 | for every chunking of the stream the caller gets its first frame and the rest of the stream is still there |
| ApbusStream.ReadFrames | src/components/apbus/apbus_backend_uart.c:62-136 | reading n times recovers the first n frames of the stream |
| ApbusStream.NoisyFramesAreRecovered | src/components/apbus/apbus_backend_uart.c:79-123 | frames separated by noise without the magic pair are all recovered, in order |
| ApbusStream.NeverPastTheFrame | src/components/apbus/apbus_backend_uart.c:115-121 | the reader never takes a byte past the frame |
| Nboot.SavedReadsBack | src/components/nboot/nboot.c:141-185 | a saved record reads back as it was set; its bytes are the magic CE 9A 38 A5, the state, three bytes as they were and the little-endian size, and the page behind it is as it was |
| Nboot.TornReadsAs | src/components/nboot/nboot.c:160-185 | what a save cut after k bytes reads as: nothing before the fourth byte, an undefined state after four, the new state from the fifth on |
| Nboot.TornReadsOkExactly | src/components/nboot/nboot.c:187-210 | a torn save reads as a finished download if and only if it was one and at least five bytes were written, so the torn record of an invalid state never does |
| Nboot.TornMarkHasWrongSize | src/components/nboot/nboot.c:187-245 | the torn mark of a download reads with a size of all ones when the cut is before the size |
| Nboot.Board.EraseSlot | src/components/nboot/nboot.c:67-71 | the slot is erased for whole chunks, or the power went; behind them it is untouched |
| Nboot.Board.Copy | src/components/nboot/nboot.c:73-87 | the slot holds the staged image in whole chunks, or the power went; behind them it is untouched |
| Nboot.Board.Save | src/components/nboot/nboot.c:155-185 | the page is the old one, erased, torn at the byte where power went, or complete |
| Nboot.Board.SetDown | src/components/nboot/nboot.c:212-245 | a completed call reads back and keeps the page behind the record, and nothing is written if the record is there already; a cut one reads as before, as the new state, as nothing or as undefined |
| Nboot.Board.BootApp | src/components/nboot/nboot.c:48-101 | wherever power goes the board stays safe, and the application is started only when slot A holds the full staged image, copied in chunks of 128 bytes with the rest of slot and page untouched and the mark cleared |
| Nboot.PowerCycles | src/components/nboot/nboot.c:48-101 | any number of boots with any supplies: each start of the application finds the full image, later boots start it again without touching flash, and a boot with enough power always gets there |
| Nboot.MarkDownloaded | src/components/nboot/nboot.c:212-245 | once the mark of a download is complete the board is safe |
| Scheduler.NextIndexCycles | src/app_scheduler.c:33-36 | the 8-bit index goes round min(queue_size, 255) + 1 slots |
| Scheduler.FirstComeFirstIn | src/app_scheduler.c:81-131 | however puts interrupt each other, those events get in line that come first among the fitting ones, as many as there is room for, in the order in which they come |
| Scheduler.NoneRefused | src/app_scheduler.c:81-181 | through whole turns of the main loop all fitting events get in line, in their order, as long as the queue has room for all that a round brings |
| Scheduler.Queue.IsFull | src/app_scheduler.c:39-46 | full means that min(queue_size, 255) events are in line |
| Scheduler.Queue.Reserve | src/app_scheduler.c:81-99 | a put is refused exactly for an oversized event or with min(queue_size, 255) events in line; otherwise it reserves the next slot |
| Scheduler.Queue.SlotIsOwn | src/app_scheduler.c:91-112 | no put in progress, nested ones included, shares its slot with another event or with the one being handled |
| Scheduler.Queue.WriteHandler | src/app_scheduler.c:105-105 | a write outside the critical section keeps the invariant whatever was interrupted |
| Scheduler.Queue.WriteData | src/app_scheduler.c:106-110 | likewise for the data |
| Scheduler.Queue.WriteSize | src/app_scheduler.c:111-116 | likewise for the size, which completes the put |
| Scheduler.Queue.FillSlot | src/app_scheduler.c:103-117 | the three writes, with puts interrupting before each and those interrupted in turn, complete the put and leave the others in progress as they were |
| Scheduler.Queue.EventPut | src/app_scheduler.c:81-131 | with any finite tree of interrupting puts between its writes: refused exactly for an oversized event or with min(queue_size, 255) events in line before it; an accepted event is next in line, and the line afterwards is the specified one |
| Scheduler.Queue.PutAll | src/app_scheduler.c:81-131 | any sequence of puts with the puts that interrupt them gives the line in which each event stands in the order of reservation, accepted or refused by the room there was |
| Scheduler.Queue.PutAny | src/app_scheduler.c:81-131 | of any puts, nested or not, the queue takes the first fitting ones until it holds min(queue_size, 255) events, and no more |
| Scheduler.Queue.TakeNext | src/app_scheduler.c:156-157 | from the update of the index on the slot is protected as that of the running event |
| Scheduler.Queue.EventGet | src/app_scheduler.c:142-167 | with puts interrupting before the update of the index and before each header read: the event handed out is the next in reservation order with its own handler, size and data |
| Scheduler.Queue.RunningHeaderIsStable | src/app_scheduler.c:156-161 | the header of the event being fetched is complete and not overwritten by anything put meanwhile |
| Scheduler.Queue.RunningDataIsStable | src/app_scheduler.c:152-163 | the running handler's data slot is not overwritten by anything put meanwhile |
| Scheduler.Queue.Execute | src/app_scheduler.c:170-181 | with interrupting puts everywhere and puts by the handlers, every event in line is handled exactly once, in order, by its own handler with its own data, and none is left; the line grows by what the turns that handle an event bring, and the first turn left over would bring nothing |
| Scheduler.Queue.MainLoop | src/app_scheduler.c:81-181 | over any number of calls and whatever is put between and during them, the calls of handlers are exactly the accepted events in the order of reservation, with no data for a null pointer; and they are all fitting events that were put, if no round brings more than min(queue_size, 255) of them |
| Memmem.ShiftIsSafe | src/components/libc/memmem.c:25-42 | no shift of one or two skips an occurrence |
| Memmem.Search | src/components/libc/memmem.c:14-52 | the leftmost occurrence of a non-empty needle, and NULL exactly when there is none |

## Left out

- Tsdb.TsDb.constructor: only a flash that this code left in order, or one without the magic word in its first sector; recovery of the log after a power cut is not modelled, because a damaged header makes the code format everything and a torn entry is read with time 0. The last time starts at 0 as in a handle that has never been used; the code leaves it alone on a formatted flash without entries.
- Tsdb.TsDb.Append: times are positive 32-bit values; rollover is on, and header, one index entry and the longest blob fit into a sector (the code itself only asserts that the blob is shorter than a sector).
- Kvdb.Db.Load: sector headers are good; power that goes between erasing a sector and writing its header, or within one flash write, is not modelled. That the first place of a sector in use without a length is marked as bad by its first read is part of the image (KvdbCuts.Settled).
- KvdbRecovery.StartUp: on stores that have lost a record the note that the last del_kv was the first of two may stay set, so that the next delete leaves its entry in the table of records; only the next start clears that up (StartUpTwice), and using the store before is not modelled.
- Kvdb.Db.constructor: that note is taken as unset, as in a handle that has never been used; the code does not reset it.
- Kvdb.Db.GetKvFromCache: a key of more than 64 bytes is taken not to match; the code reads past its buffer there if the first 64 do.
- Kvdb.Db.SetKv: a name of exactly 64 bytes is excluded by the precondition; the code stores it although its scan never finds it (ScanFindsExactly).
- Kvdb.Db.FindKvNoCache: records are met one after the other; that the search for the magic word behind a broken record may stop inside that record's name is not modelled.
- Kvdb.Db.MoveKv: a marked record is only moved while a start puts the flash in order; what moving it at another time does is the subject of CollectingTheMarked.
- Kvdb.Db.WriteRecord: the RAM tables are updated after the flash writes instead of between them.
- VsnprintfSpec.StarsWithoutDigitsAreBounded: a sufficient condition on the format alone; the exact one on format and arguments is SafeExactlyIfBounded.
- Vsnprintf.Vsnprintf: widths, precisions and the result are unbounded integers, so int overflow is not modelled; %n takes its argument but stores nothing; a missing or mistyped argument, undefined in C, reads as zero.
- ApbusReader.Reader.Poll: negative timeouts are not modelled.
- RttRing.Ring.WriteWithOverwrite: a buffer of one byte is not modelled; the code does not return from longer writes to it.
- Scheduler.Queue.EventPut: headers and data are separate arrays with one data cell per slot, so the 16-bit offset of the data area cannot overflow here; copying the data is one step.
- Sector values that span several sectors, write granularities above 1, file mode, default values and automatic update of the key-value store.
- The checksum is proved by itself; in the key-value store a complete record is one whose checksum fits.
- The time-series log with rollover off, and the sector and entry counts of its control interface.
- unibus, which repeats the apbus code with other magic bytes; RTT printf and channel configuration; SEGGER_RTT_GetBytesInBuffer.
- Hardware drivers, ports, logging, AT commands, Modbus, protothread examples and scripts, which would only add easy members or depend on code that is not part of this model.
