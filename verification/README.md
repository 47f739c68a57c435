# perfcached: the cluster plane in Dafny

A model of the parts of perfcached's cluster plane that have a protocol or a format to get right, and
proofs about every run, every input or every reachable state of it. The source is C; objects that are
updated in place are classes here, loops over buffers are methods with invariants, and threads and
networks are state machines whose actions are the smallest steps that can interleave. Each method is
proved against a function or a step relation on values, and the results are lemmas about those.

## What is modelled

**Delete acknowledgements** (`src/clack.c`, `src/clackf.c`, `src/ackstate.c`). An origin numbers its
deletes; every member keeps, per origin, an applied mark over a circular window of 4096 seqs and a
confirmed mark that waits for the write-ahead log through a queue of 16 (mark, WAL seq) pairs that
merges when it is full; keepalives carry the confirmed marks, a rotating slice at a time; the origin drops
a delete once no member's confirmed mark is below it.

- `Watermark`: one numbering space as a value, and the account - the set of recorded seqs, each with its
  WAL seq, and what a floor or a restore vouched for - that every run keeps it right about.
- `Prompt`: how soon a mark is confirmed - what every later sync will confirm, call by call, and over runs
  against a reference that knows nothing of the queue.
- `Words`, `WindowSpace`, `Clack`: the same in memory - bits of a circular window packed in 64-bit words, a
  fixed array of pairs, a table of spaces - each method equal to the value function. `ClackRuns`: in any run
  of calls each space of the table does what it would do alone.
- `FleetTable`: the origin's table of members and marks, and who is stuck. `Fleet`: members that start,
  restart, work and beat, keepalives that are lost, duplicated, delayed and reordered.
- `AckState`, `Restart`: the marks' file beside each snapshot, the rotating slice, and a node that may
  crash between any two steps of applying, logging, counting, capturing, publishing and saving - its walk
  going on while deletes do - and find any snapshot and any marks' file of its past.

**Apply rings** (`src/clapply.c`). `ApplyItem`, `ApplyRing`: the byte ring between the receiver and one
apply thread - variable-length items, wrap markers, a stale read of `head`, bytes copied one at a time, the
sleep and wake handshake. `ApplyGroups`: N such rings, sharding by key, and the reference-counted groups
whose last holder acknowledges and frees.

**Streams** (`src/clane.c`, `src/clbulk.c`). `LaneWire`, `Lane`, `LaneRuns`, `LaneWrite`, `LaneCode`: the TCP
frame lane over any cutting of reads and writes and any sequence of broken connections, what becomes of every
frame a caller sends, and the write loop as a function of what the socket answers. `Bulk`, `BulkCode`: a byte stream cut into sealed records and read back in other
lengths through a stash, and the four-slot batch queue.

**Formats and bounded structures.** `Crc`, `Dump`, `DumpCode`: the dump chunk as `cli/perfdump.c` writes it
and `cli/perfload.c` reads it. `History`, `HistoryCode`: the least-recently-used identity table of
`src/clhist.c`. `Figures`: the fleet figures of `src/clfleet.c` and what they count. `Digest`: the config
digest of `src/clinit.c`. `Tomb`, `TombCode`, `Hold`: additive frames of `src/clfwd.c` and `src/clhold.c`.
`Bytes`, `Fnv`, `Options` are shared.

## Main results

- `Fleet.ForgettingIsSafe`: what the origin forgets, every listed member holds durably in the incarnation
  the table holds for it; so, by `Fleet.RunningLifeHolds`, the running process holds it while that is its
  incarnation.
- `Watermark.ConfirmedIsDurable`, `ConfirmedIsTight`, `ConfirmedNeverFalls`, `WindowIsTheSet`,
  `GapIsTheFirstHole`, `Repair`: the marks mean what they say, and asking for gaps ends.
- `Prompt.ConfirmedIsExact`, `ConfirmedIsPrompt`, `InTurnIsExact`: a mark is confirmed no later than it could
  be, as long as the queue of 16 was not full; `Prompt.ApplyInTime` says which one mark a full queue puts off.
- `Restart.DirectoryIsEnough`, `NeverOverclaims`: a crash anywhere never makes a mark cover a delete the store
  lost, and `RestoredWasCaptured`, `MarkSurvives`: what it restores was captured under that very marker, and
  what was confirmed is still there.
- `ApplyRing.RingIsSafe`, `NoUnreadByteChanges`, `RingIsAQueue`, `StoredIsPushed`, `NoLostWakeUp`,
  `BlockedMeansWork`: the ring, in every interleaving. `ApplyGroups.AckedOnceAfterAll`,
  `NeverTouchedAfterFree`, `AppliedInArrivalOrder`, `ArrivedIsPushed`: the groups and the order of each key.
- `Lane.AtMostOnce`, `LaneRuns.HandedWasSent`, `NoneIsLost`, `HandedInTurn`, `Lane.WireIsFrames`,
  `LaneWrite.ReturnMeans`, `FreshAllGo`: the lane. `Bulk.StreamIdentity`, `StreamIsAsked`: the stream.
- `Crc.TableIsSerial`, `Dump.ReadBack`, `Dump.AcceptedWasWritten`: the dump.
- `History.ExactlyTheRecent`, `Figures.SumIsExact`, `PerKIsExact`, `FullestIsExact`,
  `Digest.DigestOfTheSet`, `Tomb.PrefixParses`, `Hold.QueryBack`.

Some expectations hold only under a condition, which is stated exactly. A dump with a key or value over
65536 bytes is written but cannot be loaded (`Dump.ReadBack` gives the condition both ways,
`Dump.LongValueIsRefused` an input). An empty lane frame is accepted for sending and makes the receiver drop
the connection (`LaneWire.WholeFrames`). Beyond 64 collection names the config digest depends on their order
(`Digest.DigestOfTheSet`, `Digest.SixtyFiveNames`), and the bytes of a switch are those of a longer algorithm
name (`Digest.SwitchOrName`; `Digest.SettingsApart` gives the condition both ways, `Digest.AllApart` a
simple one on the algorithms' first letters). A keepalive that outlives its process is still counted
(`Fleet.OldLifeIsCounted`). Two snapshots may carry one marker, and then an older snapshot beside newer marks
passes the marker test (`Restart.SameMarkerOverclaims`; `Restart.CrashIsExact` says exactly which crashes do
harm, `Restart.DirectIsTrusted` that the files of one directory never do). And one loop has less to do than it
looks: a floor always finds the waiting pairs at or below it, so it keeps none of them
(`Watermark.RaiseClears`).

## Model

| member | source | states |
|---|---|---|
| `Watermark.ConfirmedIsDurable` | src/clack.c:104-192 | after any run of applies, syncs, floors and restores, every seq at or below the confirmed mark has its WAL record synced, or was vouched for by a floor or restore |
| `Watermark.ConfirmedIsTight` | src/clack.c:104-192 | the confirmed mark is at most the applied one, equal to it exactly when no pair waits, and equal whenever the WAL is synced through the folded maximum or through every record |
| `Watermark.ConfirmedNeverFalls` | src/clack.c:104-288 | without a restore the confirmed mark never falls, whatever the calls and their order |
| `Watermark.WindowIsTheSet` | src/clack.c:126-171 | after any run the mark ends the longest prefix of recorded seqs, the seqs held ahead are exactly the recorded ones above it and fit the window, and the next answer is DUP or FAR by the set alone |
| `Watermark.StepKeeps` | src/clack.c:104-288 | every call - applied, synced, floor, restore - keeps window, maxima and waiting pairs right about the account, also when the full queue merges |
| `Watermark.RunKeeps` | src/clack.c:104-288 | so does every run of calls |
| `Watermark.ApplyKeeps` | src/clack.c:126-171 | one apply, in each of its cases (duplicate, too far, ahead, next in line), keeps the space right about the longer account |
| `Watermark.ConfirmKeeps` | src/clack.c:104-124 | confirming a mark that moved up leaves ascending pairs, each past the sync and covering what it says, the last one the mark's own |
| `Watermark.SyncKeeps` | src/clack.c:173-192 | a sync raises the confirmed mark over exactly the covered pairs and keeps the rest right |
| `Watermark.FloorKeeps` | src/clack.c:242-288 | a floor keeps the space right about an account that vouches for 1..floor, and lowers no confirmed mark |
| `Watermark.RaiseClears` | src/clack.c:270-273 | a floor above the mark drops every waiting pair: none is beyond it |
| `Watermark.RestoreGood` | src/clack.c:228-240 | a restored space is right about an account that vouches for 1..mark |
| `Watermark.AbsorbRuns` | src/clack.c:158-163 | the mark moves over exactly the run of held seqs that follows it |
| `Watermark.RunEnd` | src/clack.c:205-226 | the end of the run of seqs not held that starts at a given one, up to the highest seen |
| `Watermark.GapIsTheFirstHole` | src/clack.c:205-226 | a gap is reported exactly when a seq up to the highest seen is missing, and it is the first maximal run of unrecorded seqs above the mark |
| `Watermark.DeliverReaches` | src/clack.c:126-171 | delivering a gap's seqs in ascending order moves the mark to its end at least and raises nothing past the highest seen |
| `Watermark.Repair` | src/clack.c:205-226 | asking for the reported gap and delivering it, again and again, ends - hi minus mark falls each round - with every seq up to the highest seen recorded |
| `Prompt.ApplyInTime` | src/clack.c:104-171 | for every apply and every later sync: once the new folded maximum is synced the new mark is confirmed; before that the sync confirms exactly what it would have without the apply - unless 16 pairs waited and the mark moved, and then just the mark it moved from is put off |
| `Prompt.SyncInTime` | src/clack.c:173-192 | a sync on the way changes nothing for what a later one confirms |
| `Prompt.FloorInTime` | src/clack.c:242-288 | a floor is confirmed at once, and what connects behind it when its maximum is synced |
| `Prompt.ConfirmedIsExact` | src/clack.c:104-288 | in every run that never found 16 pairs waiting, the confirmed mark is the largest mark ever reached - since the last restore, floors included - whose folded maximum is at most the sync |
| `Prompt.ConfirmedIsPrompt` | src/clack.c:104-192 | whatever came out of order, a mark once reached is confirmed as soon as the WAL is synced through all that had been recorded by then |
| `Prompt.InTurnIsExact` | src/clack.c:104-192 | when deletes come in order the confirmed mark is exactly the longest prefix whose WAL records are all synced |
| `Prompt.OnlyItsOwn` | src/clack.c:155-168 | a delete that connects nothing adds only its own WAL seq to the folded maximum |
| `Prompt.FloorAddsNothing` | src/clack.c:266-287 | a floor that connects nothing adds nothing to it |
| `Prompt.AheadIsForgotten` | src/clack.c:158-168 | in every run, once nothing is held ahead the maximum of what was is back at 0 |
| `Words.PutBit` | src/clack.c:45-53 | or-ing in a mask, or and-ing it out, changes that bit of the 64-bit word and no other |
| `Words.PutBits` | src/clack.c:45-53 | so does putting a bit of the map packed in 64 words |
| `WindowSpace.HasBit` | src/clack.c:38-43 | a seq is held exactly when it is in the window and its bit, shifted down in its word, is 1 |
| `WindowSpace.PutAhead` | src/clack.c:45-53 | putting a seq's bit in its word adds or removes that seq and no other |
| `WindowSpace.Slide` | src/clack.c:38-53 | when the mark moves over seqs that are not held, the same bits stand for the same seqs in the window at its new place |
| `WindowSpace.BitChanged` | src/clack.c:38-53 | setting or clearing a seq's bit adds or removes that seq of the window and no other |
| `WindowSpace.NumberSpace.SetBit` | src/clack.c:45-53 | one bit changes, the count of set bits with it, and the window by exactly that seq |
| `WindowSpace.NumberSpace.Confirm` | src/clack.c:104-124 | the fields afterwards are the value function's: confirmed at once, merged into the last pair, or queued |
| `WindowSpace.NumberSpace.Connect` | src/clack.c:158-163 | the loop over set bits absorbs exactly the run of held seqs behind the mark |
| `WindowSpace.NumberSpace.TakeNext` | src/clack.c:155-168 | the next in line and what it connects, with the WAL maxima folded, as the value function says |
| `WindowSpace.NumberSpace.Applied` | src/clack.c:126-171 | the fields and the answer after an apply are those of the value function on the space they stand for |
| `WindowSpace.NumberSpace.CoverFront` | src/clack.c:183-185 | counts the pairs the sync covers and raises the confirmed mark over them |
| `WindowSpace.NumberSpace.Synced` | src/clack.c:173-192 | the covered pairs leave the front of the array and the rest close up, as the value function says |
| `WindowSpace.NumberSpace.Gap` | src/clack.c:205-226 | finds the first hole by scanning the circular window |
| `WindowSpace.NumberSpace.Restored` | src/clack.c:228-240 | a restored space: applied, confirmed and highest seen at the mark, nothing held or waiting |
| `WindowSpace.NumberSpace.SinkTo` | src/clack.c:254-265 | bits at or below the floor are cleared and the window stands for what was held above it |
| `WindowSpace.NumberSpace.KeepBeyond` | src/clack.c:270-273 | the in-place filter keeps exactly the pairs beyond the floor, in order |
| `WindowSpace.NumberSpace.Floored` | src/clack.c:242-288 | the fields and the answer after a floor are those of the value function |
| `Clack.Clack.GetSpace` | src/clack.c:65-80 | finds a space or adds an empty one behind the others, none beyond 1026 |
| `Clack.Clack.Applied` | src/clack.c:126-171 | an apply changes the one space's row and no other; seq 0 and a full table are refused |
| `Clack.Clack.Synced` | src/clack.c:173-192 | a later sync reaches every space; an earlier one changes nothing |
| `Clack.Clack.FloorAt` | src/clack.c:242-288 | a floor changes the one space's row and no other |
| `Clack.Clack.RestoreTo` | src/clack.c:228-240 | a restore sets the one space's row and no other |
| `Clack.Clack.ConfirmedMark` | src/clack.c:194-203 | the confirmed mark of a known space |
| `ClackRuns.AppliedMeans` | src/clack.c:126-171 | an apply reaches its own space alone and answers as that space does; seq 0 is bad, and only a space new to a full table is refused |
| `ClackRuns.SyncedMeans` | src/clack.c:173-192 | a later sync reaches every space, an earlier one none |
| `ClackRuns.FlooredMeans` | src/clack.c:242-288 | a floor reaches its own space alone and answers as that space does |
| `ClackRuns.RestoredMeans` | src/clack.c:228-240 | a restore sets its own space alone |
| `ClackRuns.EachAlone` | src/clack.c:65-288 | in every run of calls on any spaces, each space stands where its own calls and the syncs would have brought it alone |
| `FleetTable.AnnounceMeans` | src/clackf.c:64-85 | announcing an incarnation forgets that member's marks exactly when it is another than held, changes no other member, and is refused only for a new member in a full table |
| `FleetTable.ReportMeans` | src/clackf.c:99-135 | a report sets one mark of one member and, when it changed, the time of its last change; it leaves every other entry and every incarnation, answers 1 exactly when the mark went down, and is refused exactly when the table lacks the member or has no space left for one more of its marks |
| `FleetTable.ClearMeans` | src/clackf.c:137-143 | a member's marks go, its incarnation stays, nobody else changes |
| `FleetTable.ForgetMeans` | src/clackf.c:145-153 | the swap with the last row removes that member and loses nobody else |
| `FleetTable.Clackf.Member` | src/clackf.c:64-85 | in the array and count of the source: afterwards that member has the incarnation announced, and has lost its marks exactly if it held another; every other member is as before; refused exactly when it is new and all 513 rows are taken |
| `FleetTable.Clackf.ReportMark` | src/clackf.c:99-135 | afterwards the member says that mark of that space, with the time of now exactly if it said another, every other entry and every incarnation is as before, and the answer is 1 exactly when the mark it said was higher; a refusal changes nothing |
| `FleetTable.Clackf.ClearMember` | src/clackf.c:137-143 | afterwards the member has no entry for any space, every incarnation and every other member's entry is as before |
| `FleetTable.Clackf.ForgetMember` | src/clackf.c:145-153 | afterwards that member is not in the array, and every other one is, with its incarnation and entries, though the last row moved |
| `FleetTable.Clackf.Entry` | src/clackf.c:155-165 | the entry of a member for a space, when both are known |
| `FleetTable.Clackf.Min` | src/clackf.c:167-182 | 0 for an empty list or when any listed member has not reported; otherwise the lowest mark any of them reported |
| `FleetTable.Clackf.Max` | src/clackf.c:224-240 | the highest mark reported by the listed members, or by all of them, 0 when none is |
| `FleetTable.Latest` | src/clackf.c:251-257 | the latest move of any listed member |
| `FleetTable.StuckMeans` | src/clackf.c:242-265 | the stuck members are exactly those listed whose mark is below the head, last changed at a known time at least so long ago, while `also` or another listed member changed later; each as often as listed, with its mark and time |
| `FleetTable.StillFirstSorts` | src/clackf.c:258-279 | the insertion order is by time of the last move, a permutation of the stuck members, and stable |
| `FleetTable.ShiftIn` | src/clackf.c:274-278 | the in-place shift puts a row where the insertion puts it and leaves the rest of the array |
| `FleetTable.Place` | src/clackf.c:265-278 | one more stuck member: the bounded array holds the first of the longer insertion order |
| `FleetTable.Clackf.StuckOn` | src/clackf.c:242-281 | returns how many listed members are stuck and fills the array with the min(count, max) of them still the longest, sorted and stable, for every list and every max |
| `Fleet.ForgettingIsSafe` | src/clackf.c:167-182 | in every run - keepalives lost, duplicated, delayed, reordered, members restarted - if the lowest mark over a list is at least s, every listed member, in the incarnation the table holds, has seq s durably or vouched for |
| `Fleet.RunIsSound` | src/clackf.c:64-182 | every run keeps: lives right about their accounts, keepalives ever sent true of their incarnation, the table true of the incarnation it holds |
| `Fleet.ActKeeps` | src/clackf.c:64-153 | so does every single action: start, work, beat, arrival, departure |
| `Fleet.LifeStepKeeps` | src/clack.c:126-288 | whatever a member does in one incarnation, its spaces stay right and it confirms no less than before |
| `Fleet.BootIsGood` | src/ackstate.c:155-200 | a process that restores the marks of a snapshot is right about every space |
| `Fleet.ReceiveMeans` | src/clackf.c:64-143 | after a keepalive arrives the table says of a member only what it said of the same incarnation, or what the keepalive says |
| `Fleet.KeepaliveIsTaken` | src/clackf.c:64-143 | a keepalive of a member the table has or has room for leaves its incarnation and every mark it carries; what it does not carry stays for the same incarnation, and one without marks clears them |
| `Fleet.LivesGrow` | src/clack.c:104-288 | what was announced stays true as lives go on confirming more |
| `Fleet.RunningLifeHolds` | src/clackf.c:64-182 | and when the table holds a listed member's current incarnation, it is the running process that has seq s durably or vouched for |
| `Fleet.OldLifeIsCounted` | src/clackf.c:64-182 | otherwise it need not: a five-action run in which a keepalive sent before a restart arrives after it, the lowest mark is 1, and the running process holds nothing |
| `AckState.SavedIsLoaded` | src/ackstate.c:106-200 | what was saved under a marker is exactly what a load of that marker restores; a load of any other marker restores nothing |
| `AckState.LoadedWasSaved` | src/ackstate.c:155-200 | a file that restores marks is, byte for byte, the one saved for that marker and those marks |
| `AckState.FileLayout` | src/ackstate.c:116-129 | where each field lies in the file, byte by byte, and what the check sum covers |
| `AckState.RestoredIsCaptured` | src/ackstate.c:82-104 | restoring captured marks in a fresh node gives exactly the captured spaces, each applied and confirmed at its mark |
| `AckState.PutLe` | src/ackstate.c:106-153 | a number as little-endian bytes in place, what is before it untouched |
| `AckState.Encode` | src/ackstate.c:116-129 | the buffer filled by the encode loop is the file of the captured marks |
| `AckState.LoadInto` | src/ackstate.c:155-200 | the decode loop restores exactly the file's marks, or changes nothing |
| `AckState.Slicer.Slice` | src/ackstate.c:288-315 | a beat carries min(spaces, max) confirmed marks from the cursor on, around the end, moves the cursor by as many, and says how many spaces there are; a max of 0 or less gives none of either |
| `AckState.EverySpaceGoesOut` | src/ackstate.c:288-315 | whatever the cursor, within ceil(n / max) consecutive beats over n spaces every space is in some beat's slice |
| `Restart.NeverOverclaims` | src/ackstate.c:82-200 | in every run with crashes anywhere that load any snapshot and any marks' file of the past, no applied mark - so no confirmed one - covers a delete the store lacks, as long as marks that pass the marker test are of the loaded snapshot or an earlier one |
| `Restart.DirectIsTrusted` | src/rdb.c:205-321 | what a crash finds in the directory - the snapshot renamed last or the one before, the marks saved last or the ones before - always meets that condition |
| `Restart.DirectoryIsEnough` | src/rdb.c:205-321 | so with crashes that find what the directory holds, no mark ever covers a delete the store lacks, no condition left |
| `Restart.RestoredWasCaptured` | src/ackstate.c:82-200 | a crash restores nothing, or exactly the mark that some capture earlier in the run read under the loaded snapshot's own marker |
| `Restart.CrashIsExact` | src/ackstate.c:155-200 | a crash leaves a mark over a missing delete if and only if the marks that pass the marker test are not all covered by the loaded snapshot and the records replayed past it |
| `Restart.SameMarkerOverclaims` | src/ackstate.c:188-191 | a run where two snapshots carry one marker and the older, loaded with the marks of the newer, leaves a mark over a delete that is lost |
| `Restart.ConfirmedSurvives` | src/recover.c:382-410 | with a WAL, each delete recorded at or below the confirmed mark is in the store a crash leaves, when the crash keeps the records on disk past the snapshot |
| `Restart.RestoredSurvives` | src/recover.c:382-410 | what one crash restored, the next does not lose, when crashes find what the directory holds |
| `Restart.MarkSurvives` | src/recover.c:382-410 | so with a WAL, and no floor since the last crash, a node that crashes again and again loses no delete at or below its confirmed mark |
| `Restart.ReplayIsCounted` | src/recover.c:390-402 | every numbered delete a restart finds in the log, up to a window past the restored mark, is recorded again, and the restored mark does not fall |
| `Restart.RunKeepsInv` | src/ackstate.c:82-200 | every run keeps: the store holds what the space counts, every snapshot holds what its log position says and what every earlier capture's marks say, later snapshots hold what earlier ones do |
| `Restart.ActKeeps` | src/rdb.c:205-321 | so does each step of applying, logging, counting, reading the marker, capturing, walking - any contents between the store at the capture and the store at the end - renaming, syncing and saving |
| `Restart.CrashKeeps` | src/recover.c:382-404 | a crash at any point, whatever of the log survived and whichever files are found, rebuilds marks the recovered store covers when the marks that pass the marker test are of the loaded snapshot or an earlier one |
| `ApplyItem.RecordBack` | src/clapply.c:210-224 | the record taken out of an item is the one put in, field by field, whatever is in the header's padding; both lengths in the header are the item's |
| `ApplyRing.RingIsSafe` | src/clapply.c:160-328 | in every interleaving both indices stay below cap, head == tail exactly when nothing is unread, and the items released are a prefix, byte for byte, of those pushed |
| `ApplyRing.NoUnreadByteChanges` | src/clapply.c:174-230 | no step of either thread changes a byte of an unread item or wrap marker, though the producer decided on a stale head |
| `ApplyRing.StepsStayInside` | src/clapply.c:174-230 | every byte written and every item released lies inside the buffer |
| `ApplyRing.RingIsAQueue` | src/clapply.c:160-328 | the ring is a first-in first-out queue: the tail store appends one item, the release takes the first with its own bytes, nothing else changes what is queued |
| `ApplyRing.NoLostWakeUp` | src/clapply.c:225-299 | whenever a complete item is in the ring and the consumer blocked in its wait, the producer is between its tail store and its signal |
| `ApplyRing.BlockedMeansWork` | src/clapply.c:174-209 | on a fresh head the producer waits only while the consumer has something to take |
| `ApplyRing.ActKeeps` | src/clapply.c:160-328 | every step keeps the layout of unread items, the producer's and the consumer's positions, and who holds the mutex |
| `ApplyRing.DecideKeeps` | src/clapply.c:174-201 | the room test on a stale head never lets an item reach unread bytes or full look like empty |
| `ApplyRing.CopyByteKeeps` | src/clapply.c:219-224 | each byte copied lies inside the buffer and outside what is unread |
| `ApplyRing.LookKeeps` | src/clapply.c:251-268 | the consumer goes round at a marker or a short end, and otherwise finds the first unread item |
| `ApplyRing.DoneKeeps` | src/clapply.c:319-328 | what is released is the first unread item, whole |
| `ApplyRing.EmptyMeansNothing` | src/clapply.c:248-253 | head == tail if and only if no item and no wrap marker is unread |
| `ApplyRing.RoomIs` | src/clapply.c:176 | the modular room computation is the number of free bytes less the one kept back |
| `ApplyRing.StoredIsPushed` | src/clapply.c:160-239 | in every interleaving the items callers pushed that fit at all and were not given up are, in order, those stored and then the one the producer is on: none is forgotten, at a wrap or anywhere |
| `ApplyRing.ReleasedInOrder` | src/clapply.c:160-328 | so what is released is a prefix of what callers pushed |
| `ApplyRing.DecidesByRoom` | src/clapply.c:174-201 | on a fresh head the item goes in exactly when the free bytes take it with one to spare, the tail turns exactly when the end is too short and nothing unread lies at the start, and otherwise the producer waits |
| `ApplyRing.LookFinds` | src/clapply.c:248-268 | what the consumer finds: nothing when its tail is its head, the first unread item when one lies before the wrap, otherwise the wrap |
| `ApplyRing.SleepsWhenEmpty` | src/clapply.c:283-288 | the consumer goes to sleep, its flag up, exactly when nothing is unread |
| `ApplyGroups.AckedOnceAfterAll` | src/clapply.c:121-151 | in every run a group is acknowledged at most once, only after its close and the release of every record pushed with it; once that is so it has been, or exactly one thread is about to |
| `ApplyGroups.NeverTouchedAfterFree` | src/clapply.c:121-151 | no step of any thread touches a group that has been freed |
| `ApplyGroups.AppliedInArrivalOrder` | src/clapply.c:111-119 | for any number of threads in any interleaving, the records of one (collection, key) are applied in the order they were pushed |
| `ApplyGroups.OrderKept` | src/clapply.c:160-239 | what was applied of a key, then what waits in its ring, is always what arrived of it |
| `ApplyGroups.ActKeeps` | src/clapply.c:111-328 | every step keeps: the count is the open hold and the records not released, and exactly one thread is on a group whose count is zero until it is freed |
| `ApplyGroups.ArrivedIsPushed` | src/clapply.c:160-239 | the records in arrival order are those the receiver pushed, each as it was given, but for those given up |
| `ApplyGroups.GroupsByRun` | src/clapply.c:121-151 | a group is there exactly once it was opened, and closed exactly once that was asked for |
| `ApplyGroups.UntouchedSame` | src/clapply.c:121-151 | a step leaves every group alone but the one it touches or opens |
| `ApplyGroups.Shard` | src/clapply.c:111-119 | the ring of a key is one of the rings |
| `Fnv.FoldConcat` | src/fnv1a.h:49-57 | a running hash does not depend on how its input is cut |
| `Fnv.More` | src/fnv1a.h:49-57 | the loop folds every byte in order |
| `Fnv.OneByteApart` | src/fnv1a.h:49-57 | two messages that differ in one byte only hash apart |
| `Fnv.KnownValues` | src/fnv1a.h:49-57 | the published hashes of three messages |
| `LaneWire.WholeFrames` | src/clane.c:504-554 | a receiver of whole frames hands on exactly them if and only if it took the hello and none is empty; otherwise it has handed on a proper prefix and given up |
| `LaneWire.PrefixArrives` | src/clane.c:488-554 | a receiver that took any part of a connection, also one cut inside a frame, has handed on a prefix of the whole frames written |
| `LaneWire.FrameArrives` | src/clane.c:542-552 | the bytes of a frame hand on that frame and change nothing else |
| `LaneWire.RefusedFrame` | src/clane.c:544-547 | a length of zero ends the connection and hands nothing on |
| `LaneWire.HelloArrives` | src/clane.c:510-541 | ten bytes of hello are accepted exactly when they begin with the four of the magic and the next four are the source address |
| `LaneWire.HelloTaken` | src/clane.c:365-371 | the hello a sender writes is taken exactly when the connection comes from its address, whatever the port |
| `LaneWire.LengthDecides` | src/clane.c:542-547 | any four bytes where a length is due let the connection go on exactly when they say 1 to 65127, most significant first |
| `LaneWire.FeedConcat` | src/clane.c:488-500 | how the bytes are cut into reads does not matter |
| `Lane.AtMostOnce` | src/clane.c:200-554 | for every cutting of reads and writes and every sequence of disconnects and reconnects, no frame is handed on twice, and frames come in queue order within a connection and from an earlier to a later one |
| `Lane.HandedIsWhole` | src/clane.c:200-554 | every frame handed to the cluster thread is, whole, a frame the sender's queue held |
| `Lane.WireIsFrames` | src/clane.c:382-485 | every connection ever made carries the hello, whole frames in queue order and at most part of one more; both byte counts are what is queued, within their bounds |
| `Lane.ReadToTheEnd` | src/clane.c:382-554 | a connection read to the end of a frame has handed on exactly the frames it carried if and only if the hello was taken and none was empty |
| `Lane.DoKeeps` | src/clane.c:200-485 | every step of the sender - send, connect, hello, stale drop, partial write, close - keeps queue, byte count, offsets and wire right |
| `Lane.RunKeeps` | src/clane.c:200-554 | every run of sender, receiver and cluster thread keeps the whole lane right |
| `Lane.OutIsPrefix` | src/clane.c:504-554 | what a connection handed on is a prefix of the frames it carries |
| `Lane.CutFrameGoesAgain` | src/clane.c:317-335 | wherever a connection breaks in the frame at the head, the next one carries the hello and then that frame from its first byte |
| `LaneRuns.SentIsQueued` | src/clane.c:200-235 | in every run each frame written or waiting carries the bytes and the time of the send it is numbered after, and a send is numbered exactly when its length and what waits allow it |
| `LaneRuns.HandedWasSent` | src/clane.c:200-554 | so what the cluster thread is handed is, byte for byte, what a caller sent |
| `LaneRuns.NoneIsLost` | src/clane.c:200-485 | each send taken is written, waits, or was dropped unwritten when it had waited too long |
| `LaneRuns.HandedInTurn` | src/clane.c:242-315 | the cluster thread is offered, in order, exactly the frames that came off the connections and found room in its queue, and is handed those that fit its buffer |
| `LaneWrite.WriteIsPath` | src/clane.c:382-485 | the write loop, whatever the socket answers, is a path of the sender's steps that begins no stale frame and drops none partly written |
| `LaneWrite.ReturnMeans` | src/clane.c:382-485 | it returns -1 exactly when the last answer was an error, and 0 only when the hello and the whole queue are written or the last answer took less than offered |
| `LaneWrite.FreshAllGo` | src/clane.c:382-485 | when the socket takes all it is offered, the hello and exactly the fresh frames, with the one begun, are written in order and the queue is empty |
| `LaneCode.Peer.SendFrame` | src/clane.c:200-235 | a frame is queued, behind the others and with its own bytes and time, exactly when it is not too long and fits the queue's bound; otherwise nothing changes |
| `LaneCode.Peer.WriteSome` | src/clane.c:382-485 | the fields, the result and the answers not used are those of the write function, for every sequence of answers |
| `LaneCode.Peer.DropStale` | src/clane.c:434-447 | drops exactly the stale frames at the head, none when the first is partly written |
| `LaneCode.Inbound.Fill` | src/clane.c:488-500 | the next bytes of the connection go into the buffer in order; 1 exactly when the wanted length is there, otherwise every byte that arrived was taken, and -1 exactly at the end of the connection |
| `LaneCode.Inbound.Read` | src/clane.c:504-554 | the reading code hands on what the byte-by-byte receiver does, takes every byte that arrived unless it refused one, and returns -1 exactly then or at the end of the connection |
| `LaneCode.ThreadQueue.Offer` | src/clane.c:284-315 | a frame is kept at the end exactly when the queue stays within its bound |
| `LaneCode.ThreadQueue.TakeOne` | src/clane.c:242-269 | the oldest frame leaves the queue, and is returned if it fits the caller's buffer |
| `Bulk.StreamIdentity` | src/clbulk.c:117-168 | in every run of sends, arrivals and receives of any lengths: bytes returned, then the stash, then the records on the wire are the bytes sent; a receive is refused only for want of whole records, never for the stash's size |
| `Bulk.StreamIsAsked` | src/clbulk.c:117-168 | in every run the stream is what callers sent, and what receives returned is its first so many bytes as they asked for |
| `Bulk.ReceiveGives` | src/clbulk.c:136-168 | a receive gives exactly the next bytes of the stream if and only if enough whole records are there, and keeps what it does not give |
| `Bulk.WantKeeps` | src/clbulk.c:136-168 | a receive that succeeds returns exactly the wanted number of bytes and leaves the stream whole |
| `Bulk.Chunks` | src/clbulk.c:117-134 | the cut into records is the stream again when joined, and every record is full but the last, which is not empty |
| `Bulk.RecordLayout` | src/clbulk.c:117-134 | a record is its sealed length in two bytes, least significant first, and the sealed bytes |
| `Bulk.IsCut` | src/clbulk.c:136-168 | a stream of records cut anywhere is whole records and less than one more |
| `BulkCode.Sender.SendStream` | src/clbulk.c:117-134 | the chunking loop writes exactly the records of the stream, and fails exactly when the connection takes fewer bytes, with just those written |
| `BulkCode.Receiver.RecvExact` | src/clbulk.c:136-168 | copying through the stash is the receive function; a record is read only into an empty stash |
| `BulkCode.Receiver.Unstash` | src/clbulk.c:142-147 | the caller gets the first bytes of the stash, the others move down in place |
| `BulkCode.Receiver.Refill` | src/clbulk.c:150-166 | one whole record is opened into the stash, or the receive fails |
| `BulkCode.Batches.Offer` | src/clbulk.c:41-60 | a batch goes behind the others in the round-robin slots, refused exactly when all four are taken |
| `BulkCode.Batches.TakeOldest` | src/clbulk.c:72-90 | the oldest batch leaves the queue into the bulk thread's hand |
| `BulkCode.Batches.Done` | src/clbulk.c:92-97 | the hand is empty, the queue as it was |
| `Crc.TableIsSerial` | cli/perfdump.c:68-77 | one table look-up and shift equals feeding the byte's eight bits into the CRC-32 register of section 8 of RFC 1952, least significant first |
| `Crc.UpdateConcat` | cli/perfdump.c:68-77 | a running CRC does not depend on how the bytes are split over updates |
| `Crc.CheckValue` | cli/perfdump.c:68-77 | the CRC-32 of the digits 1 to 9 is CBF43926 |
| `Crc.FillTable` | cli/perfdump.c:56-67 | the table loop computes, for every index, that index turned eight times |
| `Crc.CrcUpdate` | cli/perfload.c:148-156 | the byte loop computes the bit-serial CRC-32 |
| `Dump.ReadBack` | cli/perfload.c:386-420 | reading a written chunk gives back exactly its records and count if and only if no key or value exceeds 65536 bytes; otherwise it fails |
| `Dump.LongValueIsRefused` | cli/perfload.c:411-412 | a value of 65537 bytes, which the writer takes, makes a chunk that is refused |
| `Dump.ReadWas` | cli/perfload.c:386-420 | whatever the reader accepts is, byte for byte, a chunk of the records it gives, up to its trailer |
| `Dump.WrittenIsAccepted` | cli/perfload.c:832-861 | a dump of records the reader takes is accepted with the writer's own count and CRC |
| `Dump.AcceptedWasWritten` | cli/perfload.c:832-861 | a file accepted against a manifest entry begins with a whole dump of that many records with that CRC |
| `Dump.NextReads` | cli/perfload.c:386-420 | the reader's next step on a written record gives that record, or fails when it is too long |
| `Dump.FileLayout` | cli/perfdump.c:318-333 | where magic, records, end mark and count lie in a chunk |
| `Dump.BodyLayout` | cli/perfdump.c:295-314 | where each field of a record lies |
| `DumpCode.ChunkWriter.Put` | cli/perfdump.c:295-314 | one more record in the file, with count, byte count and CRC right for it; fails exactly when the file takes fewer bytes, and then counts nothing |
| `DumpCode.ChunkWriter.Finish` | cli/perfdump.c:318-333 | the file is a whole chunk of the records put, and CRC, bytes and count are its own; fails exactly when the trailer does not fit or the close fails |
| `DumpCode.ChunkReader.Open` | cli/perfload.c:365-382 | accepted exactly when the file starts with the magic |
| `DumpCode.ChunkReader.NextRec` | cli/perfload.c:386-420 | the next record, the trailer or an error, as the reading function says, the CRC that of the bytes taken |
| `DumpCode.Verify` | cli/perfload.c:832-861 | true exactly when the whole file reads, its count and trailer are the manifest's and its CRC too |
| `DumpCode.RangesTile` | cli/perfdump.c:750-769 | with no more walkers than buckets every bucket is in exactly one range and no range is empty |
| `DumpCode.RangesEven` | cli/perfdump.c:750-769 | each walker gets the buckets over the walkers, or one more |
| `DumpCode.KeptMeans` | cli/perfdump.c:716-746 | the chunks kept are exactly those of other collections, each as often as it was there |
| `DumpCode.KeptInOrder` | cli/perfdump.c:716-746 | and in their old order |
| `DumpCode.CompleteMeans` | cli/perfdump.c:716-746 | the totals are the sums over the complete chunks |
| `DumpCode.Discard` | cli/perfdump.c:716-746 | the in-place compaction keeps exactly the other collections' chunks in order, and the totals of records and of bytes stay those of the complete chunks |
| `History.ExactlyTheRecent` | src/clhist.c:44-74 | the table holds an identity if and only if it was noted and fewer than 1024 others were noted since |
| `History.NoteTracks` | src/clhist.c:44-74 | a note in its own slot, a free one or the oldest's keeps the table tracking all notes: last time and node id of each, and only the least recent left out |
| `History.HeldIsRecent` | src/clhist.c:44-74 | an identity in the table has fewer than 1024 others noted since |
| `History.RecentIsHeld` | src/clhist.c:59-68 | an identity noted and not in the table has at least 1024 others noted since |
| `HistoryCode.SavedIsLoaded` | src/clhist.c:92-162 | a reachable history of fewer than 2^32 notes is saved and loaded whole, its clock included |
| `HistoryCode.SavedOrRefused` | src/clhist.c:92-162 | any table of entries that fit is loaded as it was saved if no identity is in it twice, and refused for that if one is |
| `HistoryCode.LoadDecides` | src/clhist.c:114-162 | what is made of any bytes: loaded, named as the bytes say, exactly with a count of at most 1024, just so many entries and no two named alike; otherwise the reason |
| `HistoryCode.SavedLayout` | src/clhist.c:92-112 | where each field lies in the saved form |
| `HistoryCode.ClockIsLatest` | src/clhist.c:138-146 | the newest entry carries the clock |
| `HistoryCode.Clhist.Find` | src/clhist.c:34-42 | finds an identity exactly when the table holds it |
| `HistoryCode.Clhist.Oldest` | src/clhist.c:61-68 | the slot seen longest ago |
| `HistoryCode.Clhist.Note` | src/clhist.c:44-74 | answers known exactly for the 1024 most recent identities and keeps the table tracking |
| `HistoryCode.Clhist.LastId` | src/clhist.c:81-90 | the node id an identity was last noted under, 0 when it is not one of the recent |
| `HistoryCode.Clhist.Encode` | src/clhist.c:92-112 | the saved form of the table, or nothing when the buffer is too short |
| `HistoryCode.Decode` | src/clhist.c:114-162 | the loaded table and clock, or the reason it is refused: short, count, truncated, or an identity twice |
| `Figures.SumIsExact` | src/clfleet.c:65-67 | the sum is the number of keys if and only if every key has one holder |
| `Figures.PerKIsExact` | src/clfleet.c:55-64 | with every key on K members, or on every reporting one when they are fewer, the rounded quotient is the number of keys |
| `Figures.PerKIsNearest` | src/clfleet.c:55-64 | in any case it is all copies divided by the smaller of K and the number reporting, at least by 1, rounded to the nearest and a half upwards, for keys and expired alike |
| `Figures.FullestIsExact` | src/clfleet.c:50-54 | the fullest member's count never exceeds the number of keys and is it if and only if some member holds them all |
| `Figures.OrderDoesNotMatter` | src/clfleet.c:26-42 | no figure depends on the order in which the peers are folded |
| `Figures.FiguresAre` | src/clfleet.c:12-69 | members, reporting and every event are counted over this node and each reporting peer; entries and expired are their sum, or the most of any, by the basis |
| `Figures.CopiesBetween` | src/clfleet.c:26-42 | counting copies by key: with between lo and hi holders each, between lo and hi times the keys |
| `Figures.Accumulator.Member` | src/clfleet.c:26-42 | one more member, reporting or not, in every total and maximum |
| `Figures.Accumulator.Finish` | src/clfleet.c:44-69 | the figures of the blocks fed, by the basis |
| `Figures.Walk` | src/clfleet.c:12-69 | this node, every peer, then the end: the figures of all the blocks |
| `Digest.DigestOfTheSet` | src/clinit.c:132-189 | what is hashed is the same for two lists of names if and only if their first 64 are the same names; so for lists of at most 64, if and only if they are the same names in any order |
| `Digest.SixtyFiveNames` | src/clinit.c:169-170 | with 65 names the order can matter |
| `Digest.SettingsApart` | src/clinit.c:141-186 | for any two settings and lists of names, the hashed bytes agree if and only if mode and eager do, as bytes, and the zero-ended strings that follow do: the switches run into the algorithm, then the sorted names |
| `Digest.PrefixesApart` | src/clinit.c:141-186 | unless a copy factor's byte is zero, that is: switches and algorithm agree written one behind the other, and the first 64 names are the same |
| `Digest.AllApart` | src/clinit.c:141-186 | and when moreover no algorithm begins with a switch's letter, they agree if and only if every setting does |
| `Digest.SwitchOrName` | src/clinit.c:146-167 | a WAL with one algorithm hashes the same bytes as none with that algorithm behind the two bytes of the switch |
| `Digest.MessageIsStrings` | src/clinit.c:141-186 | what is hashed is two bytes and then strings, each ended by a zero |
| `Digest.MessageExample` | src/clinit.c:141-186 | the hashed bytes of two names given out of order with both switches on, and of no name with none |
| `Digest.LeqMeans` | src/clinit.c:173-179 | names go by the first byte in which they differ, a prefix first |
| `Digest.SortSorts` | src/clinit.c:173-179 | the insertion order is sorted |
| `Digest.SortKeeps` | src/clinit.c:173-179 | and a permutation |
| `Digest.SortedIsUnique` | src/clinit.c:168-179 | there is one sorted arrangement of the same names |
| `Digest.SortInPlace` | src/clinit.c:173-179 | the in-place insertion sort computes that arrangement |
| `Digest.ConfigDigest` | src/clinit.c:132-189 | the digest is the FNV-1a hash of the switches, the algorithm and the sorted names |
| `Tomb.PrefixParses` | src/clfwd.c:166-237 | parsing any prefix of a built tombstone gives nothing when the key is cut, and otherwise the same key with each later field as sent or absent, only the numbered flag cleared when the numbering is cut |
| `Tomb.BuiltParses` | src/clfwd.c:166-237 | a whole tombstone reads back: key, version, numbering and flags - the numbered bit set exactly when there is a number, every other bit the caller's |
| `Tomb.SentFlags` | src/clfwd.c:173-175 | the numbered bit is set exactly when there is a number, and every other bit is the caller's |
| `Tomb.FlagsBack` | src/clfwd.c:166-237 | the flags read from a frame cut anywhere, bit by bit: none before their byte; behind it the caller's, but the numbered bit set exactly when a number was sent and came through whole |
| `Tomb.FlagsSent` | src/clfwd.c:173-190 | a frame carries the flags' byte exactly when there is a number or a bit of the caller's other than the numbered one |
| `Tomb.MoreIsIgnored` | src/clfwd.c:204-237 | a frame with every field is read the same whatever comes behind |
| `TombCode.WriteCursor.Put` | src/clcodec.h:93-123 | bytes go behind the others all or none, and the first that do not fit latch the failure |
| `TombCode.PutKey` | src/clfwd.c:104-110 | the lengths, the collection and the key, in that order, or the failure latched exactly when they do not fit or it was before |
| `TombCode.Build` | src/clfwd.c:166-190 | the buffer holds the tombstone and the length returned is its own |
| `TombCode.Parse` | src/clfwd.c:204-237 | reads any frame as the parsing function says |
| `Hold.QueryBack` | src/clhold.c:46-129 | a query reads back as its node, collection and exactly its keys; cut short behind its header, as the first of them |
| `Hold.KeysBack` | src/clhold.c:113-129 | from a frame cut anywhere the keys read are the first of those written, all when it is whole |
| `Hold.KeysOnly` | src/clhold.c:113-129 | no more keys than the count says are read, whatever comes behind them |
| `Hold.QueryLayout` | src/clhold.c:46-86 | where each field of a query and of its first key lies |
| `Hold.QueryWriter.Begin` | src/clhold.c:46-61 | the header goes in exactly when the name is at most 255 bytes and it fits |
| `Hold.QueryWriter.Add` | src/clhold.c:63-80 | a key is taken exactly when count, length and buffer allow it, behind those taken before |
| `Hold.QueryWriter.End` | src/clhold.c:82-86 | the frame is the query of exactly the keys accepted |
| `Hold.ReadQuery` | src/clhold.c:93-129 | the reading loop returns the header and the keys the functions say |
| `Bytes.LeDigit` | src/walfmt.h:26-46 | the i-th byte of a number stands for 256^i |
| `Bytes.BeDigit` | src/clhold.c:13-30 | and in the other order, the i-th from the end |

## Left out

- Sequence numbers, WAL numbers, counters and clocks are unbounded: 64-bit wrap-around, and the 32-bit wrap of the identity history's clock, are not modelled. Where a format stores them in a fixed width the lemma says so.
- The queue and receive lists of the lane are sequences, not linked lists; tables that double their capacity are sequences.
- Allocation failure, sockets, poll loops, connecting, handshakes, timeouts, backoff, eventfds and the cost of spinning. A rename is atomic; a connection delivers a prefix of what was written, in pieces of any size.
- Memory order: the apply ring and the groups are interleavings of atomic steps, sequentially consistent.
- CRC-32C in the marks' file and the Noise transport are functions passed in; the laws used of them are stated where they are used (`IsCrc`, `Sealing`, `Shrinks`).
- In `Restart` the WAL is the records that survive a crash, and a recovered node resumes past every WAL seq it found. Once a crash went back to a snapshot, later snapshots of the history given up are not found again, though their marks' files may be; in `DirectoryIsEnough` a crash that finds a marks' file finds a snapshot.
- Restart.MarkSurvives: deletes a floor vouched for since the last crash are outside it; the model has them in the store but not in the log.
- AckState.Encode: the temporary file, the rename and the directory sync around it are steps of `Restart`, not of this method.
- DumpCode.ChunkWriter.Finish: compression and the manifest entry are not modelled.
- In `Fleet` the slice a beat carries is any choice of rows; that the real one goes round is `AckState.EverySpaceGoesOut`. An incarnation is never reused, as the source's own premise.
- In `ApplyGroups` a ring is a first-in first-out queue, which is what `ApplyRing.RingIsAQueue` proves of it; records the caller applies itself while the daemon stops are not in the order claim.
- In `Lane` one sender and its connections are followed; other daemons' frames appear only as entries of the shared receive queue. Forcing, probing and the per-address limits are not modelled.
- `clack_drop`, `clack_each`, `clackf_each`, `clackf_heard`, `pc_ack_member_rows`, statistics and logging: they would add easy members.
- Dump compression, manifests and resumption around the chunks; `clinit`'s identity file; the operation, JSON and demotion frames of `src/clfwd.c` and the hold answer of `src/clhold.c`: more of the same kind as what is here.
- `src/clboot.c`, `src/clcid.c`, `src/clepoch.c`, the configuration parsers, alerts, autosizing, the tools' user interfaces and `bench/`.
- Figures.Walk: expired entries and client events are totalled and maximised as the source does, but only the entries figure is given a meaning in terms of keys.
- Bulk.StreamIdentity: the law of the transport is assumed with the two counters in step, so a record altered on the way, and sealing that fails, are outside it.
