# JIT-DT: history ring, lock-file handoff, GET transfer and configuration

JIT-DT moves radar data files to readers as soon as all files of one instant have arrived. This
project models its core and proves what it promises.

* **History of `lwatcher`.** A producer registers dated, typed files; a consumer serves clients
  from the oldest complete date, sends without holding the mutex, and retires afterwards. The
  history is a ring of slots with forced eviction, deletion delayed by `KEEP_FILE_COUNT`
  removals, late files searched backwards, and dates that are never cleared. `HistoryLog` is an
  unbounded log of the accepted dates; `HistoryRing` is the ring as it is, an array updated in
  place, and every operation is proved to refine the log. On the log, `HistorySafety` proves that
  no file is lost track of, `HistoryNames` when names stay under their own dates and when they are
  unlinked, `HistoryHandle` for how long the consumer may use an entry without the mutex.
  `HistoryRun` is the state machine of both threads with their two condition variables,
  `HistorySteps` shows that the critical sections, run on the ring, are its steps,
  `HistoryDelivery` says what clients receive in whole runs, and `HistoryLate` has two runs in which
  that goes wrong. `HistoryRequests` compares each session with the request it answers. `LWatcher`
  is the producer's step.
* **Lock files of `kwatcher`.** `Collector` groups files by date in a second, different ring with
  an index that moves back for late files; `KWatcher` is that ring in place. `LockFile` is the text
  in a lock file, written without truncation and cut apart in place. `LockProtocol` is the
  interleaving of one writer and any number of readers over two locks, and `LockRegister` the same
  over the bytes of the two files. `Publishing` says which dates are published, by what is in the
  slots, and `ArrivalOrder` by the order of arrival alone. `Publisher` and `JitKClient` put these
  together: from an arriving file to the lock file, and from the lock file to the reader's buffer;
  `LockSteps` shows that their calls are steps of the protocol. `SetHandoff` is about whole runs of
  collector, writer and readers.
* **GET.** `WireFormat` is the record in front of each message, `GetTransfer` the layout of replies
  and buffers, `Connection` a stream that may be split and may break anywhere, `GetExchange` the
  exchange over it, `GetDelivery` what it leaves in the buffer for a delivery of the history,
  `JitClient` the local reader and the broadcast to the other processes of a cluster.
* **Configuration.** `ConfigLexer` and `ConfigParser` say which table a text denotes, `ConfigTokens`
  what one call of the tokenizer does with any text, and `ConfigGrammar` which files are accepted,
  `ConfigReader` is the reader with its stream cursor, buffers and global table, proved to compute
  just that, `ConfigPrinter` writes tables, `ConfigRoundTrip` prints them and runs the reader, and
  `ConfigAppend` is about the end of a file.

The files state each concept once: a function says what an operation does, a method of a class
does it in place and is proved equal to it, and lemmas say what it is good for.

## Conditions

Theorems hold for all inputs and all interleavings unless a condition is named here. The
conditions on callers are those of the program:

* a history has at most `MAX_HISTORY` slots, dates are not 0 (0 marks an unused slot), and a date
  passed as a negative `long long` is compared as the unsigned number it is converted to;
* a client sends CLOSE only after OPEN, asks for a type that exists, and asks for at least one
  byte of the first type (`ValidOp` in `HistoryRun`); that a GET can lower the number of served
  types for good is part of the model (`ServedExactly`). The exchange itself (`GetExchange.Get`) is for
  requests whose sizes are all positive, for at most as many files as the server serves, all of which
  can be opened: for other columns the server sends counts it never set;
* lock files start out zeroed; `UnwrittenFile` says what happens when they have length zero.

Guarantees about names need that *files arrive on time* (`OnTimeRun`: each under its own date and
type, none for an entry whose names were removed already). The accounting of deliveries, the dates
of replies and the number of their files do not need it.

Some promises do not hold of the code in general. For these there is the exact condition, proved in
both directions, and a counterexample:

* **Entries of one date only.** A late file that belongs to an entry whose names were removed
  already is stored in it nevertheless, and ends up under a newer date. A put keeps the history
  clean if and only if this is not the case (`PutClean`; the condition, `OnTime`, can be checked
  before the call); `EmptiedNameResurfaces` says what becomes of such a name, and
  `LateFileMixesDates` is a run in which it does harm.
* **The head stays usable during a send.** It does if and only if fewer new dates arrive than
  `HandleSafe` says; `HandleLost` shows that the bound is attained.
* **A reply is of one date, its own.** Its date is right if and only if the slot was not reused when
  the date was read (`DateExactly`), and it is a complete set of that date if and only if, in
  addition, no name was read after the entry had been emptied (`RepliesExactlyProper`). New dates
  during the transmission do no harm; earlier ones do in `OvertakenDate` and `OvertakenNames`.
* **No lost wakeup.** It holds for `histget`. A consumer in `histwait` is stuck on a complete head if
  and only if the head was complete when it blocked (`SecondWaitSeesNoPut`); `SecondWaitCanBeLate`
  is a run in which that happens.
* **Sets in order.** A set is read after a later one if and only if the reader comes while the writer
  is between its locks and the other file was read already (`ReorderExactlyInGap`);
  `SingleReaderReorders` is a run. A writer that takes the other lock at once excludes it for a single
  reader (`HandoffOrder`), and no reader ever sees more than two neighbours exchanged
  (`BoundedReordering`).
* **All complete dates are published.** With two or more types and no file twice, a date is lost if
  and only if one of its files starts it a second time (`PublishedExactly`); files in date order never
  do (`InOrderPublishesAll`). What counts is not how late a file is but how far its date is from that
  of the file before it: as long as that is close enough, everything is published
  (`SteadyPublishesAll`), and the first file that is too far from its predecessor costs its date the
  publication (`RestartsExactly`, `TooFarIsLost`). In `LateFileCostsSet` no file is late by more than
  two dates, and yet the newest date is lost. With a single type nothing is published
  (`SingleTypeNeverPublishes`).
* **A GET that reports success delivered the files.** It does if and only if the connection lasted for
  the whole reply (`ArrivesWhole`); the client does not look, and `Get` says what the buffer holds.
* **The same layout on all processes.** `CastOffsetsRight` says exactly when, `EmptyFileShifts`
  when not.
* **Malformed files are refused.** A setting is if and only if both tokens behind the keyword are wrong
  (`LooseSetting`); `NoValueAccepted` is a family of malformed files that are accepted. A whole file is
  if and only if the grammar of `ConfigGrammar` does not derive it (`AcceptedExactly`).
* **Layout never changes the tokens.** Between tokens it never does (`InsertLayout`); behind the last
  one if and only if that is not open (`AppendExactly`), as a final dollar sign is
  (`AppendedComment`).

Where comments and code disagree the model follows the code: the consumer index starts at 0, not
at 1 (src/misclib.c:182-195), and the queue may hold `nhist - KEEP_FILE_COUNT` entries, it need not
stay below (src/misclib.c:304-308).

## Model

| member | source | states |
|---|---|---|
| `HistoryLog.Lookup` | src/misclib.c:315-337 | a late file belongs to the entry of its date among the last n accepted dates; no result means that none of these n has the date |
| `HistoryLog.RemoveValid` | src/misclib.c:207-237 | retiring keeps the queue within its bounds and the dates strictly increasing |
| `HistoryLog.PutValid` | src/misclib.c:279-347 | every put, of any date and type, keeps the dates strictly increasing and at most n - KEEP_FILE_COUNT entries queued; the newest date moves exactly for a newer one |
| `HistoryRing.SlotIndexRange` | src/misclib.c:171-174 | each slot stands for exactly one log index among the last n, the one congruent to it |
| `HistoryRing.SlotHolds` | src/misclib.c:171-174 | the slot of each of the last n entries holds that entry |
| `HistoryRing.SlotReused` | src/misclib.c:297-314 | the slot taken for a new date is that of the entry n dates older, or an unused one |
| `HistoryRing.LookupUnique` | src/misclib.c:315-337 | with increasing dates, each of the last n dates is found at its own index only |
| `HistoryRing.RemoveSlots` | src/misclib.c:214-236 | a removal in the log is, on the slots: consumer index forward by one, names of the slot KEEP_FILE_COUNT behind it unlinked, date kept |
| `HistoryRing.StoreSlots` | src/misclib.c:295-296 | storing a name in a log entry changes one column of its slot only |
| `HistoryRing.OpenSlots` | src/misclib.c:313-313 | opening a date changes the date of one slot only, so names left there pass to the new date |
| `HistoryRing.History.constructor` | src/misclib.c:187-199 | too small a history is enlarged to KEEP_FILE_COUNT + 2; the empty ring represents the empty log |
| `HistoryRing.History.RemoveHead` | src/misclib.c:207-237 | the whole effect of a removal on the indices, the slots and the unlinked files, for any slot contents |
| `HistoryRing.History.HistRemove` | src/misclib.c:239-245 | retiring the head refines the removal of the log and keeps the ring invariant |
| `HistoryRing.History.HistGet` | src/misclib.c:247-266 | one pass of the loop: the slot of the oldest queued entry, or, exactly if nothing is queued, one more waiter |
| `HistoryRing.History.NewestSlot` | src/misclib.c:294-297 | the producer slot has the newest accepted date, or 0 before the first |
| `HistoryRing.History.PutNew` | src/misclib.c:297-314 | a new date, including the forced eviction, is the put of the log |
| `HistoryRing.History.SlotDates` | src/misclib.c:215-228 | because dates are never cleared, a slot has date dt exactly if the lookup in the log leads to it |
| `HistoryRing.History.SearchBack` | src/misclib.c:315-337 | the backward scan succeeds if and only if the date is among the last n accepted ones, and returns the unique slot with it |
| `HistoryRing.History.HistPut` | src/misclib.c:279-347 | every call, late and refused files included, refines the put of the log, and a kept file is in its column of the only slot with its date, all other columns as before but for an eviction; the two signals are sent exactly for a kept file and a waiting consumer |
| `HistoryRing.KeptExactly` | src/misclib.c:284-337 | a file is kept if and only if its type is in range and its date is newer than all others or in one of the slots |
| `HistoryRing.PutSlots` | src/misclib.c:295-336 | after a put of a kept file exactly one slot has its date, and there the file is in its column; every other column and date is as before, but for the slot that a forced eviction empties; what the column held is replaced, and nothing else |
| `HistoryRing.RefusedSlots` | src/misclib.c:284-334 | any other file changes no slot and no index; it is unlinked unless its type is out of range |
| `HistorySafety.RemoveBalance` | src/misclib.c:207-237 | a removal loses no file: names leave the slots exactly as often as they are unlinked |
| `HistorySafety.OpenBalance` | src/misclib.c:297-314 | reusing a slot loses no file, whatever names are left in it |
| `HistorySafety.PutBalance` | src/misclib.c:279-347 | for each path: held + unlinked + replaced - put is the same before and after any put |
| `HistorySafety.PutBalanced` | src/misclib.c:279-347 | after any put, every file is in one column, unlinked, or replaced, counted with multiplicity |
| `HistorySafety.RemoveBalanced` | src/misclib.c:207-245 | after any removal as well |
| `HistoryNames.RemoveClean` | src/misclib.c:215-236 | a removal keeps every name under its own date and type, and unlinks nothing that is queued or among the last KEEP_FILE_COUNT - 1 retired entries |
| `HistoryNames.OpenEmpty` | src/misclib.c:297-314 | in a clean history the slot reused for a new date has no names |
| `HistoryNames.StoreClean` | src/misclib.c:295-336 | storing a file keeps the history clean if and only if its entry has not been emptied |
| `HistoryNames.RefusedClean` | src/misclib.c:330-334 | a file too late for every slot is recorded, unlinked, and changes nothing else, whatever its column |
| `HistoryNames.PutClean` | src/misclib.c:279-347 | a put keeps the history clean if and only if it is on time, that is, does not belong to an emptied entry; the condition is checkable before the call |
| `HistoryNames.ReplacedBySame` | src/misclib.c:295-336 | in a clean history a stored name is overwritten only by a later file of the same date and type, and at most one per call |
| `HistoryNames.HeldOnDisk` | src/misclib.c:215-236 | every name in a clean history is a file on disk, of an entry not yet emptied |
| `HistoryNames.UnlinkedExactlyThen` | src/misclib.c:215-236 | the names of entry k are unlinked and cleared by exactly the removal that makes the number of removals k + KEEP_FILE_COUNT |
| `HistoryHandle.PutGrows` | src/misclib.c:297-314 | one put accepts at most one date, never changes older dates, and evicts exactly when the queue would exceed its bound |
| `HistoryHandle.PutAllGrows` | src/misclib.c:297-314 | over any sequence of puts: evictions start when the queue is full and keep it full |
| `HistoryHandle.HandleSafe` | src/misclib.c:214-220 | the head taken while q entries are queued is emptied if and only if n - q new dates have arrived; until then its slot, date and names stay |
| `HistoryHandle.HandleAlwaysTolerates` | src/misclib.c:304-311 | KEEP_FILE_COUNT - 1 new dates never disturb the head, however full the queue is |
| `HistoryHandle.HandleLost` | src/misclib.c:304-312 | the next new date does: the bound is attained |
| `HistoryHandle.EmptiedNameResurfaces` | src/misclib.c:297-336 | a name stored in an emptied entry: whatever files are put in between, when its slot is reused a file of the old date sits under the newer one, if and only if the first file of the newer date is of another type |
| `HistoryHandle.LateFileMixesDates` | src/misclib.c:315-336 | concrete run of seven correctly dated files after which an entry that passes the completeness check mixes two dates |
| `HistoryRun.StepInv` | src/lwatcher.c:176-289 | every step of producer and consumer keeps the invariant of the whole system |
| `HistoryRun.RunInv` | src/lwatcher.c:149-289 | so it holds in every state of every run, for any interleaving |
| `HistoryRun.WaiterIsSignalled` | src/misclib.c:338-343 | the waiter counters are positive exactly while the consumer waits, so a kept file signals it |
| `HistoryRun.NoLostWakeup` | src/misclib.c:247-266 | a consumer blocked in histget without a signal faces an empty queue |
| `HistoryRun.SecondWaitSeesNoPut` | src/misclib.c:268-277 | a consumer blocked in histwait without a signal faces a complete head if and only if the head was complete when it blocked, and every kept file signals it |
| `HistoryRun.SecondWaitCanBeLate` | src/lwatcher.c:214-223 | histwait checks outside the mutex: there is a run in which the consumer blocks, unsignalled, on a complete head |
| `HistoryRun.DeliveryAccounting` | src/lwatcher.c:176-289 | in every run: accepted dates = delivered + closed + evicted + queued, minus a reply not yet retired |
| `HistoryRun.FilesConserved` | src/lwatcher.c:102-131 | in every run each file put is held, unlinked or replaced, counted with multiplicity |
| `HistoryRun.RemovalIsSafe` | src/lwatcher.c:262-278 | the unguarded decrement never meets an empty queue, although evictions happen during a send |
| `HistoryDelivery.RunHeads` | src/lwatcher.c:210-270 | every run delivers log entries in increasing order, each at most once |
| `HistoryDelivery.RunDates` | src/lwatcher.c:210-270 | in every run each reply is marked as read too late exactly if its date is not that of its entry |
| `HistoryDelivery.DateExactly` | src/lwatcher.c:262-262 | in every run: a reply carries the date of its own entry if and only if at most as many dates as there are slots had followed it when the call was made; what arrives during the transmission does not matter |
| `HistoryDelivery.RepliesExactlyProper` | src/lwatcher.c:210-267 | if files arrive on time: a reply consists of one file for each served type, all of its date and of its entry, if and only if its names were read before the entry was emptied and its date before the slot was reused |
| `HistoryDelivery.DatesIncrease` | src/lwatcher.c:210-267 | in every run: replies with the right date carry strictly increasing dates, whatever other replies carry |
| `HistoryDelivery.RepliesAreComplete` | src/lwatcher.c:210-267 | in every run: a reply whose names were all read before its entry was emptied has a file for each type that is served, now or later |
| `HistoryDelivery.SentFilesOnDisk` | src/lwatcher.c:241-259 | if files arrive on time: the file about to be opened is of the date of the entry if and only if the entry was not emptied, and then of the right type and on disk |
| `HistoryDelivery.EntriesStayHomogeneous` | src/misclib.c:220-236 | if files arrive on time, every entry only ever holds files of its own date, overtaken sends or not |
| `HistoryDelivery.UndeliveredAreEvicted` | src/lwatcher.c:262-267 | in every run, between sessions, the retired entries that no reply carried number exactly the evictions and CLOSE requests, although the consumer may retire another entry than the one it sent |
| `HistoryDelivery.ServedTypes` | src/lwatcher.c:228-235 | the number of served types never grows, and drops exactly when a GET asks for nothing of one of them |
| `HistoryRequests.ServedExactly` | src/lwatcher.c:228-235 | at the step that ends the checks of a GET the number of served types becomes the first column with a zero size, or stays if there is none; no other step changes it |
| `HistoryRequests.TakesOldest` | src/lwatcher.c:187-212 | the consumer gets the slot of the smallest queued date, or waits exactly if nothing is queued |
| `HistoryRequests.CheckExactly` | src/lwatcher.c:189-223 | unless the slot is reused meanwhile: a name that is missing in the head leads to the second wait, a name that is there to the next column, to the reply after the last one, or to the opened session |
| `HistoryRequests.DeliveryAnswers` | src/lwatcher.c:210-267 | in every run each delivery answers the last request before it, a GET, and its number of files is that of the columns before the first zero of this request |
| `HistoryRequests.RepliesHaveNoGap` | src/lwatcher.c:241-246 | in every run in which files are registered under their own type, late ones included, the files of a reply are of types 0, 1, 2, without a gap, even if the reply was overtaken |
| `HistoryLate.OvertakenDate` | src/lwatcher.c:210-262 | concrete run: five new dates after the file was read, and the reply carries the newest date |
| `HistoryLate.OvertakenNames` | src/lwatcher.c:213-267 | concrete run: four new dates after the check, and a reply without any file counts as delivered |
| `HistorySteps.Start` | src/misclib.c:187-199 | a new ring is the start of every run |
| `HistorySteps.ArriveStep` | src/misclib.c:279-347 | histput on the ring is the arrival step of the machine, and its two results are the signals that wake the consumer |
| `HistorySteps.TakeStep` | src/misclib.c:247-266 | histget up to its wait is the step that takes the head or blocks, with the slot as handle |
| `HistorySteps.WakeStep` | src/misclib.c:259-276 | the end of either wait is the wakeup step, counters included |
| `HistorySteps.BlockStep` | src/misclib.c:268-273 | histwait up to its wait is the blocking step |
| `HistorySteps.RetireStep` | src/misclib.c:239-245 | histremove, after a reply or on CLOSE, is the removal step, and the queue is not empty then |
| `LWatcher.Watcher` | src/lwatcher.c:102-131 | a file is skipped, deleted, or registered under its own date and the first column of its type; if it is on time the history stays clean |
| `LockProtocol.StepInv` | src/misclib.c:364-443 | mutual exclusion, the alternation of the writer and the content of both files are kept by every step of any number of readers |
| `LockProtocol.RunInv` | src/misclib.c:364-443 | and hold in every run |
| `LockProtocol.BoundedReordering` | src/jitkclient.c:102-130 | each published set is read at most once, and a set read after a later one is its direct predecessor |
| `LockProtocol.ReorderExactlyInGap` | src/kwatcher.c:195-200 | for any number of readers: the set about to be read comes after a later one if and only if the writer is between its two locks, waits for this very file, and the other file was read already |
| `LockProtocol.WrittenIsThere` | src/kwatcher.c:195-196 | a set that was written and not yet released is in its file |
| `LockProtocol.AtMostOneLock` | src/misclib.c:403-405 | no process ever holds both locks |
| `LockProtocol.NoCircularWait` | src/misclib.c:395-405 | who waits for a lock holds none, and the holder of a lock waits for nothing and has a step to take: no deadlock |
| `LockProtocol.BackPressure` | src/kwatcher.c:195-200 | while a reader keeps a lock at most one further set is published |
| `LockProtocol.HandoffStepInv` | src/kwatcher.c:195-200 | with one reader and an immediate hand-over of the locks, no file outside the writer keeps a set older than one already read |
| `LockProtocol.HandoffOrder` | src/kwatcher.c:195-200 | then the sets are read in strictly increasing order |
| `LockProtocol.SingleReaderReorders` | src/kwatcher.c:195-200 | without the immediate hand-over even a single reader can get set 1 before set 0 |
| `LockProtocol.ReadersTakeTurns` | src/misclib.c:383-404 | in every run the j-th time a reader takes a lock it is that of file j mod 2, whether it found something before or not |
| `LockProtocol.WriterTakesTurns` | src/misclib.c:383-404 | so it is for the writer, and set i is written into file i mod 2 |
| `LockProtocol.LockedIsStable` | src/misclib.c:390-401 | while a reader has a lock, no step of another process changes the reader, its file or the lock |
| `LockSteps.GetSteps` | src/jitkclient.c:94-132 | a call of _jitget on lock files that stand for a state of the protocol is lock, read, zeroing if there was a set, and unlock; it succeeds exactly if the protocol has a set in the file that is due, returns the names and files of that set, and is due at the other file next |
| `LockSteps.TransferSteps` | src/kwatcher.c:187-196 | an arriving file is no step of the protocol, or, exactly if it completes a set, writing the next set and unlocking |
| `LockSteps.TakeLockStep` | src/kwatcher.c:198-200 | the end of the wait for the other lock is the lock step of the writer |
| `LockFile.PiecesJoin` | src/kwatcher.c:191-194 | cutting undoes joining, for as many names as there are columns |
| `LockFile.PiecesExactly` | src/jitclient.h:41-58 | for any text: the pieces have no separator, joined again they are the beginning of the text, and there are as many as columns or no separator is left |
| `LockFile.JoinLists` | src/jitkclient.c:128-129 | a joined text without its last character lists the names: with a separator between them and none at the end |
| `LockFile.FirstLineExactly` | src/misclib.c:467-467 | the line of a buffer ends at its first NUL or newline |
| `LockFile.FetchedExactly` | src/jitkclient.c:102-110 | whatever a file holds, a reader with any buffer makes of it the pieces of the text before the first NUL or newline or the end, and takes it for empty exactly if there is no such text |
| `LockFile.LockFile.LockedWrite` | src/misclib.c:446-455 | the new text and its NUL come first, every byte behind them and a larger length stay, and the file reads as the text |
| `LockFile.LockFile.Nullify` | src/misclib.c:426-443 | four zero bytes come first, every byte behind them stays, and the file reads as empty |
| `LockFile.RegisterRoundTrip` | src/misclib.c:446-469 | what was joined and written is what any reader cuts out, over any earlier content of file and buffer |
| `LockFile.NullifiedReadsEmpty` | src/misclib.c:426-443 | a zeroed file reads as empty, whatever it held before |
| `LockFile.UnwrittenFile` | src/jitkclient.c:102-110 | a file of length zero reads as empty exactly if the buffer of the reader is still empty; otherwise as a set without names |
| `LockFile.CutOne` | src/jitclient.h:48-51 | turning the first separator into a NUL splits one name off and leaves the rest |
| `LockFile.SepType` | src/jitclient.h:41-58 | the in-place split yields exactly the pieces of the original text |
| `LockFile.Client.ReadFile` | src/misclib.c:457-463 | the buffer holds the beginning of the file, and behind it what it held before |
| `LockFile.Client.CutLine` | src/misclib.c:467-467 | the text ends at its first newline |
| `LockFile.Client.Fetch` | src/jitkclient.c:102-110 | reading, cutting at the newline and splitting in place give the names of the register, or report an empty file |
| `LockRegister.RegisterFollows` | src/misclib.c:426-469 | in every run of the protocol, with its writes and zeroings done on the bytes of both lock files, each file reads as the names of the set the protocol has in it, or as empty if it has none |
| `LockRegister.ReaderGetsNames` | src/jitkclient.c:102-110 | so a reader with any buffer gets exactly the names of the set that the protocol logs, and nothing exactly if it logs nothing |
| `SetHandoff.SetsAreComplete` | src/kwatcher.c:101-154 | every set published in a run of the collector has one file of each type, all of the date it is published under |
| `SetHandoff.ReadersGetOneDate` | src/jitkclient.c:94-132 | collector, lock files and readers together: whatever arrives in whatever order and however the steps interleave, what a reader finds in the bytes of its lock file is the names of one published set, one file of each type, all of its date |
| `Collector.FileJoins` | src/kwatcher.c:101-127 | a file of the date of the current slot joins it; a file older than that joins the slot before it if that has its date, and otherwise the one two before if that has: its column alone is filled, or it is refused if the column is taken, and the date is published exactly if all columns are filled then |
| `Collector.FileMovesOn` | src/kwatcher.c:128-152 | any other file joins the next slot if that has its date, and otherwise starts its date there; exactly the files that slot collected are unlinked |
| `Collector.OtherArrivals` | src/kwatcher.c:58-96 | what is no file of a known type changes no slot |
| `Collector.CollectGrouped` | src/kwatcher.c:101-154 | after any call, late files included, every name is under its own date and in its own column, and exactly the used slots have names |
| `Collector.PublishedComplete` | src/kwatcher.c:107-112 | a set that is handed on has every column filled, with files of its date |
| `Collector.OneSlotChanges` | src/kwatcher.c:128-152 | a call changes one slot at most, and takes names away only from the slot after the current one, for another date |
| `Collector.CollectBalance` | src/kwatcher.c:101-152 | each renamed file is in one slot, unlinked or refused, counted with multiplicity |
| `Collector.RunConserves` | src/kwatcher.c:101-152 | and that over every run |
| `Collector.PublishedOnce` | src/kwatcher.c:101-154 | if no file of the same date and type comes twice, every published date is complete and none is published twice |
| `Collector.SingleTypeNeverPublishes` | src/kwatcher.c:151-154 | with one sync type nothing is ever published, because a new date is stored without the completeness check |
| `Publishing.CollectPlaces` | src/kwatcher.c:101-154 | one call keeps a date in one slot with exactly its seen types, published exactly if complete, unless the file starts the date again; then the date is scattered and stays so, unpublished |
| `Publishing.NoTarget` | src/kwatcher.c:101-132 | a file starts its date exactly if the date is neither in the current slot nor in the next one, nor, for a late file, in the two before |
| `Publishing.PublishedExactly` | src/kwatcher.c:101-154 | with two or more types and no file twice, a date is published if and only if all its types arrived and none of its files came when the slot with the earlier ones was out of reach |
| `Publishing.InOrderNeverRestarts` | src/kwatcher.c:101-154 | with files in date order no file ever starts its date again |
| `Publishing.InOrderPublishesAll` | src/kwatcher.c:101-154 | so then a date is published if and only if all its types arrived |
| `Publishing.LateFileCostsSet` | src/kwatcher.c:113-152 | in any ring of four or more slots: a concrete run of five files, none twice, in which a date of which both types arrived is started again and never published |
| `ArrivalOrder.SteadyPublishesAll` | src/kwatcher.c:101-154 | by the order of arrival alone: if each file of a known date is of the date of the file before it, of the next one, or of one of the two before among the last n, and new dates follow the newest one, then a date is published if and only if all its types arrived |
| `ArrivalOrder.RestartsExactly` | src/kwatcher.c:113-132 | after such files, one more of a known date starts this date again if and only if it does not follow closely |
| `ArrivalOrder.TooFarIsLost` | src/kwatcher.c:113-132 | and then its date is never published, whatever else arrives |
| `ArrivalOrder.SteadyTrack` | src/kwatcher.c:101-152 | in such runs date number i is in slot i mod n, for the last n dates, and the current slot is that of the last file |
| `KWatcher.Groups.constructor` | src/kwatcher.c:223-223 | the empty ring represents the initial state |
| `KWatcher.Groups.Find` | src/kwatcher.c:101-132 | the search with its moving index finds the slot the specification names |
| `KWatcher.Groups.Filled` | src/kwatcher.c:108-110 | all columns up to the number of types are filled |
| `KWatcher.Groups.Discard` | src/kwatcher.c:133-150 | the names of the slot are unlinked in column order, and the slot has none left |
| `KWatcher.Groups.MkHist` | src/kwatcher.c:58-155 | every call changes the ring as specified, and returns the current slot exactly if a set became complete |
| `Publisher.Writer.SetText` | src/kwatcher.c:191-194 | the text for the lock file is the joined names of the complete set, in column order |
| `Publisher.Writer.Transfer` | src/kwatcher.c:157-196 | a file that completes a set puts its names into the lock file that is held, releases it and waits for the other one, which is left as it is; any other file changes neither |
| `Publisher.PublishedIsFetched` | src/kwatcher.c:187-196 | from collector to reader: the names cut out of the lock file are one per type, in order, all of files of the completed date |
| `WireFormat.ValueOfBytes` | src/jitcclient.h:27-34 | little-endian bytes give the number back |
| `WireFormat.IntegersRoundTrip` | src/jitcclient.h:27-34 | so do the 32-bit and 64-bit signed fields |
| `WireFormat.CommandRoundTrip` | src/jitcclient.h:27-34 | a record is read back field by field from its 296 bytes, whatever the padding holds |
| `GetTransfer.Head` | src/lwatcher.c:250-250 | a read returns a prefix of the file, of the requested size or all of it |
| `GetTransfer.SpreadHolds` | src/jitcclient.c:354-358 | after spreading, each part is at the sum of the earlier sizes |
| `GetTransfer.SpreadKeeps` | src/jitcclient.c:354-358 | bytes outside the parts keep their value |
| `Connection.Channel.NetWrite` | src/jitcclient.c:138-152 | for any chunking: success exactly if the connection lasts for all bytes; the bytes it lasts for are appended in order |
| `Connection.Channel.NetRead` | src/jitcclient.c:126-136 | for any chunking: success exactly if the connection lasts for size bytes; the bytes it lasts for arrive at their place and nothing else changes |
| `Connection.ReceiveRecord` | src/jitcclient.c:253-268 | a record on its way is received with the same fields exactly if the connection lasts for it |
| `GetTransfer.Served` | src/lwatcher.c:228-235 | as many files take part as sizes before the first zero |
| `GetTransfer.CountServed` | src/lwatcher.c:228-235 | the loop with its break finds that number and the space needed |
| `GetTransfer.FillReply` | src/lwatcher.c:241-259 | the reply is the concatenation of the beginnings of the files that can be opened, never longer than the space reserved, and their counts are their lengths; other counts stay as they were |
| `GetTransfer.BuildReply` | src/lwatcher.c:228-259 | both together; counts of files that do not take part or cannot be opened are not written |
| `GetTransfer.ConcatDrop` | src/jitcclient.c:354-358 | each part is found in a concatenation behind the parts before it |
| `GetExchange.SpreadReply` | src/jitcclient.c:354-358 | the client loop takes the concatenation apart again and puts what arrives of every part into its place; the sizes become the announced counts, whatever arrived |
| `GetExchange.ArrivingIsPrefix` | src/jitcclient.c:354-358 | what arrives of the parts is, put together, the beginning of what was sent |
| `GetExchange.ArrivesWhole` | src/jitcclient.c:354-358 | every part arrives whole if and only if the connection lasts for all bytes; the client reports success in either case |
| `GetExchange.Request` | src/jitcclient.c:339-346 | the server sees the requested sizes, and zeros for the columns not asked for, exactly if the connection lasts |
| `GetTransfer.ServedPadded` | src/lwatcher.c:228-235 | if all requested sizes are positive exactly the requested files take part |
| `GetExchange.Serve` | src/jitcclient.c:234-250 | the answer carries date, names and counts, followed by exactly the announced number of bytes; it counts as sent exactly if the connection takes all of them, and otherwise its beginning was sent |
| `GetExchange.Get` | src/jitcclient.c:326-364 | from request to filled buffer over channels that split and break anywhere: which of its three results the client reports, when the server retires the entry, and what the buffer and the sizes hold, in every case |
| `GetExchange.WholeReplyIsLaidOut` | src/jitcclient.c:353-358 | if it lasts, file i, cut to its size, lies at the sum of the earlier sizes, and all other bytes are untouched |
| `GetDelivery.BufferOfOneDate` | src/lwatcher.c:210-267 | with the history: for a delivery not read too late, what the exchange leaves in the buffer is the beginning of one file of each type, all of the date of the reply, each at the sum of the earlier sizes |
| `JitClient.LocalGet` | src/jitkclient.c:112-127 | the same layout for files read locally; a file that cannot be opened counts as empty, a short list of names ends the loop |
| `JitClient.CastOffsetBound` | src/jitclient.c:109-117 | the offset of the broadcast loop never exceeds the one of the layout, and equals it exactly if the entries skipped so far take no space |
| `JitClient.CastOffsetsRight` | src/jitclient.c:109-117 | the loop broadcasts every entry from its place if and only if no entry without data takes up space before one with data |
| `JitClient.Broadcast` | src/jitclient.c:107-117 | a process that is not the root gets each entry at the offset of the loop, and the counts |
| `JitClient.SameLayoutEverywhere` | src/jitclient.c:107-117 | under that condition every process finds every file where the root put it |
| `JitClient.EmptyFileShifts` | src/jitclient.c:111-116 | an empty first file moves the place at which the second one is looked for |
| `JitKClient.Reader.OpenFiles` | src/jitkclient.c:112-120 | the files looked up are those of the names in the buffer |
| `JitKClient.Reader.JitGet` | src/jitkclient.c:94-132 | a call succeeds exactly if the lock file due does not read as empty; then the published files are laid out in the buffer, their names are returned and the lock file is zeroed; their list has no separator at its end; otherwise buffer, sizes and lock file stay; in both cases the other lock file is due next |
| `JitKClient.NameListIs` | src/jitkclient.c:111-129 | the list of names that a call returns has the first names, as many as were asked for, with a separator between them and none at the end, and nothing else |
| `ConfigLexer.Lex` | src/regexplib.c:78-145 | a call of gettoken never lengthens the text, and consumes some of it whenever it returns a positive token or any text is left behind layout |
| `ConfigLexer.TokensByCalls` | src/regexplib.c:78-145 | the tokens of a text are what repeated calls return |
| `ConfigLexer.LeadingLayout` | src/regexplib.c:60-75 | blanks, semicolons and comments in front of a text do not change its tokens |
| `ConfigLexer.LexLocal` | src/regexplib.c:78-145 | a token that ends before a text is read the same way if any layout follows it instead |
| `ConfigLexer.ReplaceRest` | src/regexplib.c:60-145 | what follows any token may be replaced by any text with the same tokens that ends that token as well |
| `ConfigLexer.InsertLayout` | src/regexplib.c:60-145 | layout inserted between any token and the text behind it changes no token of the file |
| `ConfigAppend.ClosedAbsorbs` | src/regexplib.c:60-145 | layout appended to a file whose last token is not open changes no token; a final newline or an unfinished comment absorbs it |
| `ConfigAppend.OpenChanges` | src/regexplib.c:106-122 | a comment appended to a file whose last token is open changes the tokens: a final dollar sign, a quoted text without its end, a number that just fills the buffer |
| `ConfigAppend.AppendExactly` | src/regexplib.c:60-145 | appending layout never changes the tokens if and only if the last token is not open, which can be read off the text |
| `ConfigAppend.AppendedComment` | src/regexplib.c:108-111 | concrete file for which appending a comment does change the tokens: it ends in a dollar sign |
| `ConfigLexer.LexEscaped` | src/regexplib.c:114-124 | a quoted text with its backslashes doubled is read back, and the text behind it is left |
| `ConfigLexer.LexSpelled` | src/regexplib.c:78-145 | every way to write a token, numbers and positions included, is read as that token, without consuming anything behind it |
| `ConfigTokens.LayoutExactly` | src/regexplib.c:60-75 | for any text, what is skipped in front of a token is exactly the layout there, and the token starts with the next character |
| `ConfigTokens.WordExactly` | src/regexplib.c:85-105 | a word goes on as far as it can, but at most for 128 characters; that many are an error and are consumed |
| `ConfigTokens.KeywordExactly` | src/regexplib.c:96-104 | a word is a keyword exactly if it is one of the seven names |
| `ConfigTokens.NumberExactly` | src/regexplib.c:134-144 | so does a number, but when it is too long one more character is consumed |
| `ConfigTokens.NumberStarts` | src/regexplib.c:106-110 | a number starts with a digit; behind a dollar sign it may start with any character, or be missing |
| `ConfigTokens.StringExactly` | src/regexplib.c:112-124 | a quoted text consists of printable characters other than the quote, with or without a backslash; the first other character ends it, even a backslashed quote or one that cannot be printed, or the end of the file; with 127 characters or more it is an error |
| `ConfigTokens.SymbolExactly` | src/regexplib.c:124-132 | braces and equal signs are tokens, any other character is an error token of its own |
| `ConfigLexer.RenderRoundTrip` | src/regexplib.c:60-145 | a token sequence written with any layout is read back as it was |
| `ConfigParser.FieldParses` | src/regexplib.c:33-38 | a setting reaches its own field only |
| `ConfigParser.LooseSetting` | src/regexplib.c:33-38 | a setting is refused exactly if both tokens behind the keyword are wrong; if only the second is, an older text is stored |
| `ConfigParser.LooseRegion` | src/regexplib.c:164-167 | the head of a region is refused exactly if both of its tokens are wrong; if only the second is right, its name is an older text |
| `ConfigParser.LooseType` | src/regexplib.c:195-200 | likewise an entry of the list of sync types |
| `ConfigGrammar.TopToken` | src/regexplib.c:161-208 | between sections only the two section keywords go on: an error token or the end finishes the table, every other token makes the file a format error |
| `ConfigGrammar.RegionToken` | src/regexplib.c:168-186 | in a region a closing brace ends it and counts it, an error token ends it without counting it, and anything but a setting makes the file a format error |
| `ConfigGrammar.SyncToken` | src/regexplib.c:190-205 | in the list of sync types a closing brace or an error token ends it, and anything but a type makes the file a format error |
| `ConfigGrammar.DerivationIsRead` | src/regexplib.c:161-214 | every sequence of sections of the grammar, loose settings and sections cut short included, is read as what its sections do to the table one after the other |
| `ConfigGrammar.AcceptedExactly` | src/regexplib.c:161-220 | a token sequence is accepted if and only if the grammar, which does not mention the parser, derives it with room for its regions and types; it is refused for having too many if and only if it is derived up to the first one without room; and it is a format error in all other cases |
| `ConfigParser.FieldsParse` | src/regexplib.c:168-186 | settings in any order and number: the last one of a keyword wins |
| `ConfigParser.RegionParses` | src/regexplib.c:162-186 | a region becomes the next record, or the file is refused if there are forty already |
| `ConfigParser.TypesParse` | src/regexplib.c:190-205 | a list of sync types is appended in order, or refused if it exceeds ten in all |
| `ConfigParser.SectionsParse` | src/regexplib.c:147-214 | any sequence of regions and sync sections is understood from any state of the table: each region is read over the record it meets, the types are appended, and it is refused exactly if they do not fit |
| `ConfigParser.ConfigRoundTrip` | src/regexplib.c:147-214 | however a configuration is laid out, reading it gives its regions and sync types; it is refused if and only if there are too many of either |
| `ConfigPrinter.ReadableTexts` | src/regexplib.c:87-124 | a text can be the value of some token if and only if it is a name of at most 127 characters that is no keyword, or at most 126 printable characters without a quote |
| `ConfigPrinter.PrintRoundTrip` | src/regexplib.c:147-214 | a printed configuration is read back as what it means |
| `ConfigPrinter.TableRoundTrip` | src/regexplib.c:147-214 | a printed table of up to forty regions and ten sync types is read back identically, with both counts |
| `ConfigPrinter.NoValueAccepted` | src/regexplib.c:33-38 | concrete family of malformed files that are accepted: a second equals sign in place of a value stores the name of the region |
| `ConfigRoundTrip.PrintAndRead` | src/regexplib.c:147-221 | printing any table and running the reader on the text fills the global table with the same regions and types and sets both counts |
| `ConfigRoundTrip.PrintAndReadSections` | src/regexplib.c:147-221 | printed sections are read as what they mean, or refused exactly if there are too many regions or types |
| `ConfigReader.Stream.SkipBlank` | src/regexplib.c:60-75 | the loops over blanks and comments stop at the first other character, having skipped only layout |
| `ConfigReader.Stream.ReadWord` | src/regexplib.c:88-92 | the word loop stays within its buffer and collects the longest word that fits |
| `ConfigReader.Stream.GetWord` | src/regexplib.c:87-104 | with ungetc, the length check and the keyword search, this is the word token of the specification |
| `ConfigReader.Stream.FindKey` | src/regexplib.c:96-104 | the search through the keyword table decides between keyword and text |
| `ConfigReader.Stream.GetNumber` | src/regexplib.c:134-144 | the number token, including the character that an overlong number swallows |
| `ConfigReader.Stream.ReadString` | src/regexplib.c:114-122 | the loop over a quoted text stays within its buffer and handles escapes and the end of the file as specified |
| `ConfigReader.Stream.LexToken` | src/regexplib.c:78-145 | one call on the stream is one step of the specification |
| `ConfigReader.Stream.GetToken` | src/regexplib.c:78-145 | each call returns the next token of the text and leaves the others; only a text token changes the buffer of the caller |
| `ConfigReader.Config.SetSlot` | src/regexplib.c:173-182 | the text goes to the field that belongs to the keyword; all other fields of the record and all other records stay |
| `ConfigReader.Config.ReadRegion` | src/regexplib.c:168-186 | the loop over the body of a region does what the parser does with it |
| `ConfigReader.Config.ReadSync` | src/regexplib.c:190-205 | the loop over the sync section does what the parser does with it, and a failure is one of the two error exits |
| `ConfigReader.Config.ReadConf` | src/regexplib.c:147-221 | the reader terminates; its global table and counts are what the parser makes of the tokens of the file, exactly if the grammar accepts them; otherwise it takes the one error exit or the other, exactly as the grammar says, never a table |
| `ConfigReader.Config.SyncEntry` | src/regexplib.c:300-309 | the first column with the type, or -1 exactly if there is none |

## Left out

- HistoryRing.History.constructor: requires a history that fits its array of MAX_HISTORY slots; the program takes any number from its command line and then uses slots behind the array.
- HistoryRing.History.HistPut: requires `tent != FNAME_MAX`, which the guard at src/misclib.c:284 lets through, so that the program writes behind the array; and a date other than 0, because 0 marks unused slots, which the backward search would take for entries of that date.
- HistoryRing.History.HistGet: is one pass of the loop; the wait itself is a step of HistoryRun, and `WokenUp` takes the waiter out of the count again.
- LWatcher.Watcher: requires that the type is not in column FNAME_MAX and the date not 0, for the same reasons; what the file name patterns read is a parameter.
- HistoryRun.SecondWaitSeesNoPut: promises less than the absence of lost wakeups, because histwait does not keep it; see SecondWaitCanBeLate.
- HistoryDelivery.RepliesExactlyProper: is about the names of a reply; that a file cannot be opened is part of GetTransfer only.
- KWatcher.Groups.constructor: requires a history that fits its array of MAX_HISTORY slots, as above.
- Publisher.Writer.Transfer: ends where the lock is released; `TakeLock` is the end of the wait for the other one, and what readers do meanwhile is LockProtocol.
- Connection.Channel.NetRead: a read that would wait for ever is not covered: if the connection lasts, the bytes asked for are on their way. A peer that closes in the middle of a message makes the source loop for ever.
- GetExchange.Get: covers requests whose sizes are all positive, at most as many as the server serves, for files that can be opened; the counts of other columns are whatever was on the server's stack. A server that loses the request leaves the client waiting, which is covered only if the connection breaks for the client too.
- LockFile.LockFile.LockedWrite: writes always succeed, as do renames, reads of files and memory allocation everywhere.
- JitKClient.Reader.JitGet: with more than three sizes and three names the source goes on to an entry of its list that was never set, here the list ends; it takes the lock as given (LockProtocol covers the waiting); for a set without names the source writes in front of the caller's name string, here the string is empty.
- JitClient.Broadcast: models the messages of one non-root process; MPI itself is left out.
- ConfigReader.Config.ReadConf: the value of numeric tokens and the line number of error messages are not modelled; text is seven-bit, so that no character equals EOF.
- Readers that crash between reading and zeroing a lock file, and `_jitopen` leaving a lock held.
- LockSteps.GetSteps: is about a call once it has its lock, in one piece, because no other process touches the file before the unlock (LockProtocol.LockedIsStable); a reader that rests is not distinguished from one that is blocked on its lock.
- READ and OPEN replies, STATUS, and everything about the message formats but the GET exchange; in that, the text with the names of the files is a parameter of `Serve`.
- POSIX regular expressions and the expansion of `$` positions in patterns.
- inotify, sockets, scp, sftp and HTTP transfer, daemonizing, options, logging, date formatting.
