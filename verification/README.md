# A verified model of system_program

The repository is a set of C teaching programs. This project models its stateful core in Dafny and proves
what the programs are for: a linked list with iterators (`OList`), an event and timer loop built on two
such lists (`OMainLoop`), a sliding-window byte buffer that cuts frames out of a stream (`OBuffer`),
accounts and a writer/reader pair that synchronise through semaphores, a file lock, a buffered I/O
layer (`mstdio`) and a dictionary search that gives up early.

Objects whose C functions update their fields are classes (`OList`, `OMainLoop`, `OBuffer`, `MFile`,
`Account`, `SemSet`). Each of their methods is proved equal to a function on plain values, and the theorems are
about those functions. Programs that run beside each other are step systems whose runs are all sequences
of actions, so a theorem about runs is a theorem about every interleaving.

| file | content |
|---|---|
| `Wrappers.dfy` | optional values |
| `CStrings.dfy` | bytes, C strings, first-occurrence search |
| `FrameRules.dfy` | the matching rules, greedy search, draining, chunking, framing |
| `BufferMemory.dfy` | the buffer's memory block, stale bytes included; when the code's search is the promised one |
| `BufferRuns.dfy` | whole runs on that memory: window invariant, draining, feeding |
| `OBuffer.dfy` | the `OBuffer` class |
| `OList.dfy` | the `OList` class |
| `KeyedLists.dfy`, `EventRegistry.dfy` | lists searched by key as maps; the registry of the main loop |
| `Timers.dfy` | timer arithmetic and what the kernel makes of it |
| `Dispatch.dfy` | one dispatch pass while callbacks change the lists |
| `Lifetime.dfy` | calls from outside and rounds in any order |
| `OMainLoop.dfy` | the `OMainLoop` class |
| `AccountProtocol.dfy`, `Accounts.dfy` | N processes or threads on one account; one caller on its own |
| `Handshake.dfy` | the writer and the reader |
| `LockWrite.dfy` | processes writing one file under a lock |
| `StdioSpec.dfy`, `Mstdio.dfy` | buffered I/O: meaning and class |
| `Dictionary.dfy` | the early-exit search |

## What the code does differently from its comments

The model follows the code; each point has its lemma.

- **Stale bytes (OBuffer.c:169-217).** `strstr` searches the memory up to the first NUL, not the `len` buffered bytes, and
  a shift leaves old bytes behind the data. A match that ends in them makes the length negative and passes it
  to `memcpy`. `SearchIsPromisedIff` gives the exact condition for one call. On NUL-free data only the call
  that ought to answer -1 is affected: `DrainMemoryIsDrain` says from the block before the first call when it is,
  `CleanIff` does so for a whole stream of chunks, `UsedUpOverruns` shows that it is whenever the frames
  use up the buffer, and `ZeroTailSearchFits` that the first frame after `bClear` is always right.
- **R_TAIL_ONLY (OBuffer.c:206-219)** never sets `out->len` (`ReportedLengthIff`).
- **initOBufferObj (OBuffer.c:279)** defaults to 1024 for a negative size only; the header says zero as well
  (`DefaultSizeIff`).
- **ioEventAdd (OMainLoop.c:88)** replaces the event mask; the comment says it is OR-ed in (`MaskIsMergedIff`,
  `ReRegistrationLosesABit`).
- **One-shot timers (OMainLoop.c:488-498)** are not removed after firing (`OneShotSurvivesIff`).
- **timerAddMs (OMainLoop.c:321)** returns 0, not the id (`ZeroIsTheTimerIff`).
- **RUN_AT in milliseconds (OMainLoop.c:274-279)** drops the milliseconds and never fires for a target in the current
  second (`RunAtPrecision`); **timerAdd (OMainLoop.c:195-216)** reads the clock twice (`SecondReadingRace`,
  `SecondReadingDelays`).
- **Timer callbacks (OMainLoop.c:494)** are promised their due time and get the current second (`PassedTimeIsDueIff`).
- **One fd on both lists** can get two callbacks in a pass (`OneCallbackIff`).
- **mstdio** cannot tell the byte 0xFF from the end of file (`RoundTripIff`), and `mfflush` drops what a short write
  leaves over (`ClosedFileIff`); after a short write on a full buffer `mfputc` writes bytes twice (`CutShortRepeatsIff`).
- **SEM_UNDO (sem_reader_writer.c:81-83)**: a reader that exits before the writer's last P takes its signals back and
  strands the writer (`FinishesIffBeforeExit`, `EarlyExitStrandsTheWriter`).
- **account.c** has no undo: a lock that dies with its holder is lost for ever (`LostLockIsForEver`).
- **do_searchword (dict/src/server.c:160-164)** misses a word that stands behind a longer word beginning with it
  (`EarlyExitIff`); a sorted dictionary rules that out (`SortedIsSound`), and so does any order that puts no key
  behind a longer one (`SoundIffPrefixFirst`). A definition of 256 bytes or more overflows the reply (`AnswerIsEntryIff`).

## Model

| member | source | states |
|---|---|---|
| FrameRules.HeadTailComplete | libcmpt/lib/libcmpt/src/OBuffer.c:167-185 | taking the first head loses nothing: a frame is found iff some head is followed by a non-overlapping tail; it is itself a head with a tail behind it, and starts and ends no later than any other |
| FrameRules.TailOnlyComplete | libcmpt/lib/libcmpt/src/OBuffer.c:206-219 | the tail rule finds a frame iff the tail occurs; it is everything from the start of the data through the first tail |
| FrameRules.HeadLenComplete | libcmpt/lib/libcmpt/src/OBuffer.c:187-204 | the head-and-length rule finds a frame iff n bytes are buffered from the first head on; it is exactly those |
| FrameRules.LenOnlyComplete | libcmpt/lib/libcmpt/src/OBuffer.c:221-233 | the length rule takes the first n bytes iff that many are there, no rule takes everything |
| FrameRules.RulesStream | libcmpt/lib/libcmpt/src/OBuffer.c:167-233 | with non-empty markers and positive lengths every rule is streaming: progress on each frame, and more input never changes a found frame |
| FrameRules.DrainMore | libcmpt/lib/libcmpt/src/OBuffer.c:148-251 | extracting until failure, appending and extracting again gives what extracting once from all the data gives |
| FrameRules.ChunkingIndependence | libcmpt/lib/libcmpt/src/OBuffer.c:43-78 | for any split of the stream, frames and residue are those of the unsplit stream |
| FrameRules.DeframingUndoesFraming | libcmpt/lib/libcmpt/src/OBuffer.c:167-185 | concatenated head/body/tail frames come back one by one, in order, with nothing left |
| BufferMemory.AppendKeepsNewest | libcmpt/lib/libcmpt/src/OBuffer.c:43-78 | in all branches of bAppend the buffer afterwards is the newest bytes of old data and input, as many as fit |
| BufferMemory.RemoveDropsOldest | libcmpt/lib/libcmpt/src/OBuffer.c:86-101 | bRemove drops exactly the oldest n bytes, or everything when fewer are there |
| BufferMemory.RemoveBytes | libcmpt/lib/libcmpt/src/OBuffer.c:86-101 | every byte of the block after bRemove, stale ones included |
| BufferMemory.DefaultSizeIff | libcmpt/lib/libcmpt/src/OBuffer.c:279-279 | the block has the promised size iff the requested size is not 0, for which it is empty |
| BufferMemory.ReportedLengthIff | libcmpt/lib/libcmpt/src/OBuffer.c:206-219 | out->len is the frame's length iff the rule is not the tail rule or the caller had put it there before |
| BufferMemory.SearchIsPromisedIff | libcmpt/lib/libcmpt/src/OBuffer.c:167-233 | for every memory and rule, the code's search equals a search of the buffered bytes iff no match ends in stale bytes and no wanted match lies behind a NUL |
| BufferMemory.TextNeedsOnlyTheGuard | libcmpt/lib/libcmpt/src/OBuffer.c:167-233 | on NUL-free data that condition is the missing bounds check, and head-and-length frames that contain their head never fail it |
| BufferMemory.ZeroTailKept | libcmpt/lib/libcmpt/src/OBuffer.c:43-112 | appends with or without eviction, bClear and failed extractions keep the memory behind the data zero |
| BufferMemory.ZeroTailSearchFits | libcmpt/lib/libcmpt/src/OBuffer.c:148-251 | with zeros behind NUL-free data the C string is the data, so the extraction is the promised one |
| BufferRuns.EveryRunIsAWindow | libcmpt/lib/libcmpt/src/OBuffer.c:43-251 | after any sequence of append, remove, clear and extract that did not overrun, the stream is the concatenation of what was appended, the buffer is its last len bytes, and the frames the extract calls handed out are disjoint pieces of it in order |
| BufferRuns.DrainMemoryIsDrain | libcmpt/lib/libcmpt/src/OBuffer.c:148-251 | on NUL-free data repeated calls deliver exactly the promised frames and leave exactly the promised residue, followed by stale bytes given in terms of the initial block; the last call overruns instead of failing iff residue and stale bytes match the rule again, which length rules never do |
| BufferRuns.CallOnText | libcmpt/lib/libcmpt/src/OBuffer.c:148-251 | one call on NUL-free data yields a frame iff one is promised, and then that one |
| BufferRuns.FrameOnText | libcmpt/lib/libcmpt/src/OBuffer.c:148-251 | ... the bytes handed out are that frame and the bytes kept are those behind it |
| BufferRuns.NoRuleTakesAll | libcmpt/lib/libcmpt/src/OBuffer.c:157-164 | without a rule everything is handed out and the whole block is zero afterwards |
| BufferRuns.EmptyResidueOverruns | libcmpt/lib/libcmpt/src/OBuffer.c:179-182 | when a marked frame empties the buffer the next call matches it again and overruns |
| BufferRuns.UsedUpOverruns | libcmpt/lib/libcmpt/src/OBuffer.c:148-251 | draining ends in an overrun on every NUL-free buffer that its frames use up exactly |
| BufferRuns.DeframingOnMemory | libcmpt/lib/libcmpt/src/OBuffer.c:167-185 | framed text in a fresh buffer: all frames in order, empty buffer, and the overrun |
| BufferRuns.CleanIff | libcmpt/lib/libcmpt/src/OBuffer.c:43-251 | feeding chunk by chunk evicts and overruns nowhere iff buffer and chunks are clean: every chunk fits, and no drained block matches the rule again; length rules never overrun |
| BufferRuns.FeedMemoryIsDrain | libcmpt/lib/libcmpt/src/OBuffer.c:43-251 | chunking independence of the code itself: on clean NUL-free input every split gives the frames and residue of the whole stream |
| OBuffers.OBuffer.constructor | libcmpt/lib/libcmpt/src/OBuffer.c:261-295 | a fresh zeroed block, 1024 bytes for a negative size |
| OBuffers.OBuffer.MoveDown | libcmpt/lib/libcmpt/src/OBuffer.c:67-67 | the overlapping front shift, as a forward copy, puts the old bytes at the front and leaves the rest |
| OBuffers.OBuffer.Append | libcmpt/lib/libcmpt/src/OBuffer.c:43-78 | the newest bytes of old data and input, as many as fit; the rest of the block untouched |
| OBuffers.OBuffer.Remove | libcmpt/lib/libcmpt/src/OBuffer.c:86-101 | every byte of the block and the length after bRemove |
| OBuffers.OBuffer.Clear | libcmpt/lib/libcmpt/src/OBuffer.c:108-112 | all zero, length zero |
| OBuffers.OBuffer.StrStr | libcmpt/lib/libcmpt/src/OBuffer.c:169-172 | strstr finds the first occurrence in the memory before its first NUL |
| OBuffers.OBuffer.GetDataByRule | libcmpt/lib/libcmpt/src/OBuffer.c:148-251 | for all six rules the outcome, the frame, the reported length and the whole block afterwards |
| OLists.OList.constructor | libcmpt/lib/libcmpt/src/OList.c:470-509 | an empty valid list |
| OLists.OList.Insert | libcmpt/lib/libcmpt/src/OList.c:52-113 | append for null, nothing for a foreign node, otherwise insertion before that node in the node and value sequences, between it and its former predecessor; all iterators stay live with their values |
| OLists.OList.Append | libcmpt/lib/libcmpt/src/OList.c:123-162 | one new node and value at the end, links mirrored |
| OLists.OList.Update | libcmpt/lib/libcmpt/src/OList.c:173-191 | replaces exactly the value at the iterator, or answers null |
| OLists.OList.Size | libcmpt/lib/libcmpt/src/OList.c:200-203 | the number of nodes reachable from head |
| OLists.OList.At | libcmpt/lib/libcmpt/src/OList.c:212-223 | the i-th value, none past the end, the first for a negative index |
| OLists.OList.Value | libcmpt/lib/libcmpt/src/OList.c:233-249 | the value of a live iterator, none for any other |
| OLists.OList.IterAt | libcmpt/lib/libcmpt/src/OList.c:259-270 | the i-th node, null past the end |
| OLists.OList.Begin | libcmpt/lib/libcmpt/src/OList.c:279-282 | the first node or null |
| OLists.OList.End | libcmpt/lib/libcmpt/src/OList.c:291-296 | null in every valid list |
| OLists.OList.Next | libcmpt/lib/libcmpt/src/OList.c:306-325 | the successor in the spine, null behind the last and for foreign nodes |
| OLists.OList.Prev | libcmpt/lib/libcmpt/src/OList.c:335-354 | the predecessor in the spine, the last node for the end iterator |
| OLists.OList.StepsCancel | libcmpt/lib/libcmpt/src/OList.c:306-354 | prev after next returns to every member including the last; next after prev to all but the first |
| OLists.OList.Erase | libcmpt/lib/libcmpt/src/OList.c:362-415 | removes exactly that node and value, whichever branch; every other iterator stays live with its value |
| OLists.OList.EraseAt | libcmpt/lib/libcmpt/src/OList.c:423-434 | removes the i-th element, nothing past the end |
| OLists.OList.Clear | libcmpt/lib/libcmpt/src/OList.c:441-461 | an empty valid list, all nodes cut off |
| OLists.OList.Collect | libcmpt/lib/libcmpt/src/OMainLoop.c:152-156 | the begin/next/end loop terminates and visits every element once, in order |
| KeyedLists.WithIsUpdate | libcmpt/lib/libcmpt/src/OMainLoop.c:82-102 | replace-or-append on the list is a map update |
| KeyedLists.WithPositions | libcmpt/lib/libcmpt/src/OMainLoop.c:82-102 | it keeps every position, grows the list only for a new key and keeps keys unique |
| KeyedLists.WithoutIsRemoval | libcmpt/lib/libcmpt/src/OMainLoop.c:122-132 | erasing the first match of a list with unique keys removes the key from the map |
| EventRegistry.StepKeepsRegOk | libcmpt/lib/libcmpt/src/OMainLoop.c:75-375 | io fds and timer ids stay unique, and the kernel never runs a timer that is not listed |
| EventRegistry.DisarmAll | libcmpt/lib/libcmpt/src/OMainLoop.c:367-372 | timerClear's loop switches off exactly the listed timers |
| EventRegistry.ExecRefinesTable | libcmpt/lib/libcmpt/src/OMainLoop.c:75-375 | every call on the two lists is the corresponding operation on two finite maps |
| EventRegistry.MaskIsMergedIff | libcmpt/lib/libcmpt/src/OMainLoop.c:88-88 | for every registered fd the stored mask is the promised OR of old and new iff the old mask has no bit outside the new one |
| EventRegistry.ReRegistrationLosesABit | libcmpt/lib/libcmpt/src/OMainLoop.c:88-88 | registering for input and then for output leaves only output watched |
| EventRegistry.ZeroIsTheTimerIff | libcmpt/lib/libcmpt/src/OMainLoop.c:310-321 | deleting the 0 that timerAddMs returns deletes the new timer iff its descriptor is 0; deleting the descriptor always does |
| EventRegistry.SecondsFire | libcmpt/lib/libcmpt/src/OMainLoop.c:177-237 | timerAdd with one clock reading: the entry listed and every expiry the kernel will deliver, in the caller's time and start, for all three kinds |
| EventRegistry.SecondsFireLate | libcmpt/lib/libcmpt/src/OMainLoop.c:177-237 | timerAdd with two readings: due, silent or refused as the due time lies to the second reading, and what is listed |
| EventRegistry.MillisecondsFire | libcmpt/lib/libcmpt/src/OMainLoop.c:256-322 | timerAddMs: the entry listed and every expiry, in milliseconds, for all three kinds |
| EventRegistry.NegativePeriodRefused | libcmpt/lib/libcmpt/src/OMainLoop.c:290-309 | a negative period is refused and its descriptor left behind, switched off |
| Timers.MillisecondsAccepted | libcmpt/lib/libcmpt/src/OMainLoop.c:271-302 | non-negative times give settings the kernel accepts, periodic timers accept no other |
| Timers.TruncatesTowardsZero | libcmpt/lib/libcmpt/src/OMainLoop.c:283-294 | quotient and remainder of the milliseconds are those of C |
| Timers.PeriodicExpiry | libcmpt/lib/libcmpt/src/OMainLoop.c:290-302 | the k-th expiry comes exactly k periods after the start point |
| Timers.DelayExpiry | libcmpt/lib/libcmpt/src/OMainLoop.c:280-289 | a delay timer fires once, at its delay behind the start point, and never if both are zero |
| Timers.SecondsAgree | libcmpt/lib/libcmpt/src/OMainLoop.c:191-217 | on whole seconds and one clock reading timerAdd and timerAddMs arm the same setting |
| Timers.RunAtPrecision | libcmpt/lib/libcmpt/src/OMainLoop.c:274-279 | a millisecond RUN_AT timer never fires iff its target is before the next second, and otherwise is exact iff the dropped fractions agree |
| Timers.SecondReadingRace | libcmpt/lib/libcmpt/src/OMainLoop.c:193-198 | a RUN_AT target ahead at the first clock reading fires iff it is still ahead at the second |
| Timers.SecondReadingDelays | libcmpt/lib/libcmpt/src/OMainLoop.c:200-217 | delays and periods: the first expiry is the due one iff the due time is ahead at the second clock reading, the timer is silent iff it is just reached and refused iff it has passed |
| Timers.OneReadingDelays | libcmpt/lib/libcmpt/src/OMainLoop.c:200-217 | with equal readings a delay is never refused, and silent only for time 0 and a start that has passed |
| Timers.PassedTimeIsDueIff | libcmpt/lib/libcmpt/src/OMainLoop.c:494-494 | the time passed to a timer callback is its due time iff that has no milliseconds and the callback runs in the due second |
| Dispatch.SnapshotAsks | libcmpt/lib/libcmpt/src/OMainLoop.c:424-442 | poll is asked for the registered events, as far as a short holds them, and for input of timers |
| Dispatch.EntryRuns | libcmpt/lib/libcmpt/src/OMainLoop.c:461-503 | the calls of an io or timer callback have taken effect before the next entry; an entry not ready or without a callback when its turn comes changes nothing |
| Dispatch.ExecAllLast | libcmpt/lib/libcmpt/src/OMainLoop.c:476-494 | a callback's calls are made one after the other |
| Dispatch.EntryEffects | libcmpt/lib/libcmpt/src/OMainLoop.c:461-503 | which callback an entry calls, with which arguments, and when the timer is read, from the two lists at its turn; io before timer |
| Dispatch.PassRefinesTable | libcmpt/lib/libcmpt/src/OMainLoop.c:461-503 | whatever callbacks do during the pass, the lists before every entry stand for the maps of a pass over maps |
| Dispatch.TraceRefinesTable | libcmpt/lib/libcmpt/src/OMainLoop.c:461-503 | every entry's effect is the one the maps prescribe, io before timer, a timer callback with the current second |
| Dispatch.DeregisteredStaysSilent | libcmpt/lib/libcmpt/src/OMainLoop.c:461-503 | an fd deregistered earlier in the pass and not registered again causes nothing |
| Dispatch.UntouchedIsServed | libcmpt/lib/libcmpt/src/OMainLoop.c:461-503 | an fd no callback touches before its turn is served as registered before the pass |
| Dispatch.AtMostOneCallback | libcmpt/lib/libcmpt/src/OMainLoop.c:424-503 | with disjoint io and timer fds every fd gets at most one callback per pass, for all callbacks |
| Dispatch.ExactlyOneCallback | libcmpt/lib/libcmpt/src/OMainLoop.c:424-503 | with disjoint io and timer fds, and whatever callbacks do, an fd of the poll array gets exactly one callback in the whole pass if it is ready and has one registered when its turn comes, and none otherwise |
| Dispatch.RoundCallsExactly | libcmpt/lib/libcmpt/src/OMainLoop.c:424-505 | with disjoint io and timer fds, a round in which poll reports something calls every fd exactly once that is ready and has a callback when its turn comes, and no other |
| Dispatch.RoundCallsAtMostOnce | libcmpt/lib/libcmpt/src/OMainLoop.c:424-505 | with disjoint io and timer fds a round calls back at most once per fd, for every answer of poll |
| Dispatch.OneCallbackIff | libcmpt/lib/libcmpt/src/OMainLoop.c:424-503 | at most one callback per fd in every pass, for all poll answers and callbacks, iff no fd is on both lists, except behind io entries that have no callback |
| Dispatch.OneShotSurvivesIff | libcmpt/lib/libcmpt/src/OMainLoop.c:482-499 | at any point of a pass a timer of any kind is still registered, unchanged, iff no callback until then deleted it or cleared all timers |
| OMainLoops.FindKey | libcmpt/lib/libcmpt/src/OMainLoop.c:83-94 | the iterator loop stops at the first entry with the key, or at the end if there is none |
| OMainLoops.ScanFor | libcmpt/lib/libcmpt/src/OMainLoop.c:468-481 | the index loop finds the first entry with the key |
| OMainLoops.SecondsSpec | libcmpt/lib/libcmpt/src/OMainLoop.c:191-217 | the assignments of timerAdd give the specified setting |
| OMainLoops.MillisecondsSpec | libcmpt/lib/libcmpt/src/OMainLoop.c:271-302 | the assignments of timerAddMs give the specified setting |
| OMainLoops.OMainLoop.IoEventAdd | libcmpt/lib/libcmpt/src/OMainLoop.c:75-106 | the whole registry after ioEventAdd: a map update of the io fds, everything else as before |
| OMainLoops.OMainLoop.IoEventDel | libcmpt/lib/libcmpt/src/OMainLoop.c:116-137 | the whole registry after ioEventDel: the fd removed, everything else as before; 0 iff it was registered |
| OMainLoops.OMainLoop.TimerAdd | libcmpt/lib/libcmpt/src/OMainLoop.c:177-237 | registry, kernel setting and result of timerAdd, failures included; for a positive time and equal clock readings every expiry |
| OMainLoops.OMainLoop.TimerAddMs | libcmpt/lib/libcmpt/src/OMainLoop.c:256-322 | registry, kernel setting and result of timerAddMs, failures included; for a positive time every expiry |
| OMainLoops.OMainLoop.TimerDel | libcmpt/lib/libcmpt/src/OMainLoop.c:331-352 | the timer with this id is removed and will not fire again, nothing else changes |
| OMainLoops.OMainLoop.TimerClear | libcmpt/lib/libcmpt/src/OMainLoop.c:359-375 | no listed timer will fire again, and the list is empty |
| OMainLoops.OMainLoop.BuildPoll | libcmpt/lib/libcmpt/src/OMainLoop.c:424-442 | the poll array lists all io fds, then all timers |
| OMainLoops.OMainLoop.Match | libcmpt/lib/libcmpt/src/OMainLoop.c:464-500 | the two inner loops pick the live registration of the fd, and call it with its own argument |
| OMainLoops.OMainLoop.DispatchPass | libcmpt/lib/libcmpt/src/OMainLoop.c:461-503 | the loop over the snapshot with callbacks changing the lists is the specified pass |
| Lifetimes.EveryLifeIsTwoMaps | libcmpt/lib/libcmpt/src/OMainLoop.c:75-505 | from creation on, for calls from outside and rounds in any order: fds and timer ids are distinct, no unlisted timer runs, and the two lists behave as two maps |
| OMainLoops.OMainLoop.Round | libcmpt/lib/libcmpt/src/OMainLoop.c:424-505 | one round of doEventLoop: nothing after a timeout or error of poll; otherwise, when the lists share no fd, exactly the callbacks that are due; the registry stays sound |
| AccountProtocol.SemaphorePlusHolders | 06_ipc/src/shm_account.c:11-59 | in every interleaving with deaths anywhere, semaphore value plus holders is one; with undo all holders are alive and inside |
| AccountProtocol.Linearisable | 06_ipc/src/shm_account.c:11-59 | every run's results and balance are those of a serial log in critical-section order, in which get_balance answers the balance at its turn, withdraw and deposit the amount they moved; for every process the log holds exactly the operations it called, in call order, save the one under way, and death loses at most one |
| AccountProtocol.BalanceConserved | 06_ipc/src/shm_account.c:11-59 | the stored balance is the initial one plus the deposits minus the withdrawals of the log, whose operations are those the processes called, and never negative |
| AccountProtocol.StoreIsEffect | 06_ipc/src/shm_account.c:21-24 | a store writes the serial result of its operation: no update is lost |
| AccountProtocol.RunKeepsInv | 05_thread/src/account.c:33-94 | lock, copied balances, told results and replayed log stay consistent over whole runs, for processes and threads |
| AccountProtocol.DeathFreesIff | 06_ipc/src/sem_pv.c:43-68 | a holder's death frees the semaphore iff its operations carried SEM_UNDO |
| AccountProtocol.LostLockIsForEver | 05_thread/src/account.c:33-94 | without undo nobody enters again after a holder's death and the balance stays |
| AccountProtocol.SomebodyCanStep | 06_ipc/src/shm_account.c:11-59 | no deadlock unless a holder died without undo |
| AccountProtocol.EntersIff | 05_thread/src/account.c:33-94 | a call gets past its P iff the semaphore is free, except the deposit that account.c refuses before it |
| AccountProtocol.StepsMakeProgress | 06_ipc/src/shm_account.c:11-59 | every step brings its own operation closer to returning and moves no other process |
| AccountProtocol.AloneIsSerial | 06_ipc/src/shm_account.c:11-59 | a process that finds the semaphore free and runs alone returns the serial result and leaves the serial balance, with semaphore and adjustment as before: what the contracts of Accounts.Account promise |
| Accounts.SemSet.constructor | 06_ipc/src/sem_pv.c:16-40 | all semaphores start at the value cut to an unsigned short |
| Accounts.SemSet.P | 06_ipc/src/sem_pv.c:43-54 | lowers one semaphore and raises the caller's adjustment by the same amount |
| Accounts.SemSet.V | 06_ipc/src/sem_pv.c:57-68 | raises one semaphore and lowers the caller's adjustment by the same amount |
| Accounts.Account.Withdraw | 06_ipc/src/shm_account.c:11-28 | moves the amount if it is non-negative and covered, else nothing, and answers what it moved; semaphore and adjustments as before |
| Accounts.Account.Deposit | 06_ipc/src/shm_account.c:31-48 | adds the amount if it is non-negative, else nothing, and answers what it added; semaphore and adjustments as before |
| Accounts.Account.GetBalance | 06_ipc/src/shm_account.c:50-59 | answers the balance and leaves it; semaphore and adjustments as before |
| Handshake.ReadsFollowWrites | 06_ipc/src/sem_reader_writer.c:58-94 | in every interleaving the k-th read is the k-th written value, sides alternate, s0 + s1 is at most one, and no write happens during a read |
| Handshake.Progress | 06_ipc/src/sem_reader_writer.c:125-144 | until the reader exits somebody can always step, and all rounds are done after exactly six steps each |
| Handshake.EveryStepCounts | 06_ipc/src/sem_reader_writer.c:58-94 | every step of either side adds exactly one to the count of the six steps of a round |
| Handshake.FinishesIffBeforeExit | 06_ipc/src/sem_reader_writer.c:78-94 | after the reader's exit the writer can finish iff it had finished before |
| Handshake.EarlyExitStrandsTheWriter | 06_ipc/src/sem_reader_writer.c:78-94 | for every non-empty run there is an interleaving whose exit strands the writer |
| Handshake.RunBoth | 06_ipc/src/sem_reader_writer.c:125-144 | under any scheduler both loops end and the reader has read exactly what was written |
| LockWrite.LockSerialises | 01_io/src/lock_write.c:29-53 | in every run with locks and deaths the file is the overlay, in lock order, of the text each process was given or the part of it that it wrote before it died |
| LockWrite.SomebodyCanWrite | 01_io/src/lock_write.c:29-53 | with locks, while a process has not ended some process can step |
| LockWrite.LastTextWinsIff | 01_io/src/lock_write.c:37-46 | the file is exactly the last holder's text iff nothing longer was there before |
| LockWrite.UnlockedSerialIff | 01_io/src/lock_write.c:37-46 | without the lock, every run of two writers that both finish leaves what one order of them would leave iff their texts differ in at most one common position |
| LockWrite.LockedFile.WriteLocked | 01_io/src/lock_write.c:29-53 | one process's byte loop overlays its text on the file |
| StdioSpec.ClosedFileIff | 01_io/src/mstdio.c:69-137 | after any mix of writes and the close the file holds exactly what was written iff the device had space for it |
| StdioSpec.ApplyAllKeepsAll | 01_io/src/mstdio.c:79-137 | with enough space file plus pending bytes are always the original plus everything written |
| StdioSpec.CutShortRepeatsIff | 01_io/src/mstdio.c:123-129 | after a short write on a full buffer the accepted bytes reach the file exactly once iff that write took none |
| StdioSpec.NewlineReachesFile | 01_io/src/mstdio.c:161-218 | everything up to any newline of a call is in the file when the call returns |
| StdioSpec.NoNewlineStays | 01_io/src/mstdio.c:161-218 | without a newline nothing leaves the buffer before it is full |
| StdioSpec.SCharValues | 01_io/src/mstdio.c:95-116 | a byte comes back sign-extended, and only 0xFF as -1 |
| StdioSpec.ReadSplits | 01_io/src/mstdio.c:144-196 | a read stops after n bytes, at the end or at a 0xFF, which it swallows; what it got and what is left make up the stream |
| StdioSpec.RoundTripIff | 01_io/src/mstdio.c:94-137 | reading until MEOF returns what was written iff it contains no 0xFF |
| Mstdio.MFile.constructor | 01_io/src/mstdio.c:14-41 | an empty buffer for reading, a free one for writing |
| Mstdio.MFile.MfFlush | 01_io/src/mstdio.c:79-92 | pending bytes go out as far as there is space; a reader forgets its buffer |
| Mstdio.MFile.MfGetC | 01_io/src/mstdio.c:95-116 | the next byte of the stream sign-extended, MEOF at the end, for every pattern of short reads |
| Mstdio.MFile.MfPutC | 01_io/src/mstdio.c:118-137 | refuses iff the buffer is full and cannot be written out; an accepted byte stands behind everything before it |
| Mstdio.MFile.MfGets | 01_io/src/mstdio.c:144-159 | exactly size bytes, or failure at the end or the first 0xFF |
| Mstdio.MFile.MfPuts | 01_io/src/mstdio.c:161-176 | writes the bytes before the NUL, flushing at each newline |
| Mstdio.MFile.MfRead | 01_io/src/mstdio.c:178-196 | size times counter bytes or up to the end or first 0xFF; the result is always counter |
| Mstdio.MFile.MfWrite | 01_io/src/mstdio.c:198-218 | writes size times counter bytes, flushing at each newline |
| Mstdio.MFile.MfClose | 01_io/src/mstdio.c:69-76 | pending bytes are flushed |
| Mstdio.Copy | 01_io/src/mstdio_test.c:6-23 | the copy program writes exactly the source up to its first 0xFF, given space |
| Dictionary.EarlyExitIff | dict/src/server.c:156-180 | for every file and word the early exit answers like a full lookup iff no row that only begins with the word stands before the word's row |
| Dictionary.SortedIsSound | dict/src/server.c:156-180 | on a byte-sorted dictionary of entries the early exit answers like the full lookup |
| Dictionary.SoundIffPrefixFirst | dict/src/server.c:156-180 | on entry rows the early exit is right for all words iff no key stands behind a longer key that begins with it without standing before that as well |
| Dictionary.AnswerIsEntryIff | dict/src/server.c:133-181 | for a file without overlong lines the reply is the full lookup's answer iff no line hides the word and the definition fits the 256 bytes |
| Dictionary.SoundFileAnswers | dict/src/server.c:133-181 | on a file of entries in which no key hides behind a longer one, every word gets its entry, space permitting |
| Dictionary.EntryIsKey | dict/src/server.c:158-164 | on entry rows the two tests of the loop mean that the key is the word |
| Dictionary.EntryRoundTrip | dict/src/server.c:158-174 | a row of a word, spaces and a text is about the word and defines it by the text |
| Dictionary.LookupIsFirst | dict/src/server.c:156-176 | the full lookup answers with the first row about the word |
| Dictionary.RowEnds | dict/src/server.c:156-156 | a row ends with its newline, at the limit or with the file |
| Dictionary.LinesAreFile | dict/src/server.c:156-156 | the lines put together are the file |
| Dictionary.WholeLinesIff | dict/src/server.c:156-156 | the loop sees whole lines iff none is longer than 511 bytes |
| Dictionary.UnsortedExample | dict/src/server.c:160-164 | an unsorted dictionary in which a present word is not found |
| Dictionary.RowsAreLinesIff | dict/src/server.c:156-156 | the loop sees whole lines iff no line is longer than the row buffer takes |
| Dictionary.DoSearchWord | dict/src/server.c:133-181 | the loop, its prefix test, the skipping of spaces and the copy into the reply compute the specified scan; what does not overflow and is not hidden is the full lookup's answer |

## Left out

- OBuffers.OBuffer.StrStr: on a block without any NUL the C search reads past the allocation; the model stops at the end of the block.
- OBuffers.OBuffer.GetDataByRule: on an overrun the model reports it and keeps the memory, because the source does not survive the call.
- FrameRules.RuleOk: markers have to be C strings, because strstr stops a marker at its first NUL; a user matcher has to answer inside the data it was shown.
- OLists.OList.At: needs a non-empty list for a negative index, where the source reads through a null pointer.
- OMainLoops.OMainLoop.BuildPoll: needs at most 1024 entries in all, the size of the unchecked array.
- OMainLoops.OMainLoop.Round: likewise.
- OMainLoops.OMainLoop.DispatchPass: a callback is a finite sequence of calls on the main loop.
- Mstdio.RawFile.Read: does not fail; the source stops on a read error.
- Mstdio.RawFile.Write: is short only when the device has no space left; StdioSpec.CutShort is the other case.
- Accounts.SemSet.SemOp: a semaphore operation that would block is outside the single-caller classes; AccountProtocol models the blocking.
- Accounts.SemSet.P: likewise, on a semaphore that is too low.
- Accounts.SemSet.V: likewise, for value 0 on a semaphore that is not 0.
- Accounts.Account.Withdraw: likewise, while another caller holds the semaphore.
- Accounts.Account.Deposit: likewise.
- Accounts.Account.GetBalance: likewise.
- LockWrite.LockedFile.WriteLocked: waiting for a lock held by another process is modelled by LockWrite.Enabled and not by the class.
- AccountProtocol.Next: semaphore operations that fail with an error (the source prints a message and goes on) are not modelled; balances are real numbers.
- Handshake.Next: the adjustment applied at exit stops at zero, as Linux does; the writer's own exit follows the removal of the semaphores and is not modelled.
- Memory allocation and its failure, freeing, and integer overflow.
- The shell (`04_signal/src/mshell.c`, `job.c`): tokenising, process groups and job control around a short list of redirections.
- `05_thread/src/reader_writer.c`, `pthread_cal.c` and `pthread_cal2.c`: flags are read and broadcast without the mutex, so wake-ups can be lost and no progress statement holds.
- Sockets, the database, menus, fork/exec/wait, signals and the file-system and pipe demonstrations: thin uses of system calls.
- `libcmpt/lib/libcmpt/src/ipc.c` repeats `sem_pv.c`; `log_printf.c` formats output.
