# Verified model of the GoRoutine extension's native code

This project models the native parts of a Perl extension: goroutine-style threads, their
channels and shared data, and the codecs of its helper programs. The code is C and XS; the
model is Dafny, and every statement below is proved for all inputs, all states or all runs.

Each component has three layers. A value-level specification says what one operation does.
A class or method with the same fields, loops, buffers and early returns as the C code is proved
to do exactly that. The theorems are then about the specification: over every interleaving, every
heap, every text, every way to cut a stream.

**Channels** (`Channel.dfy`, `ChannelSystem.dfy`). A channel is a rendezvous slot with sequence
numbers or a ring buffer. Any number of send, receive and close calls run as a step system: one
step is one stretch of code under the mutex, every return from a timed wait ends a step, any parked
call may wake at any time, and a routine can be cancelled at any moment. A buffered run conserves
its messages in order; an unbuffered send returns normally exactly when one receive took its
message, however close and cancellation race with it; after close the contents drain and nothing
is placed again. A channel is closed exactly once some close call has succeeded, and every call gets
on when it can and fails for a reason only.

**Routine control** (`Control.dfy`, `ControlSystem.dfy`). The control block with its status,
cancellation, timeout generation, reference count and the process-wide active count, with
workers, handles, timers, timeout setters and killers as concurrent actors on a clock that does
not go back. Timers act neither early nor under a superseded timeout, and they do act when due. The class in `Control.dfy` is a transcription: its fields are the record's and its methods
restate the value-level steps in place; what those steps amount to is proved in `ControlSystem.dfy`.

**Shared graphs** (`SharedGraph.dfy`, `Import.dfy`, `Aliases.dfy`). The recursive import of a possibly
cyclic and aliased Perl heap, in which every scalar is a cell with an address, also as an element.
While it runs, nodes on the recursion stack are half built; when it returns the copy is an exact
relabelling of everything reachable: nodes correspond to referents and to slots. It succeeds
exactly when nothing unsupported is reachable, and it terminates on every finite heap. Aliases of
one scalar are another matter. The code registers a scalar only when it meets a reference to it, and
reads elements by value alone, so in `[\@a, \$a[0]]` one scalar becomes two nodes
(`Aliases.ElementAliasLost`); `Aliases.AliasesKeptIff` gives exactly the heaps on which no alias is
lost.

**Containers** (`SharedArrays.dfy`, `SharedHashes.dfy`). Shared arrays as sparse sequences, hashes as
insertion-ordered maps, both on blocks that grow by doubling. Shrinking an array leaves the dropped
elements in their slots (GoRoutine012.xs:1171-1177), from where a later store brings them back. The
operations are proved to mean what they should on exactly the arrays with nothing left behind, and
the drop is proved to be the only operation that leaves something.

**JSON and events** (`Bytes.dfy`, `JsonGrammar.dfy`, `JsonParser.dfy`, `JsonTheorems.dfy`,
`JsonMeaning.dfy`, `JsonNative.dfy`, `JsonEmit.dfy`, `Framing.dfy`, `EventPipeline.dfy`). The parser of the menu helpers
against concrete syntax trees of section 2 of RFC 8259 without numbers (strings of section 7,
relaxed to raw control bytes; UTF-8 of section 3 of RFC 3629, where an unpaired surrogate gets the
three bytes its number calls for). The printer, the newline framing of a stream read in arbitrary
pieces, and the round trip of click events through all of them.

**Processes** (`CommandLine.dfy`, `CommandLineNative.dfy`, `Environment.dfy`, `OutBuffers.dfy`). The
Windows command line against Microsoft's splitting rules, and the merge of overrides into a child's
environment. The first argument is quoted like the others although a program name is split by
other rules; `CommandLine.ProgramReadsBack` gives exactly the names that survive those.

**HTML** (`HtmlEscape.dfy`). Three escapers: two byte by byte, one that copies spans.

Where the code and its comments or its intent part, the code is modelled and a lemma says exactly
when the intent is met: see `SparseSequences.FollowedByAnyIff`, `SparseSequences.DroppedElementReturns`,
`Aliases.AliasesKeptIff`, `Aliases.ElementAliasLost`, `CommandLine.ProgramReadsBack`,
`CommandLine.UnsafeNameLost` and `JsonEmit.StringRoundTrip`.

## Model

| member | source | states |
|---|---|---|
| `ChannelNative.GoChannel.constructor` | GoRoutine012.xs:90-104 | a new channel is open and empty, with an all-null ring of its capacity |
| `ChannelNative.RingPush` | GoRoutine012.xs:170-173 | writing at `tail` appends to the queue that starts at `head`, and keeps `tail == (head + count) % capacity`, `count <= capacity` and null outside the window |
| `ChannelNative.RingPop` | GoRoutine012.xs:234-238 | clearing the cell at `head` and advancing removes the oldest message and keeps the same invariant |
| `ChannelNative.GoChannel.SendOffer` | GoRoutine012.xs:132-177 | what a sender does each time it holds the mutex before its message is placed: wait, place in slot or ring, or see the channel closed; the whole new channel state |
| `ChannelNative.GoChannel.SendResume` | GoRoutine012.xs:147-184 | what a parked rendezvous sender does on waking: go on waiting, return, or withdraw its own message, where a completed rendezvous beats close and cancel |
| `ChannelNative.GoChannel.ReceiveTake` | GoRoutine012.xs:208-244 | what a receiver does each time it holds the mutex: wait, take the message and mark it consumed, or see the channel closed and empty |
| `ChannelNative.GoChannel.CloseChannel` | GoRoutine012.xs:279-298 | a second close fails and changes nothing; the first closes and drops a message that waits in the slot |
| `ChannelSystem.DoneStays` | GoRoutine012.xs:186-188 | a call that has returned or thrown keeps its outcome in every later state |
| `Rendezvous.InvNext` | GoRoutine012.xs:134-184 | every step of every call keeps the invariant tying program positions to `slot`, `slot_seq`, `consumed_seq` and `next_seq` |
| `Rendezvous.SendReturnsIffTaken` | GoRoutine012.xs:132-188 | unbuffered, every interleaving: a finished send returned normally exactly if one receive, and only one, took its message; if it threw, none did |
| `Rendezvous.ThrownIsNeverTaken` | GoRoutine012.xs:154-160 | the message of a send that threw is not taken by any receive in any continuation |
| `Rendezvous.ReceiptIsAnswered` | GoRoutine012.xs:215-220 | a received value was imported by one send call, nobody else ever receives it, and that send can only return normally |
| `Rendezvous.RendezvousCompletes` | GoRoutine012.xs:179-184 | a waiting message and an uncancelled receive complete: the receive's next step returns it, and the sender's next step returns normally although the channel was closed or the sender cancelled in between |
| `Buffered.InvNext` | GoRoutine012.xs:163-177 | every step keeps the buffered invariant, which conserves messages and records who sent and who received each |
| `Buffered.Conservation` | GoRoutine012.xs:163-177 | in every run the messages placed are those received, in order, followed by the contents; contents fit; entry i was returned by exactly one receive, and every receive that took something is recorded |
| `Buffered.SentIffPlaced` | GoRoutine012.xs:163-188 | a buffered send returned normally exactly if its message was placed, and then once; a cancelled, refused or unfinished send placed nothing |
| `AfterClose.OnlyDrains` | GoRoutine012.xs:284-298 | from any reachable closed state nothing is placed again, the slot stays empty, and any continuation removes a prefix of the contents and delivers exactly that prefix in order |
| `AfterClose.ReceiveReturns` | GoRoutine012.xs:226-243 | on a closed channel an uncancelled receive returns at its next step: the oldest message, or closed when there is none |
| `AfterClose.NothingAfterDrain` | GoRoutine012.xs:208-243 | once drained, every receive still open or yet to come ends as closed unless its routine was cancelled, and no open send returns normally |
| `Closing.ClosedIffCloseSucceeded` | GoRoutine012.xs:286-295 | in every run the channel is closed exactly if some close call succeeded, no second one ever does, and a refused one came after it |
| `Closing.CloseIsForGood` | GoRoutine012.xs:290-295 | after a successful close every continuation is closed with an empty slot |
| `Closing.CloseAnswers` | GoRoutine012.xs:286-298 | a close succeeds exactly on an open channel, empties the slot and keeps the buffered messages |
| `CallProgress.SendStep` | GoRoutine012.xs:134-177 | in every reachable state a send holding the mutex fails on a closed channel, places its message where there is room, parks otherwise, and on a cancelled wait leaves everything alone |
| `CallProgress.OfferedStep` | GoRoutine012.xs:147-160 | a parked sender whose message is still in the slot takes it back and throws if cancelled, and parks again if not |
| `CallProgress.DroppedStep` | GoRoutine012.xs:179-188 | a parked sender whose message was dropped by a close throws |
| `CallProgress.ReceiveStep` | GoRoutine012.xs:208-244 | in every reachable state a receive holding the mutex takes the oldest message, reports closed when there is none on a closed channel, and parks otherwise |
| `CallProgress.EntryStep` | GoRoutine012.xs:121-130 | a cancelled routine gives up on entry, and a send on a closed channel is refused before its value is imported |
| `CallProgress.FailuresAreJustified` | GoRoutine012.xs:179-188 | in every run a call reports cancellation only if its routine was cancelled, and closed only if the channel is |
| `ControlNative.GoControl.constructor` | GoRoutineNative.h:297-316 | a new control is running, uncancelled, without a timeout, with one reference |
| `ControlNative.GoControl.RequestCancelLocked` | GoRoutineNative.h:354-364 | sets the cancellation and its reason, and says so, only while running and not yet cancelled |
| `ControlNative.GoControl.FireTimeoutLocked` | GoRoutineNative.h:406-419 | a timer cancels only under its own generation with a positive timeout, while running and not yet cancelled |
| `ControlNative.GoControl.FinishLocked` | GoRoutineNative.h:386-398 | a wake error gives failed, else a cancellation gives killed or timed out, else the given status |
| `ControlNative.GoControl.SetTimeoutLocked` | GoRoutineNative.h:487-495 | refused once over; otherwise a new generation and the new seconds together |
| `ControlNative.GoControl.UndoTimeoutLocked` | GoRoutineNative.h:518-523 | withdraws the timeout and moves the generation on, only if the generation is still its own |
| `ControlNative.GoControl.TimerCheckLocked` | GoRoutineNative.h:446-475 | one turn of a timer's loop: sleep on, leave silently, or leave to fire because the deadline passed or the wait failed, recording the failure |
| `ControlNative.GoControl.Retain` | GoRoutineNative.h:283-287 | one reference more and nothing else |
| `ControlNative.GoControl.ReleaseLocked` | GoRoutineNative.h:289-295 | drops one reference and reports the last one |
| `Lifetime.InvNext` | GoRoutineNative.h:439-656 | every step of every actor keeps the two counts equal to the holders and the running threads |
| `Lifetime.RefsCountHolders` | GoRoutineNative.h:283-656 | in every run `refs` (changed at lines 283-295, 511, 516, 577 and 656) is the number of live workers, handles and timers of a control, it is freed exactly when none is left, and nothing touches it afterwards |
| `Lifetime.ActiveCountsThreads` | GoRoutineNative.h:165-182 | in every run the active count is the number of started, unfinished workers (lowered at line 655) and timers (raised at 512, lowered at 477 and 515), so the guarded decrement never skips and waiting for all ends only at none |
| `Outcomes.InvNext` | GoRoutineNative.h:348-437 | every step keeps the invariant tying cancellation, reason, status, `timeout_seconds` and `timeout_generation` to who did what when |
| `Outcomes.StatusIsVerdict` | GoRoutineNative.h:386-398 | a routine that is over has the status its callback's end, the wake error at the finish and its one cancellation call for, keeps it in every continuation, and its thread is not offered for waking any more |
| `Outcomes.KillDecides` | GoRoutineNative.h:348-398 | after a kill request returned true the only cancellation is that kill, and the final status is killed, or failed if a wake error was recorded |
| `Outcomes.OneKillWins` | GoRoutineNative.h:354-364 | two kill requests on one routine never both return true; one that returned false found the routine cancelled or over |
| `Outcomes.TimersAreTimely` | GoRoutineNative.h:400-480 | a timer cancels only while its own generation is the current one, under the timeout set last and not before its time; it is early only if an error had been recorded by then, and such a routine cannot end as timed out |
| `ActorProgress.TimersFire` | GoRoutineNative.h:439-480 | in every reachable state an awake timer past its deadline, with its timeout in force and the routine not cancelled, cancels it as timed out within two steps |
| `ActorProgress.TimersSleep` | GoRoutineNative.h:446-461 | before its deadline such a timer sleeps on and changes nothing |
| `ActorProgress.TimersLeaveForAReason` | GoRoutineNative.h:446-475 | a timer leaves without firing only if its timeout is no longer in force, and fires in vain only then or on a cancelled routine |
| `ActorProgress.FailuresAreRecorded` | GoRoutineNative.h:432-464 | a failed wait and a failed wake of the worker are recorded as the wake error |
| `ActorProgress.KillsAct` | GoRoutineNative.h:348-384 | a kill request cancels exactly a routine that is neither over nor cancelled, and otherwise changes nothing and returns false |
| `ActorProgress.TimeoutsAreSet` | GoRoutineNative.h:487-496 | setting a timeout takes effect at once, with a new generation, unless the routine is over; zero seconds start no timer |
| `ActorProgress.DeadlinesCountFromNow` | GoRoutineNative.h:510 | the deadline is the present plus the seconds |
| `ActorProgress.TimersStart` | GoRoutineNative.h:513-524 | the thread that is created is a timer of that generation and deadline; if none can be created the clean-up begins |
| `ActorProgress.TimeoutsAreTakenBack` | GoRoutineNative.h:518-523 | the clean-up withdraws the timeout exactly if it is still the last one set |
| `SharedImport.MapAdd` | GoRoutineShared.h:136-155 | appending an unregistered referent keeps the map's sources distinct and its lookups right |
| `SharedImport.Importer.Find` | GoRoutineShared.h:126-134 | the linear search finds exactly the node registered for a referent |
| `SharedImport.FewerLeft` | GoRoutineShared.h:252-265 | registering a referent lowers the number of heap referents not yet registered, the measure on which the recursion ends |
| `SharedImport.Importer.ImportValue` | GoRoutineShared.h:234-260 | imports one value into a given or new node while other nodes are half built: finished referents keep their exact copies, no other node changes, the result stands for the value; it fails only if something unsupported is reachable |
| `SharedImport.Importer.ImportHash` | GoRoutineShared.h:262-303 | a hash is registered before its entries are visited and ends with the same keys in the same order, each with a node for its value |
| `SharedImport.Importer.ImportArray` | GoRoutineShared.h:373-404 | an array ends with the same length and holes, each element with a node for its value |
| `SharedImport.Importer.ImportTarget` | GoRoutineShared.h:406-421 | a scalar reference ends with a node for what it points to |
| `ExactCopies.ImportInto` | GoRoutineShared.h:434-447 | succeeds exactly when nothing unsupported is reachable; then the registered referents are exactly the reachable ones and each has an exact copy; no other existing node is touched |
| `ExactCopies.BadMeans` | GoRoutineShared.h:333-347 | an import fails exactly for a reachable referent of another type or a reachable format without a package or a name |
| `ExactCopies.ScalarReadsBack` | GoRoutineShared.h:203-231 | the node of an imported scalar reads back, by its type and payload, as that scalar |
| `ExactCopies.CopyLooksTheSame` | GoRoutineShared.h:233-432 | every walk through the source exists in the copy and the other way round; it ends in a node that reads back as the scalar, or that has the type, class, text, keys in order, length and holes of the referent |
| `ExactCopies.SameNodeIffSameThing` | GoRoutineShared.h:125-155 | two walks end in one node exactly if they end in references to one referent, or in the same slot of the same referent holding a plain scalar |
| `Aliases.OccurrencesShareIff` | GoRoutineShared.h:239-260 | two occurrences of one scalar share a node exactly if it holds a reference or they are the same slot |
| `Aliases.CellsMergeIff` | GoRoutineShared.h:252-256 | two different scalars share a node exactly if both hold references to one referent |
| `Aliases.AliasesKeptIff` | GoRoutineShared.h:406-421 | an import gives all occurrences of every scalar one node exactly if no plain scalar stands in two reachable slots, where a referenced scalar is its own slot |
| `Aliases.ElementAliasLost` | GoRoutineShared.h:406-421 | `[\@a, \$a[0]]` imports, with two nodes for the one scalar |
| `SharedArrayNative.SharedArray.Reserve` | GoRoutine012Native.h:912-928 | grows by doubling from 8, keeps every slot, and the new slots are null |
| `SharedArrayNative.SharedArray.Store` | GoRoutine012.xs:990-1007 | negative indices are refused; otherwise the node is in its slot, the size covers it and nothing else changed |
| `SharedArrayNative.SharedArray.Ensure` | GoRoutine012.xs:972-987 | the node already in a slot is kept and returned, an empty slot gets a new one |
| `SharedArrayNative.SharedArray.Delete` | GoRoutine012.xs:1009-1027 | makes a hole and returns what was there; the size stays |
| `SharedArrayNative.SharedArray.Push` | GoRoutine012.xs:1029-1063 | one more element at the end |
| `SharedArrayNative.SharedArray.Unshift` | GoRoutine012.xs:1065-1105 | one more element at the front, all others one place up |
| `SharedArrayNative.SharedArray.Pop` | GoRoutine012.xs:1107-1125 | the last element is returned and its slot emptied |
| `SharedArrayNative.SharedArray.Shift` | GoRoutine012.xs:1127-1147 | the first element is returned, all others one place down, the vacated slot emptied |
| `SharedArrayNative.SharedArray.Clear` | GoRoutine012.xs:1149-1160 | size 0 and every slot of the block empty |
| `SharedArrayNative.SharedArray.Resize` | GoRoutine012.xs:1162-1178 | growing empties the slots that become elements; shrinking changes the size only |
| `SparseSequences.OpMeans` | GoRoutine012.xs:972-1178 | on an array with nothing past its size, each operation is the operation of the same name on a sparse sequence, result included |
| `SparseSequences.CleanUnlessDropped` | GoRoutine012.xs:1162-1178 | such an array stays so exactly unless a resize drops an element that is there |
| `SparseSequences.MeantIffClean` | GoRoutine012.xs:972-1178 | the operations mean what they should on exactly the arrays with nothing past their size |
| `SparseSequences.FollowedByAnyIff` | GoRoutine012.xs:1162-1178 | after an operation every other still means what it should exactly if the operation dropped nothing |
| `SparseSequences.RunMeans` | GoRoutine012.xs:972-1178 | any run that drops nothing has the sparse sequence its operations call for |
| `SparseSequences.DroppedElementReturns` | GoRoutine012.xs:1171-1177 | three elements shrunk to one, then a store at index 2: the second element is back where a hole should be |
| `SparseSequences.FetchReadsContents` | GoRoutine012.xs:940-955 | fetching gives the element at an index, and nothing outside the array |
| `SparseSequences.StoreThenFetch` | GoRoutine012.xs:990-1007 | what is stored is fetched, other elements stay, and the gap up to it is holes |
| `SparseSequences.EnsureTwice` | GoRoutine012.xs:972-987 | ensuring keeps the node that is there, and twice gives the same |
| `SparseSequences.DeleteThenFetch` | GoRoutine012.xs:1009-1027 | deleting returns the element and leaves a hole, nothing else |
| `SparseSequences.ClearEmpties` | GoRoutine012.xs:1149-1160 | clearing leaves no element and nothing behind, on the same block |
| `SparseSequences.ResizeThenFetch` | GoRoutine012.xs:1162-1178 | resizing keeps the elements below the new size, and new ones are holes |
| `SparseSequences.PopUndoesPush` | GoRoutine012.xs:1029-1125 | popping returns what was pushed and restores the array |
| `SparseSequences.ShiftUndoesUnshift` | GoRoutine012.xs:1065-1147 | shifting returns what was unshifted and restores the array |
| `SparseSequences.GrownIs` | GoRoutine012Native.h:912-928 | the block grows to the least of 8, 16, 32 and so on, or of its own doubles, that suffices |
| `SharedHashNative.SharedHash.Find` | GoRoutine012Native.h:1797-1809 | the index of the entry with these key bytes, or -1 exactly if there is none |
| `SharedHashNative.SharedHash.Reserve` | GoRoutine012Native.h:894-910 | grows by doubling from 8 and keeps every entry |
| `SharedHashNative.SharedHash.Ensure` | GoRoutine012Native.h:1818-1833 | returns the node under a key, or appends an entry with a new one |
| `SharedHashNative.SharedHash.Store` | GoRoutine012.xs:818-847 | replaces the node under a key in place, or appends an entry |
| `SharedHashNative.SharedHash.Delete` | GoRoutine012.xs:850-876 | removes the entry, moves later ones down and returns the node |
| `SharedHashNative.SharedHash.KeyList` | GoRoutine012.xs:910-923 | the keys in insertion order |
| `OrderedMaps.StoreUpdates` | GoRoutine012.xs:818-847 | storing is a map update at one key; keys stay distinct and in order, a new one comes last |
| `OrderedMaps.EnsureIsStore` | GoRoutine012Native.h:1818-1833 | ensuring a key is storing what is already there, or else the new node |
| `OrderedMaps.DeleteRemoves` | GoRoutine012.xs:850-876 | deleting removes one key from map and order and returns its node |
| `OrderedMaps.RunMeans` | GoRoutine012.xs:800-894 | any run of operations has the map its operations call for, with distinct keys |
| `JsonGrammar.Utf8ReadsBack` | native/system_menu_helper_win.c:122-145 | the bytes of a code point read back, by the ranges of the first byte, as that code point and that length, before any other bytes |
| `JsonTheorems.CharsComplete` | native/system_menu_helper_win.c:154-203 | the spelled-out characters of a string and its quote are read as the bytes they denote, a surrogate pair as one code point |
| `JsonTheorems.CharsSound` | native/system_menu_helper_win.c:154-203 | whatever the string loop accepts is spelled by characters that denote the result |
| `JsonTheorems.ValueComplete` | native/system_menu_helper_win.c:213-292 | a spelled-out tree is read as its value, and reading stops right behind it, whatever follows |
| `JsonTheorems.ValueSound` | native/system_menu_helper_win.c:213-292 | whatever is read is spelled by a tree that denotes the result |
| `JsonTheorems.AcceptsGrammar` | native/system_menu_helper_win.c:313-325 | a text is accepted with a value exactly if white space, a tree of the grammar denoting that value and white space spell it out |
| `JsonTheorems.OneMeaning` | native/system_menu_helper_win.c:313-325 | no text has two meanings |
| `JsonMeaning.EscapesRead` | native/system_menu_helper_win.c:163-199 | anywhere in a text each of the eight letter escapes reads as its byte, and every other letter but u is refused |
| `JsonMeaning.DigitsAre` | native/system_menu_helper_win.c:114-120 | the digits are the sixteen of either case and have their values |
| `JsonMeaning.FourWeighed` | native/system_menu_helper_win.c:178-179 | four digits weigh 4096, 256, 16 and 1 |
| `JsonMeaning.Utf8Shortest` | native/system_menu_helper_win.c:122-145 | one, two, three or four bytes by the size of the code point, with the lead and continuation bytes of UTF-8 |
| `JsonMeaning.UnicodeReads` | native/system_menu_helper_win.c:172-197 | anywhere in a text a Unicode escape reads as bytes that give back its code point |
| `JsonMeaning.HalvesCombine` | native/system_menu_helper_win.c:182-194 | the halves of a code point beyond the first 64K are surrogates and combine to it |
| `JsonMeaning.PairReads` | native/system_menu_helper_win.c:182-197 | anywhere in a text an escaped surrogate pair reads as the four bytes that give back the code point whose halves it writes |
| `JsonMeaning.WhiteSpaceIs` | native/system_menu_helper_win.c:109-112 | space, tab, newline and carriage return, nothing else |
| `JsonMeaning.LiteralsMean` | native/system_menu_helper_win.c:266-288 | the texts true, false, null, [] and {} have their values |
| `JsonNative.StringBuffer.AppendByte` | native/system_menu_helper_win.c:200-202 | grows when `len + 2 > cap`; one byte more, NUL-terminated within the block |
| `JsonNative.StringBuffer.AppendUtf8` | native/system_menu_helper_win.c:122-152 | grows until the bytes and the NUL fit; the code point's UTF-8 appended |
| `JsonNative.FourDigits` | native/system_menu_helper_win.c:174-180 | four digits weighed by place are the number they write; refused exactly if one is no digit |
| `JsonNative.JParser.ReadString` | native/system_menu_helper_win.c:154-209 | result, cursor and error flag are those of the string function; a failure inside a string sets the flag, a missing quote does not |
| `JsonNative.JParser.ReadArray` | native/system_menu_helper_win.c:213-232 | unless an error was there before, the value at its end, or the flag set, although a partial array is returned either way |
| `JsonNative.JParser.ReadObject` | native/system_menu_helper_win.c:234-264 | the same for objects |
| `JsonNative.JParser.ReadValue` | native/system_menu_helper_win.c:266-292 | the same for values, where failing may be reported by the flag or by no value |
| `JsonNative.ParseText` | native/system_menu_helper_win.c:313-325 | the whole program accepts exactly what the grammar accepts, with the same value: partial results never get out because the flag is sticky |
| `JsonEmit.DecodeEmit` | native/system_menu_helper_linux.c:346-365 | the printed characters denote the printed bytes |
| `JsonEmit.EmitSpells` | native/system_menu_helper_linux.c:346-365 | the spelling of every byte, escaped or copied |
| `JsonEmit.EmitIsPrintable` | native/system_menu_helper_linux.c:346-365 | no printed byte is below a space |
| `JsonEmit.StringRoundTrip` | native/system_menu_helper_linux.c:134-365 | a string printed anywhere in any text reads back up to its first NUL, hence unchanged exactly if it has none, and reading consumes exactly the printed text |
| `JsonEmit.ClickParses` | native/system_menu_helper_win.c:397-403 | a printed event parses to the object that announces the name |
| `Framing.SplitIsExact` | native/system_menu_helper_win.c:982-993 | lines with their newlines and the tail spell the stream |
| `Framing.SplitIsUnique` | native/system_menu_helper_win.c:982-993 | and they are the only newline-free pieces that do |
| `Framing.SplitResumes` | native/system_menu_helper_win.c:994-998 | keeping only the tail of what has been read changes no later line |
| `Framing.StripCrIs` | native/system_menu_helper_win.c:987 | only carriage returns are cut off the end of a line, and all of them |
| `Framing.StripCrUnique` | native/system_menu_helper_win.c:987 | and no other prefix of the line is such |
| `Framing.LineReader.Reserve` | native/system_menu_helper_win.c:973-977 | room for the bytes read and a NUL; nothing pending is lost |
| `Framing.LineReader.Feed` | native/system_menu_helper_win.c:969-998 | one read posts exactly the lines it completes, without trailing carriage returns, and leaves the tail at the front of the buffer |
| `Framing.ReadAll` | native/system_menu_helper_win.c:969-998 | for every way to cut a stream into reads, the lines of the whole stream are posted and its tail is left |
| `EventPipeline.Output.EmitString` | native/system_menu_helper_win.c:376-395 | writes the printed form of the C string, up to its NUL |
| `EventPipeline.Output.EmitClick` | native/system_menu_helper_win.c:397-403 | writes one event line; an item without a name writes nothing |
| `EventPipeline.LookupIsFirst` | native/system_menu_helper_win.c:327-335 | the first pair with a key counts, and nothing is found exactly if there is none |
| `EventPipeline.LineAnnounces` | native/system_menu_helper_win.c:327-403 | the line of an event is one line, and looking up its keys finds the name |
| `EventPipeline.NamesComeThrough` | native/system_menu_helper_win.c:154-403 | any list of NUL-free names, printed, concatenated, cut anywhere, framed (lines 969-998) and parsed, comes out as the same names in the same order with nothing left over |
| `EventPipeline.Relay` | native/system_menu_helper_win.c:969-998 | the same with the printing, reading and parsing loops themselves, for every list of read sizes |
| `CommandLine.EscapedReads` | GoRoutineProcessNative.h:145-163 | 2n + 1 backslashes before a quote inside an argument, 2n before the closing one and others as they are split back to the argument from any index on |
| `CommandLine.SplitUndoesLine` | GoRoutineProcessNative.h:137-166 | splitting the built line by Microsoft's rules for ordinary arguments gives back every argument, under either convention for doubled quotes |
| `CommandLine.ProgramReadsBack` | GoRoutineProcessNative.h:137-166 | with the first word read as a program name, the list comes back exactly if that name has no quote and is not a quoted name ending in a backslash |
| `CommandLine.UnsafeNameLost` | GoRoutineProcessNative.h:160-163 | a program in a directory with a blank and a final backslash does not come back |
| `CommandLineMeaning.QuotedWhen` | GoRoutineProcessNative.h:141 | quotes are put around the empty argument and those with a space, tab, newline, vertical tab or quote, no others |
| `CommandLineMeaning.PlainIsCopied` | GoRoutineProcessNative.h:144-163 | an argument that needs no quotes is written as it is |
| `CommandLineNative.CapacityIs` | GoRoutineProcessNative.h:128-134 | the block has twice the bytes of all arguments, four more for each, and one |
| `CommandLineNative.LineFits` | GoRoutineProcessNative.h:128-134 | the line and its terminator fit the precomputed capacity |
| `CommandLineNative.WriteEscaped` | GoRoutineProcessNative.h:144-163 | the loop with its backslash counter writes the escaped argument |
| `CommandLineNative.BuildCommandLine` | GoRoutineProcessNative.h:127-168 | fills a block of that capacity with the line and a NUL, every store in bounds |
| `CommandLineNative.PassArguments` | GoRoutineProcessNative.h:127-168 | a child that reads the block up to the NUL, its first word as a program name, gets a non-empty NUL-free list unchanged exactly if that name is a safe one |
| `Environment.FirstBadEntryDecides` | GoRoutineProcessNative.h:86-98 | the merge succeeds exactly if every entry is valid, and otherwise fails with the complaint of the first bad one |
| `Environment.ChecksAre` | GoRoutineProcessNative.h:92-98 | a key must be non-empty without equals sign or NUL, a value a defined scalar without NUL; which complaint goes with which |
| `Environment.LookupIs` | GoRoutineProcessNative.h:107-112 | a value is found exactly if some entry spells key, equals sign and value and none before it begins with key and equals sign |
| `Environment.PutLooksUp` | GoRoutineProcessNative.h:107-114 | replacing the first match or appending changes the lookup of that key only, also among prefixes and duplicates |
| `Environment.LookupAfterMerge` | GoRoutineProcessNative.h:86-114 | for every key without an equals sign the child finds the override if there is one and the parent's value otherwise |
| `Environment.EveryOverrideFound` | GoRoutineProcessNative.h:86-114 | with distinct keys every override is found under its key, and every other key as before |
| `Environment.OthersKeepTheirPlaces` | GoRoutineProcessNative.h:107-114 | an entry that assigns to no overridden key is at its old index, unchanged |
| `Environment.Vector.Assign` | GoRoutineProcessNative.h:107-114 | the search loop replaces the first entry that assigns to the key, or appends |
| `Environment.ChildEnvironment` | GoRoutineProcessNative.h:71-117 | without the option the parent's own vector; with a bad one an error; otherwise the merged entries, null-terminated within count + overrides + 1 slots |
| `HtmlEscape.UnescapeUndoesEscape` | HtmlEscape.xs:38-128 | unescaping undoes both escapers on every input |
| `HtmlEscape.EscapeIsClean` | HtmlEscape.xs:38-128 | no less-than or greater-than sign is left, in an attribute no quote of either kind, and every ampersand begins one of the entities |
| `HtmlEscape.OthersAreCopied` | HtmlEscape.xs:55-57 | exactly the ampersand and those bytes are escaped; every other byte is copied |
| `HtmlEscape.EscapeBound` | HtmlEscape.xs:31-38 | at most five (six) bytes for one, reached exactly by runs of ampersands (quotes); unchanged length exactly if nothing had to be escaped |
| `HtmlEscapeNative.RefusedIff` | HtmlEscape.xs:31-36 | an input is refused exactly if a block of 5n + 1 (6n + 1) bytes would be longer than 64 bits can say |
| `HtmlEscapeNative.NewTarget` | HtmlEscape.xs:31-38 | an accepted input gets a block of 5n + 1 or 6n + 1 bytes, a length that can be represented |
| `HtmlEscapeNative.EscapeBytes` | HtmlEscape.xs:20-138 | the byte-wise loops fill a block of 5n + 1 or 6n + 1 bytes in bounds with the escaped text; undefined, reference and oversized inputs as in the code; flags kept |
| `HtmlEscapeNative.FindSensitive` | HtmlEscape.xs:168-173 | the least of three searches is the first sensitive byte |
| `HtmlEscapeNative.EscapeSpans` | HtmlEscape.xs:146-213 | the span-copying loop gives the same result as the byte-wise one on every input |

## Left out

- ChannelNative.GoChannel: message identity is a tag that the proof reads and the channel code does not; importing a value and converting a received one are steps that may fail or succeed freely.
- Condition variables: every wait may end at any time, so which waiter a broadcast wakes is not modelled, and neither is fairness: `Rendezvous.RendezvousCompletes` and `AfterClose.ReceiveReturns` say what the next step of a call does, not that it comes; so do `CallProgress` and `ActorProgress`.
- Sequence numbers, generations, reference counts and lengths are unbounded; size_t and unsigned long wrap-around is not modelled (the HTML size limits are).
- Creating a channel with a negative capacity, which is refused, and the number of values a receive returns to its Perl context.
- Allocation succeeds everywhere; out-of-memory branches are not modelled.
- CommandLineNative.BuildCommandLine: does not model the refusal of lines that exceed SIZE_MAX, because capacities are unbounded here.
- ControlSystem: the spawn code and handle destruction are not among the modelled lines; a spawn raises the active count and gives the worker and the first handle their references before any of them runs, each handle releases once, and no handle is released under a call that uses it. A worker's wait for `thread_valid` and its TLS failure (which ends as failed, like a callback that died) are not separate steps.
- ControlSystem: the callback's end, waking a worker, timed waits and thread creation have arbitrary results; seconds are real numbers, without NaN or infinity, and a clock tick is any non-negative amount.
- The GoRoutine012Native.h variant of the control block: its timer decides under the lock and cancels after unlocking, and its finish ignores the cancellation, so the timer and status theorems are about GoRoutineNative.h only.
- SharedImport: CODE, GLOB, IO and class objects, and Perl's UTF-8 key flag (entry keys are taken as the strings the iterator yields); what a failed import leaves in the destination node is not stated.
- SharedImport: the address of the scalar that holds the root value; elements that are themselves regexps or globs rather than scalars holding them.
- SharedImport: nodes live in an explicit store and a pointer is an index into it; reachability is membership in every set that references do not lead out of. The growth of the map's and the nodes' own vectors by realloc is shown once, in the containers.
- SharedArrayNative, SharedHashNative: the type check that croaks on a node of another kind, and the import into the stored node, which `ExactCopies` covers.
- JsonNative: the shifts and ors that build a code point and its UTF-8 bytes are written as multiplication, division and addition.
- JsonNative: freeing values, and `item_from_json` building the menu tree.
- EventPipeline: no C code among these files reads a click line; a helper prints events for its Perl parent, and the line reader takes commands. `EventPipeline.Announced` and `EventPipeline.Hear` are this project's reader, made of the same parser and lookup.
- EventPipeline: partial writes and write errors of the output handle, and read errors.
- Environment: Perl's conversion of keys and values to bytes, and freeing the vector.
- Perl scalar arithmetic (`shared_apply`), interpreter cloning, proxies, process spawning, pipes, TLS, file watching, and all window, tray and icon code: I/O, foreign calls or easy members.
