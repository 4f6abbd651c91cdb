# MACE core logic: model and proofs

A Dafny 4.11 model of six pieces of MACE whose correctness rests on state, protocols or arithmetic, with proofs
of the properties that their callers rely on. `dafny verify dfyconfig.toml` checks the whole project.

| part of MACE | modules |
|---|---|
| hierarchical state machine (`src/common/hsm.h`) | `StateValues`, `Hsm`, `HsmRuns`, `StateMachines` |
| reliable transmit queue (`src/common/transmit_queue.h`) | `TransmitHistory`, `TransmitProtocol`, `TransmitRuns`, `TransmitPasses`, `TransmitReachable`, `TransmitQueues` |
| calendar arithmetic (`src/data/environment_time.cpp`) | `EnvironmentTimes` |
| DigiMesh radio (`src/DigiMesh`) | `ChunkedReading`, `DigiMeshFraming`, `FrameIds`, `DigiMeshRadios` |
| package ordering (`install/_local_setup_util_sh.py`) | `PackageNames`, `PackageOrder` |
| resource announcements and table (`src/MACEDigiMeshWrapper`) | `ResourceWire`, `ResourceTable` |
| shared | `Wrappers`, `Division` |

Each part has the same shape. What the program does step by step is a class or a method with the program's own
loops; its contract ties the new state to a function of the old one. The theorems are lemmas about those
functions, over every input and every run:

- **State machine.** At any point of any run, popping to depth d gives every StateValue the value it had just
  before the state at depth d was created, so Stop restores the initial values; OnEnter and OnExit are properly
  nested around exactly the states on the stack; a pass performs the outermost effective request and otherwise
  changes nothing; a settled machine stays settled. When a state that is not the innermost calls SetStateValue,
  the undo property survives exactly under a stated condition.
- **Transmit queue.** Calls, visits of tasks and detached removals are atomic steps in any interleaving. In
  every run the maps and the queue agree and no map access fails; the "desynced" exceptions are thrown exactly for
  numbers that RemoveAllTransmissions has left behind. Every retransmission goes to exactly the targets not heard
  from yet; a transmission is dequeued exactly when all have acknowledged, its failure action has run or
  RemoveAllTransmissions was called; the number of transmissions is bounded, and they are spaced in time exactly
  if the clock is not set far back. The histories so described are exactly those that runs produce.
- **Time stamps.** The wrapping field-by-field subtraction is the difference of two day counts in closed form,
  modulo 2^64; the order of the comparison operators is its sign exactly in the signed 64-bit range.
- **Radio.** Frames separated by noise come back unchanged and in order, and nothing else is delivered. How a
  stream of handled packets is cut into chunks cannot be observed; for other streams the exact condition is given.
  Outstanding frame ids are always distinct.
- **Packages.** The result is the lexicographically least topological order; the error is raised exactly for a
  cycle or an unknown dependency, and names the greatest part of what cannot be ordered in which everything is
  depended on.
- **Resources.** Parsing undoes printing exactly for names without NUL; the two maps of the table agree exactly
  as long as callers follow two rules.

Properties that hold only under a condition are stated as if-and-only-if (the lemmas named `…Exactly`).

Where the code differs from what is said about it, the model follows the code:

- `EnvironmentTime`'s header describes `month` as starting at 0 and `year` as counted from 1900; the subtraction
  and the conversions from Qt use months from 1 and full years, and the theorems are about those.
- The radio's search for a frame id does not try the last id again, so it can refuse while that one id is free
  (`RefusesWithAFreeIdExactly`).
- A frame whose length field is 65532 or more wraps the 16-bit packet length (`FrameComesBackExactly`).
- `QueueTransmission` can throw "Given transmission number is unknown" if the last acknowledgement overtakes its
  call of `Execute` (`ExecuteThrowsExactlyWhenOvertaken`).
- `RemoveAllTransmissions` leaves the target lists behind, and any later transmission that draws such a number
  throws (`RunsThrowExactly`); it leaves a transmission without keys in the queue (`RemoveAllKeepsInvExactly`).
- The elapsed time is narrowed to 32 bits, so a clock set back by more than 2^31 ms makes a retry due at once
  (`StepBackMakesDueExactly`, `SomeRunFailsEarly`); the spacing in time holds exactly without such steps
  (`SpacedExactly`).

## Model

| member | source | states |
|---|---|---|
| `StateValues.WriteIsUndone` | src/common/hsm.h:595-606 | A SetStateValue by a state, whatever value is assigned through the reference, leaves no trace once that state's resetters are replayed. |
| `StateValues.UndoAtWriter` | src/common/hsm.h:492-507 | What replaying down to a writing state yields, whatever deeper states have bound: unchanged if it had a resetter, else the value at the time of the call. |
| `StateValues.WriteKeepsUndoExactly` | src/common/hsm.h:595-606 | A write by the state at any depth leaves what popping to every outer depth restores unchanged if and only if that state has a resetter for the value already, or the outermost deeper state with a resetter has the current value on record, or no deeper state has a resetter. |
| `StateValues.UndoGives` | src/common/hsm.h:661-671 | What popping to a depth leaves in one StateValue, read off the resetter lists: the value recorded by the outermost of the popped states that has a resetter for it, else the value as it is. |
| `StateValues.NobodyDeeper` | src/common/hsm.h:592-606 | A state may set a value, whatever it is, if no deeper state has a resetter for it; so the innermost state always may. |
| `StateValues.OuterWriteSpoilsUndo` | src/common/hsm.h:595-671 | A concrete stack of two states in which an outer write makes popping everything restore the wrong value. |
| `StateValues.UndoInTwoSteps` | src/common/hsm.h:1274-1292 | Popping to a depth goes through popping to any deeper depth. |
| `Hsm.PassPerformsOutermost` | src/common/hsm.h:1294-1378 | A pass reports no transition and changes nothing if and only if no state has an effective request; otherwise it performs the outermost effective one: the states outside it are untouched, the others exit from inner to outer, one new state of the requested type is entered. |
| `Hsm.PerformedAsAsked` | src/common/hsm.h:1326-1371 | Performing a request: for Sibling the states outside the asking one stay, otherwise that one too; the others exit from inner to outer, and one new state of the requested type is entered. |
| `Hsm.PassReplaces` | src/common/hsm.h:1315-1371 | What a pass leaves: a sibling in the place of the state that asks for it, an inner or entry state directly inside that state, innermost, with all outer states as they were. |
| `Hsm.SettledExactly` | src/common/hsm.h:1306-1360 | Nothing is asked for exactly when no state asks for a sibling, every state that asks for an inner state has one of that type directly inside, and every state that asks for an entry has some state inside. |
| `Hsm.EnteringWrites` | src/common/hsm.h:1271 | After OnEnter a StateValue has the last value that OnEnter has assigned to it. |
| `Hsm.EnteringKeeps` | src/common/hsm.h:1271 | A StateValue that OnEnter does not set keeps its value. |
| `Hsm.ExitingWrites` | src/common/hsm.h:1284-1288 | OnExit sees the values as they are before it, and its last assignment to each counts until the state is destroyed. |
| `HsmRuns.PopRestores` | src/common/hsm.h:1281-1290 | Popping the innermost state restores all values from just before its creation, also those its OnExit has set. |
| `HsmRuns.PopToRestores` | src/common/hsm.h:1274-1292 | Popping to depth d restores exactly the values from just before the state at depth d was created, and keeps this true of the states that remain. |
| `HsmRuns.ProcessMakesPasses` | src/common/hsm.h:1155-1177 | ProcessStateTransitions enters the initial state if the stack is empty and then makes passes, each on what the one before has left, until one makes no transition, or the thousandth pass fails the check. |
| `HsmRuns.PassesEndSettled` | src/common/hsm.h:1164-1177 | The loop of ProcessStateTransitions ends normally exactly when its last pass is not the one that fails the check; then that pass found no effective request, and every pass before it made one transition and one new state. |
| `HsmRuns.SettledStaysSettled` | src/common/hsm.h:1155-1177 | After a normal end, calling ProcessStateTransitions again leaves the whole machine as it is if and only if the answers to its first pass ask for nothing new, whatever they are; the answers of the last pass before are such answers. |
| `HsmRuns.ExecuteKeepsSound` | src/common/hsm.h:1155-1177 | Processing transitions, setting a value by the innermost state and Stop each keep the undo property, the nesting of OnEnter and OnExit, and the values underneath the stack. |
| `HsmRuns.RunsAreSound` | src/common/hsm.h:1265-1378 | In every run from an unstarted machine: every depth would be restored to its values from before; the open OnEnter entries are exactly the stack in order and every created state was entered once. |
| `HsmRuns.StopRestoresInitialValues` | src/common/hsm.h:1137-1141 | Stop at any point of any run brings back the initial valuation and closes every OnEnter by its OnExit. |
| `StateMachines.State.FindStateValueInResetterList` | src/common/hsm.h:646-659 | Finds a resetter exactly if the state has one for the value. |
| `StateMachines.StateMachine.SetStateValue` | src/common/hsm.h:595-606 | The StateValue object has the new value and no other has changed; the state has a resetter added only the first time; refines the write of the abstract machine, for a state at any depth. |
| `StateMachines.StateMachine.ResetStateValues` | src/common/hsm.h:661-671 | Replays the resetters front to back onto the StateValue objects. |
| `StateMachines.StateMachine.PopStatesToDepth` | src/common/hsm.h:1274-1292 | The state objects below the depth are the same ones as before, and the abstract machine has been popped to that depth. |
| `StateMachines.StateMachine.PushAndEnter` | src/common/hsm.h:1265-1272 | Puts one fresh state object on the stack at its own depth and calls its OnEnter. |
| `StateMachines.StateMachine.CreateAndPush` | src/common/hsm.h:1073-1081 | A created state carries the index that it gets on the stack as its depth; together with `Valid()` every stack depth is the index at all times. |
| `StateMachines.StateMachine.ProcessStateTransitionsOnce` | src/common/hsm.h:1294-1378 | Refines the pass; without a transition the stack is the same list of objects, with one all but the innermost are old objects and the innermost is new. |
| `StateMachines.StateMachine.ProcessStateTransitions` | src/common/hsm.h:1155-1177 | Refines initial state plus passes, up to the check for an infinite transition loop. |
| `StateMachines.StateMachine.Stop` | src/common/hsm.h:1137-1141 | Leaves an empty stack and the abstract machine popped to depth 0. |
| `TransmitHistory.EveryTransmissionIsToTheUnheard` | src/common/transmit_queue.h:298-300 | Each transmission is given exactly the original targets, in order, without those that acknowledged before it. |
| `TransmitHistory.NothingAfterTheEnd` | src/common/transmit_queue.h:302-313 | After the last acknowledgement, the failure action or RemoveAllTransmissions nothing happens to a transmission any more. |
| `TransmitHistory.TransmittedAtMost` | src/common/transmit_queue.h:165-187 | At most m_NumRetries transmissions. |
| `TransmitHistory.FailsOnceAfterAllRetries` | src/common/transmit_queue.h:168-177 | The failure action is the last event, and there were exactly m_NumRetries transmissions before it. |
| `TransmitHistory.SpacedExactly` | src/common/transmit_queue.h:164-186 | Every transmission and the failure action come at least m_WaitForRetries + 1 ms after the transmission recorded before if and only if no clock reading is more than 2^31 ms before that. |
| `TransmitHistory.SendTimesAreSpaced` | src/common/transmit_queue.h:164-186 | Then successive recorded times are that far apart. |
| `TransmitHistory.FailureComesLate` | src/common/transmit_queue.h:164-187 | In a history so spaced, the failure action comes at least m_NumRetries * (m_WaitForRetries + 1) ms after the first transmission. |
| `TransmitHistory.FailureCanComeEarly` | src/common/transmit_queue.h:164-187 | Without a steady clock it can come before the first transmission, for every number of retries and every wait below 2^31 - 1 ms. |
| `TransmitHistory.DueIsLaterExactly` | src/common/transmit_queue.h:164-165 | A retry that is due, through truncation to milliseconds and narrowing to int, comes later than the wait if and only if the clock was not set back by more than 2^31 ms. |
| `TransmitHistory.DueAfterWaitExactly` | src/common/transmit_queue.h:164-165 | With a clock that has moved forward by less than 2^31 ms, a retry is due if and only if at least the wait plus 1 ms has passed. |
| `TransmitHistory.StepBackMakesDueExactly` | src/common/transmit_queue.h:164-165 | A clock set back by less than 2^32 ms makes a retry due if and only if the step, in whole ms, is more than 2^31 and less than 2^32 minus the wait. |
| `TransmitHistory.AllAckedExactly` | src/common/transmit_queue.h:355-360 | For a non-empty list of targets, nobody is left exactly when every target has acknowledged. |
| `TransmitHistory.WithoutOnePlace` | src/common/transmit_queue.h:355 | Erasing targets keeps each other target in its place. |
| `TransmitProtocol.QueueKeepsInv` | src/common/transmit_queue.h:287-331 | Queueing from a reachable state throws "desynced" if and only if the keys are free and the number drawn is stale; otherwise it keeps the agreement of maps, queue and histories. |
| `TransmitProtocol.ExecuteKeepsInv` | src/common/transmit_queue.h:136-143 | Activating a task that has not failed keeps the agreement. |
| `TransmitProtocol.VisitKeepsInv` | src/common/transmit_queue.h:159-190 | Visiting a task, with a transmission, a failure or neither, accesses no missing map entry and keeps the agreement. |
| `TransmitProtocol.AckKeepsInv` | src/common/transmit_queue.h:335-390 | An acknowledgement, last or not, keeps the agreement. |
| `TransmitProtocol.ReapKeepsInv` | src/common/transmit_queue.h:172-174 | A detached removal of its captured id keeps the agreement. |
| `TransmitProtocol.RemoveAllKeepsInvExactly` | src/common/transmit_queue.h:395-412 | RemoveAllTransmissions keeps the agreement if and only if no transmission without keys is queued; exactly the ids that were live become stale. |
| `TransmitRuns.RunsKeepInv` | src/common/transmit_queue.h:287-412 | In every run of all these steps, RemoveAllTransmissions among them: key→id and id→keys are inverse to each other, every id with keys has targets, the queue holds exactly these ids and the inactive failed ones that wait for removal, and the stale ids are those that RemoveAllTransmissions has removed. |
| `TransmitRuns.RunsThrowExactly` | src/common/transmit_queue.h:321-328 | In every run a QueueTransmission throws "desynced" if and only if its keys are free and it draws the number of a transmission removed by RemoveAllTransmissions at any time before; Execute throws exactly for a number not in the queue; no map access fails. |
| `TransmitRuns.NeverDesynced` | src/common/transmit_queue.h:321-328 | In runs without RemoveAllTransmissions neither "desynced" exception can be thrown, and id→keys and id→targets have the same ids. |
| `TransmitRuns.DequeuedExactlyWhenOver` | src/common/transmit_queue.h:335-412 | In every run, a transmission is dequeued if and only if its failure action has run, RemoveAllTransmissions has removed it, or an acknowledgement has come and every target has acknowledged. |
| `TransmitRuns.RunsRetryAsPromised` | src/common/transmit_queue.h:145-194 | In every run, of every transmission: the bound on the number, the addressees of each, failure at most once, last and after exactly m_NumRetries; and spacing exactly if the clock is steady, with the gaps between successive transmissions and the bound on failure that follow. |
| `TransmitPasses.PassActsOnEveryTask` | src/common/transmit_queue.h:157-191 | In a pass over distinct tasks every live transmission that is active and due at its clock reading has exactly one action, recorded with that reading: its failure if its retries are used up, else a transmission to the targets not heard from; each other one has none. |
| `TransmitPasses.TaskDueExactly` | src/common/transmit_queue.h:164-165 | A task is due at once for its first transmission, and then exactly after the wait plus 1 ms. |
| `TransmitReachable.HappensExactly` | src/common/transmit_queue.h:99-412 | A history of acknowledgements, transmissions, failure and removal is that of a transmission in some run if and only if it is well behaved: the description of histories allows nothing that the protocol cannot do. |
| `TransmitReachable.SomeRunFailsEarly` | src/common/transmit_queue.h:164-187 | For every wait below 2^31 - 1 ms and every positive number of retries there is a run in which all transmissions and the failure happen while the clock only goes back. |
| `TransmitProtocol.EveryActionIsRecorded` | src/common/transmit_queue.h:165-187 | Every transmit and failure action belongs to a live transmission and appends one event to its history and to no other. |
| `TransmitProtocol.AckFreesTogetherExactly` | src/common/transmit_queue.h:353-386 | An acknowledgement that is the last one due frees all keys of its transmission together; any other only shortens its list of targets; other transmissions are untouched, and without a sender nothing changes. |
| `TransmitProtocol.LoopEndsExactly` | src/common/transmit_queue.h:372-386 | A removal erases the searched key, so that `while(true)` ends, if and only if the two key maps agree on it; if it does not, every further turn finds the key again and changes nothing. |
| `TransmitProtocol.VisitAfterExecuteThrowsExactly` | src/common/transmit_queue.h:136-190 | A due visit after Execute fails on a map access if and only if the id had failed before. |
| `TransmitRuns.ExecuteThrowsExactlyWhenOvertaken` | src/common/transmit_queue.h:331-332 | In every run, the Execute that ends a QueueTransmission throws if and only if by then every target has acknowledged or RemoveAllTransmissions has removed the transmission, whatever else came in between, short of another use of the number. |
| `TransmitQueues.TransmitQueue.QueueTransmission` | src/common/transmit_queue.h:99-113 | Takes the first number drawn that is not in use and inserts a fresh task under it. |
| `TransmitQueues.TransmitQueue.RemoveTransmissionFromQueue` | src/common/transmit_queue.h:120-129 | Exactly that id is gone. |
| `TransmitQueues.TransmitQueue.Execute` | src/common/transmit_queue.h:136-143 | Activates a known task, and changes nothing where it throws. |
| `TransmitQueues.TransmitQueueWithKeys.Enqueue` | src/common/transmit_queue.h:287-331 | All keys lead to the new number and all other entries are as before, with the keys and targets as given and an inactive fresh task; ignored exactly if some key is taken; throws "desynced" exactly for a stale number, and says what is left behind then. |
| `TransmitQueues.TransmitQueueWithKeys.QueueTransmission` | src/common/transmit_queue.h:287-333 | Without a step in between, Execute does not throw, and the task is active. |
| `TransmitQueues.TransmitQueueWithKeys.RemoveTransmission` | src/common/transmit_queue.h:335-390 | The `while(true)` loop terminates and refines the acknowledgement step. |
| `TransmitQueues.TransmitQueueWithKeys.EraseTarget` | src/common/transmit_queue.h:355 | Erase-remove leaves the other targets in their order. |
| `TransmitQueues.TransmitQueueWithKeys.VisitTask` | src/common/transmit_queue.h:159-190 | Refines the visit of one task; says when the user's transmit or failure action runs and what list it gets. |
| `TransmitQueues.TransmitQueueWithKeys.RunPass` | src/common/transmit_queue.h:157-191 | Visits every task given, one after the other, each with its clock reading, whatever the order; the states in between are returned as history. |
| `TransmitQueues.TransmitQueueWithKeys.RunDetachedRemoval` | src/common/transmit_queue.h:172-175 | Exactly that id leaves the queue and the captured ids; refines the step. |
| `TransmitQueues.TransmitQueueWithKeys.RemoveAllTransmissions` | src/common/transmit_queue.h:395-412 | Refines the step; the wrapper stays in step with its queue if and only if no transmission without keys was queued. |
| `EnvironmentTimes.YearStep` | src/data/environment_time.cpp:323-329 | The closed-form day count grows by 366 or 365 from year to year by the leap rule of Appendix C of RFC 3339. |
| `EnvironmentTimes.DaysOfEarlierMonths` | src/data/environment_time.cpp:297-314 | The month loop and the leap correction give the days of the year before the month. |
| `EnvironmentTimes.AccumulateYears` | src/data/environment_time.cpp:321-341 | The year loops add the difference of the closed-form counts, modulo 2^64, in either direction. |
| `EnvironmentTimes.AccumulateFields` | src/data/environment_time.cpp:265-283 | The growing modifier turns the field differences into microseconds, modulo 2^64. |
| `EnvironmentTimes.Subtract` | src/data/environment_time.cpp:263-344 | The subtraction is the difference of two microsecond counts by the closed-form day count, modulo 2^64. |
| `EnvironmentTimes.ClockTicks` | src/data/environment_time.cpp:263-344 | One microsecond later on the calendar clock, with every carry up to leap days and year ends, the difference is 1, and the other way round 2^64 - 1. |
| `EnvironmentTimes.UnitsOfFields` | src/data/environment_time.cpp:265-283 | Within a month, each field counts by its unit, from 1 microsecond to 86400000000, whatever values the fields have. |
| `EnvironmentTimes.OtherMonths` | src/data/environment_time.cpp:297-307 | A month below 1 counts as January, and month 13 as January of the next year. |
| `EnvironmentTimes.KnownDates` | src/data/environment_time.cpp:287-341 | 1 January 1970 has day number 719163, 1 March 2000 is 11017 days later, and 1900 has no leap day. |
| `EnvironmentTimes.DifferencesCompose` | src/data/environment_time.cpp:263-344 | (a-b)+(b-c) = (a-c) and (a-b)+(b-a) = 0 modulo 2^64. |
| `EnvironmentTimes.SubtractionIsExactInRange` | src/data/environment_time.cpp:263-344 | Read as a signed number the difference is exact if and only if it fits signed 64 bits. |
| `EnvironmentTimes.OrderAgreesWithMicros` | src/data/environment_time.cpp:206-230 | For valid dates of one instance, the field-by-field order is the order of the microsecond counts, and equal components are equal counts. |
| `EnvironmentTimes.OrderAgreesWithSubtraction` | src/data/environment_time.cpp:169-344 | For years at most 290000 apart, a < b exactly when a - b reads as negative, and a - b = 0 exactly when EQTimeComponents holds. |
| `EnvironmentTimes.SignTellsOrderExactlyInRange` | src/data/environment_time.cpp:206-344 | Up to 2^64 microseconds apart, order and sign agree if and only if the distance fits signed 64 bits. |
| `EnvironmentTimes.FarApartIsOutOfRange` | src/data/environment_time.cpp:263-344 | 300000 years or more do not fit. |
| `EnvironmentTimes.OneTotalOrder` | src/data/environment_time.cpp:206-253 | `<`, `>`, `>=` and `==` describe one strict total order on all nine fields. |
| `EnvironmentTimes.FirstDifferenceDecides` | src/data/environment_time.cpp:206-230 | On any nine fields the first one that differs decides. |
| `EnvironmentTimes.EqTimeComponentsExactly` | src/data/environment_time.cpp:169-189 | True exactly if the first eight fields are equal. |
| `ChunkedReading.AnySplitSameEffect` | src/DigiMesh/digimesh_radio.cpp:61-165 | Any split of a stream, empty chunks included, delivers the same frames in the same order and leaves the same buffer as one call, if nothing decidable follows a throw. |
| `ChunkedReading.SplitAfterThrow` | src/DigiMesh/digimesh_radio.cpp:158-159 | If something decidable does follow, there is a split into non-empty chunks with a different effect. |
| `ChunkedReading.ChunkIndependenceExactly` | src/DigiMesh/digimesh_radio.cpp:61-165 | Both directions together, for any reader that looks only at the head of its buffer. |
| `DigiMeshFraming.ThrowsLastExactly` | src/DigiMesh/digimesh_radio.cpp:61-165 | That condition, read off the bytes by scanning them: the first packet that throws, if one is reached, is followed by nothing that could be decided. |
| `DigiMeshFraming.RadioChunkIndependence` | src/DigiMesh/digimesh_radio.cpp:61-165 | For the radio, whatever its switch does with each frame type: all splits have the same effect if and only if the scan of the stream meets that condition. |
| `DigiMeshFraming.UnthrowingStreamSplitsFreely` | src/DigiMesh/digimesh_radio.cpp:61-165 | If no intact packet of the stream throws, every split has the same effect. |
| `DigiMeshRadios.HandledStreamSplitsFreely` | src/DigiMesh/digimesh_radio.cpp:137-160 | If every intact packet of the stream is of a handled type and reports no 0x74, every split has the same effect. |
| `DigiMeshRadios.ThrowingExactly` | src/DigiMesh/digimesh_radio.cpp:137-160 | Handling a packet throws if and only if its type is unknown or it is a transmit status that reports 0x74. |
| `DigiMeshRadios.FrameByType` | src/DigiMesh/digimesh_radio.cpp:137-160 | What becomes of a frame and of the bytes behind it, type by type: 0x88, 0x8b, 0x90 and 0x91 are delivered, 0x89, 0x8a and 0x97 are not, 0x8b with status 0x74 is delivered and then throws, other types throw. |
| `DigiMeshRadios.TrafficComesBack` | src/DigiMesh/digimesh_radio.cpp:61-165 | Of a stream of frames of known types exactly the packets with data are delivered, in order. |
| `DigiMeshFraming.FrameLayout` | src/DigiMesh/digimesh_radio.h:200-216 | A frame is 0x7E, the length in two bytes, the payload and one checksum byte that makes payload and checksum add up to 0xFF. |
| `DigiMeshFraming.NoiseIsSkipped` | src/DigiMesh/digimesh_radio.cpp:85-89 | Bytes before a start byte have no effect. |
| `DigiMeshFraming.IncompleteFrameWaits` | src/DigiMesh/digimesh_radio.cpp:96-100 | As long as a frame is incomplete nothing is erased or delivered. |
| `DigiMeshFraming.DamagedFrameIsDropped` | src/DigiMesh/digimesh_radio.cpp:119-135 | A frame with a wrong checksum is dropped whole, and what follows is received as if it stood alone. |
| `DigiMeshFraming.WrappedLengthIsLost` | src/DigiMesh/digimesh_radio.cpp:94-105 | A length field of 65532 or more, which wraps the packet length, ends in undefined behaviour. |
| `DigiMeshFraming.FrameIsScanned` | src/DigiMesh/digimesh_radio.cpp:93-135 | A frame at the head of the buffer is recognised with its payload, checksum right, whatever follows it. |
| `DigiMeshFraming.FramesComeBack` | src/DigiMesh/digimesh_radio.cpp:74-135 | Frames with noise around them, whatever bytes their payloads hold, come back as exactly their payloads in order; at most two noise bytes stay buffered. |
| `DigiMeshFraming.FrameComesBackExactly` | src/DigiMesh/digimesh_radio.cpp:94-105 | A payload comes back from its frame if and only if it has at most 65531 bytes. |
| `DigiMeshFraming.DeliveredFrameWasReceived` | src/DigiMesh/digimesh_radio.cpp:93-119 | Whatever is delivered was in the buffer as a whole frame, with start byte, length and right checksum, at some position. |
| `DigiMeshFraming.AcceptedExactly` | src/DigiMesh/digimesh_radio.cpp:93-135 | A packet is accepted if and only if the buffer starts with the frame of that payload. |
| `FrameIds.RefusesWithAFreeIdExactly` | src/DigiMesh/digimesh_radio.cpp:257-271 | The search refuses although an id is free if and only if that is the last one handed out. |
| `FrameIds.AnswerIsUnique` | src/DigiMesh/digimesh_radio.cpp:250-277 | The first free id cyclically after the last one is one id. |
| `FrameIds.AllBetweenAreInUse` | src/DigiMesh/digimesh_radio.cpp:257-271 | Every id between the last one handed out and the new one, going up and round from 255 to 1, is in use. |
| `FrameIds.FirstIdIsOne` | src/DigiMesh/digimesh_radio.cpp:254-276 | The first id is 1. |
| `FrameIds.PreviousIsLastHandedOut` | src/DigiMesh/digimesh_radio.cpp:274 | In every run the search starts behind the id handed out last, finished or not. |
| `FrameIds.OutstandingIdsAreDistinct` | src/DigiMesh/digimesh_radio.cpp:250-283 | In every run of reserve and finish, the ids handed out and not finished are pairwise distinct, in 1..255, and exactly those marked in use. |
| `FrameIds.ReservedIdIsNotOutstanding` | src/DigiMesh/digimesh_radio.cpp:271-276 | No id is handed out twice without a finish in between. |
| `DigiMeshRadios.CalcChecksum` | src/DigiMesh/math_helper.h:11-20 | The checksum is that of the unsigned bytes whether the platform's char is signed or not. |
| `DigiMeshRadios.BigEndianRoundTrip` | src/DigiMesh/ATData/message.h:29-32 | The address that the receiver assembles from eight bytes is the one that was split into them. |
| `DigiMeshRadios.BigEndianByte` | src/DigiMesh/digimesh_radio.h:205-208 | Byte i of the big-endian address is the address divided by 256^(7-i), modulo 256. |
| `DigiMeshRadios.TransmitRequestIsReadable` | src/DigiMesh/digimesh_radio.h:203-215 | A transmit request is 0x10, the frame id, the destination in eight bytes that read back as it, FF FE 00 00, and the data. |
| `DigiMeshRadios.AtCommandIsReadable` | src/DigiMesh/digimesh_radio.h:256-266 | An AT command is 0x08, the frame id, two letters and the data. |
| `DigiMeshRadios.BuiltFramesComeBack` | src/DigiMesh/digimesh_radio.h:184-268 | Frames from both builders, with noise free of 0x7E around them, are split into exactly their frame data in order. |
| `DigiMeshRadios.MessageComesBackExactly` | src/DigiMesh/digimesh_radio.h:184-216 | A message comes back from its frame if and only if it has at most 65517 data bytes. |
| `DigiMeshRadios.DigiMeshRadio.ReserveNextFrameId` | src/DigiMesh/digimesh_radio.cpp:250-277 | The loop terminates; -1 if and only if every id but the last one handed out is in use; else the first free id in 1..255 cyclically after the last one, which is marked. |
| `DigiMeshRadios.DigiMeshRadio.FinishFrame` | src/DigiMesh/digimesh_radio.cpp:280-283 | Frees exactly that id. |
| `DigiMeshRadios.DigiMeshRadio.ConstructMessage` | src/DigiMesh/digimesh_radio.h:184-228 | Writes the frame of the transmit request, with id 0 and no reservation when there is no callback; no frame when no id is left. |
| `DigiMeshRadios.DigiMeshRadio.AtCommandHelper` | src/DigiMesh/digimesh_radio.h:242-283 | Writes the frame of the AT command under a reserved id, or nothing. |
| `DigiMeshRadios.DigiMeshRadio.InspectBuffer` | src/DigiMesh/digimesh_radio.cpp:78-135 | What the code finds at the head of the buffer is what the deframer's definition says. |
| `DigiMeshRadios.DigiMeshRadio.ReceiveData` | src/DigiMesh/digimesh_radio.cpp:61-165 | The loop terminates; delivered frames, exception and remaining buffer are those of the deframer on buffer and chunk together. |
| `DigiMeshRadios.AddBytes` | src/DigiMesh/digimesh_radio.cpp:126-130 | The 8-bit sum is the checksum byte plus the bytes of the packet modulo 256. |
| `DigiMeshRadios.FillMessage` | src/DigiMesh/digimesh_radio.h:200-215 | The bytes written by index are start, length and the transmit request. |
| `DigiMeshRadios.FillAtCommand` | src/DigiMesh/digimesh_radio.h:253-266 | The bytes written by index are start, length and the AT command. |
| `PackageNames.FirstDifferenceDecides` | install/_local_setup_util_sh.py:138 | Names are compared by the code point of the first character that differs. |
| `PackageNames.BeginningComesFirst` | install/_local_setup_util_sh.py:138 | A name comes before every longer one that it begins. |
| `PackageNames.First` | install/_local_setup_util_sh.py:138-139 | The first of the sorted names. |
| `PackageOrder.CycleExcludesOrder` | install/_local_setup_util_sh.py:131-145 | A cycle and an order of the packages exclude each other. |
| `PackageOrder.DependingSetHasCycle` | install/_local_setup_util_sh.py:134-137 | A non-empty set in which every package depends on a member contains a cycle. |
| `PackageOrder.GreedyStep` | install/_local_setup_util_sh.py:132-141 | Taking the alphabetically first ready package keeps the list a prefix that no order comes before. |
| `PackageOrder.GreedyOrderIsLeast` | install/_local_setup_util_sh.py:119-146 | Such a list of all packages is the lexicographically least of all orders. |
| `PackageOrder.LeastOrderIsUnique` | install/_local_setup_util_sh.py:119-146 | There is one such order, so the result does not depend on the order of the dictionary. |
| `PackageOrder.RestIsStuckSet` | install/_local_setup_util_sh.py:134-137 | When nothing is ready, the packages left are the greatest set in which each depends on a member or on a name that is not a package. |
| `PackageOrder.DependedSetHasCycle` | install/_local_setup_util_sh.py:149-171 | A non-empty set in which every package is depended on by a member contains a cycle. |
| `PackageOrder.CircularPartHasCycleExactly` | install/_local_setup_util_sh.py:134-171 | The packages that the error names are none if and only if there is no cycle. |
| `PackageOrder.PackageMap.OrderPackages` | install/_local_setup_util_sh.py:119-146 | Returns the least order if there is an order; raises the error exactly when there is none, that is for a cycle or a dependency on an unknown name, and then names the greatest set of the stuck packages in which each is depended on. |
| `PackageOrder.PackageMap.ReduceCycleSet` | install/_local_setup_util_sh.py:149-171 | The fixpoint iteration terminates with the greatest set in which every package is depended on by a member. |
| `PackageOrder.PackageMap.RemoveDependency` | install/_local_setup_util_sh.py:142-145 | Removes the name from every dependency set and nothing else. |
| `PackageOrder.PackageMap.KeepOnly` | install/_local_setup_util_sh.py:162-165 | Deletes exactly the packages not depended on. |
| `PackageOrder.PackageMap.CollectDepended` | install/_local_setup_util_sh.py:158-161 | The union of all dependencies. |
| `PackageOrder.PackageMap.NextPackage` | install/_local_setup_util_sh.py:132-139 | Finds the alphabetically first ready package, or that none is ready. |
| `PackageOrder.PackageMap.DropUnknownDependencies` | install/_local_setup_util_sh.py:98-101 | Intersects each dependency set with the packages found, so that the dictionary is closed. |
| `PackageOrder.HasOrderExactly` | install/_local_setup_util_sh.py:98-146 | There is an order if and only if there is no cycle and every dependency is a package, which the filter at the end of get_packages ensures. |
| `ResourceWire.IdLayout` | src/MACEDigiMeshWrapper/interop.cpp:243-246 | The four bytes of an id, most significant first. |
| `ResourceWire.IdRoundTrip` | src/MACEDigiMeshWrapper/interop.cpp:144-148 | ORing the shifted bytes gives back the 32-bit id that was masked and shifted, negative ids included. |
| `ResourceWire.ItemLayout` | src/MACEDigiMeshWrapper/interop.cpp:234-246 | An item is its name, one NUL and the four bytes of its id. |
| `ResourceWire.ItemsInParts` | src/MACEDigiMeshWrapper/interop.cpp:229-247 | An announcement is its items one after the other. |
| `ResourceWire.NamesLayout` | src/MACEDigiMeshWrapper/interop.cpp:76-87 | A request is its names one after the other, each with one NUL. |
| `ResourceWire.ParsesExactly` | src/MACEDigiMeshWrapper/interop.cpp:134-153 | The parser accepts a body, and returns these names and ids, if and only if the body is made of them; names may be empty here. |
| `ResourceWire.ParsesNamesExactly` | src/MACEDigiMeshWrapper/interop.cpp:160-174 | The same for the request. |
| `ResourceWire.ItemsRoundTripExactly` | src/MACEDigiMeshWrapper/interop.cpp:129-157 | The parser returns the announced names and ids if and only if no name holds a NUL. |
| `ResourceWire.NamesRoundTripExactly` | src/MACEDigiMeshWrapper/interop.cpp:158-174 | The same for the request message. |
| `ResourceWire.PrintedAfterParsed` | src/MACEDigiMeshWrapper/interop.cpp:218-249 | A body that parses into non-empty names is the one that the sender writes for the result. |
| `ResourceWire.PushName` | src/MACEDigiMeshWrapper/interop.cpp:234-241 | The do/while loop appends the first character, the rest up to a NUL, and a NUL. |
| `ResourceWire.PushId` | src/MACEDigiMeshWrapper/interop.cpp:243-246 | Appends the four bytes of the id, most significant first. |
| `ResourceWire.SendItemPresentMessage` | src/MACEDigiMeshWrapper/interop.cpp:218-249 | Throws exactly for lists of different lengths, else writes 0x02 and the items in order. |
| `ResourceWire.RequestContainedResources` | src/MACEDigiMeshWrapper/interop.cpp:71-90 | Writes 0x03 and the names in order. |
| `ResourceWire.ReadName` | src/MACEDigiMeshWrapper/interop.cpp:139-143 | Reads up to the next NUL. |
| `ResourceWire.ReadId` | src/MACEDigiMeshWrapper/interop.cpp:144-148 | The loop that ORs bytes into the id refines the four-byte number. |
| `ResourceWire.ParseItemPresent` | src/MACEDigiMeshWrapper/interop.cpp:129-157 | The position-based loop terminates and refines the parser of the round trip. |
| `ResourceWire.ParseContainedRequest` | src/MACEDigiMeshWrapper/interop.cpp:158-174 | The same for the request. |
| `ResourceTable.ApplyRefines` | src/MACEDigiMeshWrapper/resource.h:210-300 | In any state each operation changes the address of exactly the resource it names, and an address that is there already wins. |
| `ResourceTable.ConsistentExactly` | src/MACEDigiMeshWrapper/resource.h:210-300 | An operation keeps the two maps in agreement if and only if it adds no unknown resource under address 0 and removes no local resource as external. |
| `ResourceTable.RunsAreConsistent` | src/MACEDigiMeshWrapper/resource.h:200-300 | In every run of such operations each internal list holds without duplicates exactly the values with address 0. |
| `ResourceTable.RunsKeepSameKeys` | src/MACEDigiMeshWrapper/resource.h:210-300 | In every run whatever, both maps have the same keys, so `at` on the internal lists does not throw. |
| `ResourceTable.AddressIsKept` | src/MACEDigiMeshWrapper/resource.h:261-300 | A held address never changes before the resource is removed. |
| `ResourceTable.ContainsKey` | src/MACEDigiMeshWrapper/resource.h:42-65 | True exactly if every queried name occurs in the key. |
| `ResourceTable.ResourceList.AddInternalResource` | src/MACEDigiMeshWrapper/resource.h:210-227 | Refines the operation; throws exactly for a known resource, unchanged then. |
| `ResourceTable.ResourceList.RemoveInternalResource` | src/MACEDigiMeshWrapper/resource.h:229-252 | Refines the operation, with the loop that erases the first occurrence. |
| `ResourceTable.ResourceList.AddExternalResource` | src/MACEDigiMeshWrapper/resource.h:261-284 | Refines the operation; true exactly for an unknown resource; throws exactly for one held under another non-local address. |
| `ResourceTable.ResourceList.RemoveExternalResource` | src/MACEDigiMeshWrapper/resource.h:286-300 | Refines the operation. |
| `ResourceTable.ResourceList.HasAddr` | src/MACEDigiMeshWrapper/resource.h:302-314 | True exactly for a known resource. |
| `ResourceTable.ResourceList.GetAddr` | src/MACEDigiMeshWrapper/resource.h:316-319 | The address of a known resource; throws exactly for an unknown one. |
| `ResourceTable.ResourceList.GetResourcesMatch` | src/MACEDigiMeshWrapper/resource.h:321-346 | Every matching pair once; with internalOnly in a consistent table, exactly the pairs of the internal lists whose key contains every queried name. |

## Left out

- Threads, mutexes and sleeping: each operation, each visit of a task and each detached removal is one atomic step, and no claim about deadlock is made (the failure callback and QueueTransmission take the two locks in different orders).
- HsmRuns.RunsAreSound: runs contain value changes by the innermost state only; for changes by outer states `StateValues.WriteKeepsUndoExactly` says when the undo property survives.
- StateMachines.StateMachine.ProcessStateTransitions: the check for an infinite transition loop ends the call with false; a build without assertions would go on. GetTransition is asked through one table of answers per pass, so side effects of GetTransition are not modelled, and OnEnter and OnExit do not call back into the machine.
- StateMachines.StateMachine.SetStateValue: a resetter refers to its StateValue by position in the machine's table instead of by address, and all StateValues of a machine have one type.
- State machine: `Shutdown(false)`, Update, state overrides, RTTI and names, logging, and argument forwarding beyond one value.
- TransmitQueues.TransmitQueueWithKeys.Enqueue: one wrapper uses the queue; with several key types, `Key` stands for their tagged union, which shares the target map and the queue as the class chain does (RemoveAllTransmissions is then that of a single key type).
- TransmitRuns.RunsKeepInv: runs do not call Execute for an id whose failure action has run, which `TransmitProtocol.VisitAfterExecuteThrowsExactly` shows to be needed, do not call RemoveAllTransmissions while a transmission without keys is queued, which `TransmitProtocol.RemoveAllKeepsInvExactly` shows to be needed, and end at a "desynced" exception, which leaves a mutex locked.
- TransmitHistory.FailureComesLate: the bound is proved of histories whose actions are properly spaced, which by `TransmitHistory.SpacedExactly` are those with a steady clock; an unsteady clock may or may not make up for an early retry later.
- DigiMeshRadios.BigEndianByte: the mask and shift of the source are written as division and remainder.
- TransmitQueues.TransmitQueue.QueueTransmission: std::rand is a list of draws, one of which is unused; the loop of the source would otherwise draw on.
- TransmitQueues.TransmitQueueWithKeys.VisitTask: the user's transmit and failure functions are the values returned; tasks queued directly on the queue, without the wrapper, take no part.
- EnvironmentTimes.Subtract: field differences beyond 32 bits, which are signed overflow in the source, are plain integers here; a month above 13, for which the source reads past its table, is excluded.
- EnvironmentTime: the parts based on QDateTime, the conversions through doubles, and the constructor from `tm`, which fills a month starting at 0.
- DigiMeshRadios.DigiMeshRadio.ReceiveData: a packet too short for its handler, an empty packet with a right checksum and a wrapped packet length are undefined behaviour in the source, and one outcome (`Lost`) here; the callbacks of frames, with the deserialisers of their data, and message handlers are not run.
- DigiMeshRadios.DigiMeshRadio.ConstructMessage: data of 2^31 - 18 bytes or more, for which the source's int overflows, is excluded.
- Serial, UDP, TCP and Ethernet links, MarshalOnThread and frame persistence behaviours other than the reservation and release of ids.
- PackageOrder.PackageMap.OrderPackages: the error holds the set of names, not its message text; reading the package files is a parameter. The PowerShell copy of the script has the same functions.
- ResourceWire.ItemsRoundTripExactly: names are non-empty, because for an empty name the sender reads behind the end of its string.
- ResourceWire.ParseItemPresent: reading behind the end of a message is undefined behaviour in the source and `None` here; the delivery of the result to the handlers is not modelled.
- The REMOVE_COMPONENT_ITEM parser: an inner variable shadows its position, so the outer loop does not advance.
- ResourceTable.ResourceList.GetResourcesMatch: the order of the result is that of the hash maps, so only its contents are stated.
- src/data_auctioneer, src/data/timer.cpp, the MAVLink loss counters, configuration, user interface and tables of enumerations: no part of this model.
