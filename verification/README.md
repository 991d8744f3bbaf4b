# Timers and event-loop servers: a verified model

The repository is a collection of small network servers. Six of them hold real state machines, and this
project models those six in Dafny and proves what they keep over every run.

- **The hashed timing wheel** (`timer/time_wheel_timer.hpp`): 600 slots of 100 ms, each a list of nodes that
  store their slot and a rotation count, and a cursor. `WheelModel` is the wheel on values next to the naive
  countdown it stands for (every live timer with the ticks it still waits; a tick fires those at zero and
  lowers all others), with the proof that the wheel, which touches one slot per tick, refines the countdown
  over every run. `TimingWheel` is the container class that updates its slot lists in place, proved against
  `WheelModel`. `WheelRuns` proves when a timer fires, how often it is looked at, conservation, and the
  distance of the firing instant from the requested timeout. `TimerAgreement` proves that the callbacks are
  those of a stable priority queue on deadlines, and that the sorted list would make the same ones.
- **The traversal as it is written** (`SkippingWheel`, `OnTime`, `LateRuns`, `WrittenRuns`, `FlatWheel`):
  lines 112-130 of the wheel advance the iterator twice after a node has fired. Both traversals are modelled.
  `TWTimerContainer.Tick` is the one written, where an advance past the end of the list, which C++ leaves
  undefined, is read as the end of the loop; `OneAdvanceTick` advances once per node, which is what the rest
  of the class and its comments intend. `WheelModel`, `WheelRuns` and `TimerAgreement` speak of one advance
  per node. Of the code as written, `OnTime` proves for any timeouts on exactly which tick a timer fires,
  `LateRuns` exactly which runs fire like the stable queue, and `WrittenRuns` which go step by step like the
  intended ones, and conservation for all; `SkippingWheel` bounds the lateness, and `FlatWheel` sharpens it
  for timeouts under a turn.
- **The sorted timer list** (`time_wheel/lst_timer.hpp`): `SortedTimerList` is the pointer structure with
  `head`, `tail`, `prev` and `next`, every branch of add, adjust, delete and tick, proved against stable
  insertion, reinsertion, removal and the due prefix of `StableQueue`. A tick that drains the list leaves the
  old `tail` behind, so the invariant speaks of `tail` only while the list is not empty. `ListOrder` proves
  the order over every run.
- **The idle-connection server** (`time_wheel/timer_list.cpp`): `IdleServer` is the event loop's branches on
  the connection table, the timers and the list; `IdleRuns` proves which connections a run closes, against a
  map from connections to the time of their last activity.
- **The reactor** (`reactor/server.c`): `Reactor` is the growing chain of 1024-entry blocks and the callbacks
  that work through it; `ReactorModel` is the flat table of entries together with the kernel's interest set,
  and proves the two stay in step; `ReactorOutcomes` says what each callback, event and batch comes to. Line 98
  lacks a semicolon; it is read as present.
- **Main thread and workers** (`epoll_v2/server1.c`): `WorkerDispatch` is a state machine whose steps
  interleave freely: registering with an epoll set, and locking, reading, writing and unlocking a counter are
  separate steps. Counters wrap at 2^32 as `unsigned int` does. What the threads do in turn, and that none is
  ever stuck, is proved over every interleaving.
- **The heartbeat server** (`heartbeat/server.cpp`): `Heartbeat`, with the watched set, its incrementally
  kept maximum, and the sweep.
- **The wheel-based server** (`timer/test.cpp`): `WheelServer`, the joint life of connection objects, timer
  nodes and open sockets, with the history of all rounds so far; `ServerRounds`, one round on values; and
  `ServerRuns`, which decides from such a history on which tick a connection is timed out.

Where the source updates objects in place the model is a class whose methods are proved against functions on
values; what the source promises is then proved about those functions. Ghost fields hold the abstract value.
Time, readiness, results of socket calls and the interleaving are inputs, so every theorem quantifies over
them. `WheelServer`, `IdleServer` and `Reactor` keep the history of their events in a ghost field that `Valid()`
ties to their state, so that the theorems about runs hold in every state of the class.

## What the code does differently from its comments

- `SkippingWheel.SkipAgreesIff`, `OnTime.VisitedIff`: the tick as written equals one advance per node exactly when
  no node but the last of the slot under the cursor is due; it passes over a node exactly when an odd number of
  due ones are directly ahead of it. Where it advances past the end, that is read as the end of the loop here and
  in all that follows; under this reading no timer fires early. Without the reading a pass is right exactly
  when none is due, and where all are due it advances past the end exactly when their number is odd
  (`FlatWheel.FlatRunsPastEndIff`).
- `OnTime.SetTimerFiresAfterSkips`: a timer with t ticks that is left alone fires on the tick after t others and as
  many turns of 600 as ticks have passed over it, so on its own tick exactly when none has. The callbacks are
  those of the stable queue exactly when no timer comes due that has been passed over since it was set
  (`LateRuns.StableQueueIffNoneLate`).
- `ServerRuns.TimedOutOnTick151`: a connection of the wheel-based server is timed out on the 151st tick after its
  accept or last write exactly when an even number of entries are ahead of it in its slot list at that tick. Of
  two connections accepted between the same two ticks the second is not (`ServerRuns.SecondIsSkipped`): it is
  timed out on the 751st (`ServerRuns.SecondIsATurnLate`).
- `StableQueue.AdjustIsReinsertion`, `ListOrder.OrderedIffSupported`: adjusting a timer keeps the list in
  order exactly when its new expiry is not below its predecessor's; the list never moves a timer forward
  (`ListOrder.BroughtForward`).
- `WorkerDispatch.ChooseWorker`: the loop meant to find the least loaded worker compares a worker's number
  with the counts, so it always chooses worker 0, and is right exactly when worker 0 has fewest connections;
  a state in which it has not is reached by the second connection (`WorkerDispatch.LeastLoadedMissed`).
- `WorkerDispatch.CounterWrapsIff`: a counter reads 2^32 - 1 exactly when an add not yet counted is of a
  connection already closed and discounted and the worker has no other (`WorkerDispatch.CounterCanWrap`).
- `ReactorModel.EchoIsCompleteIff`: a short send loses the rest of its chunk; the echo is complete exactly
  when every send was full (`ReactorModel.ShortSendLoses` is a run in which one was not).
- `WheelServer.AcceptConn`: a failed accept leaves the object allocated before it behind (`leaked`), so
  objects and timers are matched one to one for registered connections.
- In `time_wheel/timer_list.cpp` the local `epollfd` of line 93 hides the global one, so the callback's
  `epoll_ctl` at line 60 has no effect on the set in use; the `close` that follows takes the socket out of it.

## Model

| member | source | states |
|---|---|---|
| `WheelModel.TicksOf` | timer/time_wheel_timer.hpp:165-174 | a timeout is rounded down to whole slots, and to one slot below 100 ms |
| `WheelModel.OneTickLater` | timer/time_wheel_timer.hpp:177 | when the cursor moves on, a timer with one tick less to wait belongs in the same slot, with a rotation lower by one exactly if that slot was under the cursor |
| `WheelModel.PushBackRefines` | timer/time_wheel_timer.hpp:158-190 | placing a node by slot and rotation is, for the countdown, adding a timer with that many ticks to wait behind all others |
| `WheelModel.RemoveRefines` | timer/time_wheel_timer.hpp:136-155 | taking a node out of its slot is removing that timer from the countdown |
| `WheelModel.TickRefines` | timer/time_wheel_timer.hpp:107-133 | with one advance per node, which lines 112-130 intend: a tick that touches one slot fires exactly the timers with nothing left to wait, in the order in which they were set, and lowers every other timer by exactly one; includes the cursor's wrap and timers in the current slot with rotations left |
| `WheelModel.ApplyRefines` | timer/time_wheel_timer.hpp:106-229 | every operation of the wheel, its tick with one advance per node, is the countdown's |
| `WheelModel.RunRefines` | timer/time_wheel_timer.hpp:106-229 | with one advance per node: over every run the wheel fires what the naive countdown fires, operation by operation and in the same order |
| `WheelRuns.ReachableRepresents` | timer/time_wheel_timer.hpp:85-229 | every wheel reached from the constructor's with one advance per node stands for a countdown, so the theorems about such wheels hold in all of them |
| `WheelRuns.FiresExactlyOnTime` | timer/time_wheel_timer.hpp:107-187 | with one advance per node: a timer set with t ticks and then left alone fires once, on the (t+1)-th following tick, and on no other operation, whatever is done to other timers |
| `WheelRuns.ExaminedOncePerTurn` | timer/time_wheel_timer.hpp:112-132 | with one advance per node: by the time it has fired, a timer with r ticks to wait has been examined r/600 + 1 times |
| `WheelRuns.ExaminedExactly` | timer/time_wheel_timer.hpp:112-187 | with one advance per node: the same from the add or reset, t/600 + 1 examinations |
| `WheelRuns.InOneSlotOnce` | timer/time_wheel_timer.hpp:176-187 | a live timer is in exactly one slot list, once: of the 600 the one the cursor reaches when its wait is over |
| `WheelRuns.InNoSlot` | timer/time_wheel_timer.hpp:122-128 | a timer that is not live is in no slot list |
| `WheelRuns.RunConserves` | timer/time_wheel_timer.hpp:107-229 | with one advance per node: over every legal run and for every handle, live before + added = live after + fired + deleted |
| `WheelRuns.WheelConserves` | timer/time_wheel_timer.hpp:107-229 | with one advance per node: a timer created once is, at the end of any run of the wheel, exactly one of live, fired once and deleted |
| `WheelRuns.FiringInstant` | timer/time_wheel_timer.hpp:78-177 | with one advance per node, ticks 100 ms apart and a timer set at any instant between two of them: firing is less than 100 ms early and at most 100 ms late; for timeouts below 100 ms it comes after more than 100 and at most 200 ms |
| `StableQueue.StableSortIsStable` | timer/time_wheel_timer.hpp:187 | the order of the reference queue: sorted, a permutation, equal deadlines in the order they came |
| `TimerAgreement.WheelIsStableQueue` | timer/time_wheel_timer.hpp:106-229 | with one advance per node: over every run the wheel's callbacks are those of a stable priority queue, by deadline tick, equal deadlines in the order of their last add or reset |
| `TimerAgreement.AdjustIsReset` | time_wheel/lst_timer.hpp:77-101 | changing a listed timer's key to a later one and adjusting is removing it and inserting it again |
| `TimerAgreement.WheelAgreesWithList` | time_wheel/lst_timer.hpp:57-185 | driven by the same adds, deletes and deadline-extending resets, the wheel with one advance per node and the sorted list fire the same timers in the same order on every tick |
| `SkippingWheel.SkipAgreesIff` | timer/time_wheel_timer.hpp:112-130 | the pass as written has the effect of one advance per node if and only if no node but the last is due |
| `SkippingWheel.SkipAgreesWithinListIff` | timer/time_wheel_timer.hpp:112-130 | it does so without advancing past the end if and only if no node is due |
| `SkippingWheel.PastEndIffLastDue` | timer/time_wheel_timer.hpp:112-122 | when no node but the last is due, the iterator runs past the end if and only if the last one is |
| `SkippingWheel.SkippedExample` | timer/time_wheel_timer.hpp:112-130 | of two timers due together only the first is fired |
| `SkippingWheel.SkipConserves` | timer/time_wheel_timer.hpp:112-130 | the pass as written neither loses nor repeats a timer |
| `SkippingWheel.SkipFollows` | timer/time_wheel_timer.hpp:112-130 | a node is fired only with rotation 0; otherwise it stays, examined and not further back, or skipped and further forward |
| `SkippingWheel.SkipTickFollows` | timer/time_wheel_timer.hpp:107-133 | after a tick as written a timer has fired with nothing left to wait, or waits one tick less, or a turn more than that but further forward in its list |
| `SkippingWheel.LateByWholeTurns` | timer/time_wheel_timer.hpp:112-130 | with an advance past the end read as the end of the loop: over every run as written no timer fires early, none twice, and one left alone fires late by a whole number of turns, at most one per node ahead of it, and certainly within that bound |
| `SkippingWheel.AddedTimerIsLateByTurns` | timer/time_wheel_timer.hpp:165-205 | the same from the add: at most one turn per node in the slot list when it is inserted |
| `SkippingWheel.ResetTimerIsLateByTurns` | timer/time_wheel_timer.hpp:220-229 | the same from a reset of any timer |
| `OnTime.VisitedIff` | timer/time_wheel_timer.hpp:112-130 | the pass as written comes to a node if and only if an even number of due nodes are directly ahead of it |
| `OnTime.PassDecides` | timer/time_wheel_timer.hpp:112-130 | a node the pass comes to fires with rotation 0 and otherwise loses one rotation; one it passes over stays as it is; none moves back |
| `OnTime.TickDecides` | timer/time_wheel_timer.hpp:107-133 | the same of a tick, decided by what can be seen before it |
| `OnTime.FiresExactlyAfterSkips` | timer/time_wheel_timer.hpp:107-133 | over every run as written, for any timeouts: a timer with r ticks left that is left alone fires on the tick after r others and as many turns of 600 as ticks have passed over it, and on no other operation |
| `OnTime.SetTimerFiresAfterSkips` | timer/time_wheel_timer.hpp:107-229 | the same from the add or the reset with t ticks: it fires on the tick after t others and 600 for each tick that passes over it |
| `OnTime.FiresOnOwnTickIff` | timer/time_wheel_timer.hpp:107-229 | such a timer fires on its own, the (t+1)-th tick if and only if no tick up to then, that one included, passes over it, and on no earlier operation |
| `LateRuns.OverIff` | timer/time_wheel_timer.hpp:112-130 | the timers a pass goes over are those with an odd number of due ones directly ahead |
| `LateRuns.SkipTickRefines` | timer/time_wheel_timer.hpp:107-133 | the tick as written is a pass over a countdown that makes each timer it goes over wait a turn longer |
| `LateRuns.RunsAlikeIffNoneLate` | timer/time_wheel_timer.hpp:106-229 | from any wheel, the callbacks of a legal run as written are those of the intended countdown if and only if at no tick a timer is due that has been passed over since it was set |
| `LateRuns.StableQueueIffNoneLate` | timer/time_wheel_timer.hpp:106-229 | over any legal run from the start, for any timeouts, the callbacks as written are those of the stable priority queue if and only if that holds |
| `WrittenRuns.TickAgreesIff` | timer/time_wheel_timer.hpp:107-133 | the tick as written is the tick with one advance per node if and only if no node but the last of the slot under the cursor is due |
| `WrittenRuns.RunsAgreeIff` | timer/time_wheel_timer.hpp:106-229 | a run as written goes step by step like the run with one advance per node if and only if that holds at each of its ticks |
| `WrittenRuns.WrittenWheelIsStableQueue` | timer/time_wheel_timer.hpp:106-229 | in those runs the callbacks of the code as written are those of the stable priority queue; the exact condition is that of `LateRuns.StableQueueIffNoneLate` |
| `WrittenRuns.ShortIsStableQueueIff` | timer/time_wheel_timer.hpp:106-229 | with all timeouts under a turn they are those of the queue if and only if no timer is ever due with another behind it in its slot |
| `WrittenRuns.WrittenWheelFiresOnTime` | timer/time_wheel_timer.hpp:107-187 | and every timer left alone fires on its tick and on no other; the exact condition for one timer is that of `OnTime.FiresOnOwnTickIff` |
| `WrittenRuns.SkipRunConserves` | timer/time_wheel_timer.hpp:107-229 | over every legal run as written and for every handle: in a slot list before + added = in one after + fired + deleted |
| `WrittenRuns.WrittenWheelConserves` | timer/time_wheel_timer.hpp:107-229 | a timer created once is, at the end of any legal run as written, exactly one of live, fired once and deleted |
| `FlatWheel.EvensFire` | timer/time_wheel_timer.hpp:112-130 | when no node has rotations left, the pass as written fires exactly the nodes at even positions and keeps those at odd ones, in order |
| `FlatWheel.FlatRun` | timer/time_wheel_timer.hpp:165-180 | timeouts shorter than a turn leave no node with rotations over any run as written |
| `FlatWheel.PositionDecides` | timer/time_wheel_timer.hpp:107-133 | on such a wheel a tick at its slot fires a timer if and only if an even number of nodes are ahead; otherwise it stays with half as many ahead |
| `FlatWheel.FiresOnTimeIff` | timer/time_wheel_timer.hpp:107-187 | the case of timeouts under a turn: a timer set with t < 600 ticks and left alone fires on the (t+1)-th tick as written if and only if an even number of entries are ahead of it then, which is when no tick has passed over it |
| `FlatWheel.FlatRunsPastEndIff` | timer/time_wheel_timer.hpp:112-122 | when no node has rotations left, the pass advances past the end, which is read as the end of the loop, if and only if the slot has an odd number of entries |
| `FlatWheel.LateByLogTurns` | timer/time_wheel_timer.hpp:112-130 | over every run as written with timeouts under a turn no timer fires early or twice, and one left alone is late by whole turns, at most the logarithm to base 2 of the nodes ahead plus one |
| `FlatWheel.TurnsIsLog` | timer/time_wheel_timer.hpp:112-130 | that bound is the logarithm, rounded down |
| `FlatWheel.FiresAfterLost` | timer/time_wheel_timer.hpp:112-130 | while timers are only added and ticks go by, the number of turns of 600 ticks lost is exactly the number of ones at the end of the position in binary |
| `FlatWheel.LostIsTurns` | timer/time_wheel_timer.hpp:112-130 | the logarithmic bound is met behind 2^n - 1 nodes |
| `TimingWheel.TWTimerContainer.constructor` | timer/time_wheel_timer.hpp:85-88 | 600 empty slot lists with the cursor at slot 1 |
| `TimingWheel.TWTimerContainer.Destroy` | timer/time_wheel_timer.hpp:91-104 | every live node is freed, and none twice |
| `TimingWheel.TWTimerContainer.Examine` | timer/time_wheel_timer.hpp:113-128 | one node of the current slot: rotation lowered and kept, or fired and erased from the list and from the live nodes |
| `TimingWheel.TWTimerContainer.OneAdvanceTick` | timer/time_wheel_timer.hpp:107-133 | the pass that lines 112-130 intend: with one advance per node the in-place pass is the wheel's tick; fired nodes were live, fire once and are no longer live |
| `TimingWheel.TWTimerContainer.ExamineSkipping` | timer/time_wheel_timer.hpp:112-130 | one turn of the loop as written leaves the outcome of the whole pass unchanged and comes nearer its end |
| `TimingWheel.TWTimerContainer.Tick` | timer/time_wheel_timer.hpp:107-133 | the loop as written is the skipping tick on values; fired nodes were live, fire once and are no longer live |
| `TimingWheel.TWTimerContainer.Detach` | timer/time_wheel_timer.hpp:136-155 | null is ignored; a live timer leaves its slot and the live nodes, everything else stays |
| `TimingWheel.TWTimerContainer.RemoveIsErase` | timer/time_wheel_timer.hpp:144-151 | removing a handle from the list its node names removes it from the whole wheel, and is the erasure of one node |
| `TimingWheel.TWTimerContainer.PlaceTimer` | timer/time_wheel_timer.hpp:158-190 | the node joins the end of slot (cursor + ticks) % 600 with ticks / 600 turns to wait, and stores both |
| `TimingWheel.TWTimerContainer.AddTimer` | timer/time_wheel_timer.hpp:194-205 | a new node, live, and placed in slot (cursor + ticks) % 600 with ticks / 600 turns to wait |
| `TimingWheel.TWTimerContainer.DelTimer` | timer/time_wheel_timer.hpp:209-217 | exactly the given timer is gone |
| `TimingWheel.TWTimerContainer.ResetTimer` | timer/time_wheel_timer.hpp:220-229 | the timer is placed anew, in slot (cursor + ticks) % 600 with ticks / 600 turns, behind those there; no node is created or lost |
| `SortedTimerList.SortTimerList.constructor` | time_wheel/lst_timer.hpp:46 | an empty list |
| `SortedTimerList.SortTimerList.Destroy` | time_wheel/lst_timer.hpp:47-56 | every node is freed once, front to back |
| `SortedTimerList.SortTimerList.AddTimer` | time_wheel/lst_timer.hpp:57-76 | null is ignored; otherwise the list is the old one with the timer put before the first that expires later, as a proper doubly linked list with a correct `tail`, also after a drained list |
| `SortedTimerList.SortTimerList.FindPlace` | time_wheel/lst_timer.hpp:160-176 | the walk stops where stable insertion behind its start puts the timer |
| `SortedTimerList.SortTimerList.LinkAt` | time_wheel/lst_timer.hpp:164-183 | the pointer writes insert exactly there and keep `prev`, `next` and `tail` right |
| `SortedTimerList.SortTimerList.InsertAfter` | time_wheel/lst_timer.hpp:160-185 | stable insertion among the nodes behind the given one; the nodes up to it do not change |
| `SortedTimerList.SortTimerList.AdjustTimer` | time_wheel/lst_timer.hpp:77-101 | same nodes; the changed timer stays if last or still below its successor, else it is inserted again among those behind it; head and middle cases |
| `SortedTimerList.SortTimerList.MoveBack` | time_wheel/lst_timer.hpp:88-100 | taking a node out and inserting it from its successor on, as contents |
| `SortedTimerList.SortTimerList.Remove` | time_wheel/lst_timer.hpp:108-131 | only node, head, tail and middle: exactly that node is gone and the pointers are those of the rest |
| `SortedTimerList.SortTimerList.DelTimer` | time_wheel/lst_timer.hpp:102-132 | null is ignored; the contents are the old ones without the timer |
| `SortedTimerList.SortTimerList.PopDue` | time_wheel/lst_timer.hpp:141-156 | the loop ends, having fired a prefix that is due up to a first node that is not |
| `SortedTimerList.SortTimerList.Tick` | time_wheel/lst_timer.hpp:133-157 | fires the due prefix in list order, each node once, and leaves the rest well formed and unchanged |
| `StableQueue.DuePrefixIsAllDue` | time_wheel/lst_timer.hpp:141-156 | in a sorted list the prefix a tick fires is the set of all due timers, and what is left is all that are not due |
| `StableQueue.InsertPlace` | time_wheel/lst_timer.hpp:160-185 | insertion splits the list after the prefix that does not expire later |
| `StableQueue.InsertSorted` | time_wheel/lst_timer.hpp:57-76 | insertion keeps the list sorted |
| `StableQueue.FilterInsert` | time_wheel/lst_timer.hpp:57-76 | insertion does not disturb the relative order of any selection of timers |
| `StableQueue.AdjustIsReinsertion` | time_wheel/lst_timer.hpp:83-100 | adjusting equals removal followed by stable insertion, and keeps the list sorted, if and only if the new key is not below the predecessor's; otherwise every timer stays in its place |
| `ListOrder.ApplyKeepsOrder` | time_wheel/lst_timer.hpp:57-157 | add, supported adjust, delete and tick each keep the list strictly increasing in (expire, time of last add or adjust) |
| `ListOrder.RunKeepsOrder` | time_wheel/lst_timer.hpp:57-185 | the same after every sequence of operations |
| `ListOrder.OrderedIffSupported` | time_wheel/lst_timer.hpp:77-101 | an adjust leaves the list in that order if and only if the new expiry is not below the predecessor's |
| `ListOrder.BroughtForward` | time_wheel/lst_timer.hpp:77-101 | a run of two adds and one adjust to an earlier expiry that leaves the list out of order |
| `ListOrder.AdjustKeepsOrder` | time_wheel/lst_timer.hpp:77-101 | a supported adjust is removal and stable insertion, and keeps the order |
| `ListOrder.StampsChangeNothing` | time_wheel/lst_timer.hpp:57-157 | without the time stamps these operations are the ones the pointer list is proved to perform |
| `IdleServer.IdleServer.constructor` | time_wheel/timer_list.cpp:107 | a table, no connections, an empty list |
| `IdleServer.IdleServer.AcceptConn` | time_wheel/timer_list.cpp:131-146 | for an accept that succeeds: the new connection is open with one timer due 15 s from now, inserted in its place; the history grows by the accept, and open connections and listed timers stay matched one to one |
| `IdleServer.IdleServer.CloseSocket` | time_wheel/timer_list.cpp:58-64 | given the table entry of a connection, the callback closes that connection's own socket and no other |
| `IdleServer.IdleServer.CloseAll` | time_wheel/lst_timer.hpp:148 | each callback of a tick finds its connection open, and none is closed twice |
| `IdleServer.IdleServer.CloseConn` | time_wheel/timer_list.cpp:192-210 | socket and timer go together; the other connections keep theirs |
| `IdleServer.IdleServer.ExtendConn` | time_wheel/timer_list.cpp:215-221 | the connection's timer is due 15 s from now and has been moved accordingly |
| `IdleServer.IdleServer.Receive` | time_wheel/timer_list.cpp:186-223 | bytes put the connection in the list due 15 s from now and enter the history as activity now; end of stream and errors close it and take it out of the list; a receive that would block changes nothing |
| `IdleServer.IdleServer.HangUp` | time_wheel/timer_list.cpp:192-210 | the connection is closed, out of the list, and its end is in the history |
| `IdleServer.IdleServer.Heard` | time_wheel/timer_list.cpp:215-221 | the connection is in the list due 15 s from now, and its activity is in the history |
| `IdleServer.IdleServer.FireAndClose` | time_wheel/lst_timer.hpp:133-157 | the tick and its callbacks close the connections of exactly the fired timers, each still open when its turn comes and none twice, in list order |
| `IdleServer.IdleServer.TimerHandler` | time_wheel/timer_list.cpp:52-56 | a tick closes the due connections, each still open and once, and frees their timers; the rest stay matched one to one |
| `IdleServer.IdleServer.TickClosesTheIdle` | time_wheel/timer_list.cpp:230-234 | in every state of the server, with a clock that has not gone back, a tick at time T would close exactly the connections whose last accept or data in the history was at T - 15 or before |
| `IdleServer.ConnsFilter` | time_wheel/timer_list.cpp:192-210 | removing the one timer of a connection removes that connection from the list of connections and nothing else |
| `IdleRuns.AdjustToTail` | time_wheel/lst_timer.hpp:77-101 | a key that no other exceeds moves its timer to the tail |
| `IdleRuns.StepRefines` | time_wheel/timer_list.cpp:131-234 | with a clock that does not go back, every event keeps the list equal to the open connections in order of last activity, and a tick closes exactly those idle for 15 s |
| `IdleRuns.ClosesExactlyTheIdle` | time_wheel/timer_list.cpp:230-234 | over every run, the tick at time T closes exactly the connections last active at T - 15 or before |
| `IdleRuns.ActiveIffLastTouched` | time_wheel/timer_list.cpp:131-234 | over every run a connection is open with last activity at t if and only if it was accepted or sent data at t and nothing since then was an event of its own or a tick at t + 15 or later |
| `IdleRuns.TickClosesByEvents` | time_wheel/timer_list.cpp:131-234 | over every run from the start, a tick at time T closes exactly the connections whose last accept or data among the events before was at T - 15 or before |
| `IdleRuns.RunKeepsLists` | time_wheel/timer_list.cpp:131-234 | after every run the list holds each open connection once, least recently active first |
| `IdleRuns.IdleTimeIsBounded` | time_wheel/timer_list.cpp:52-56 | with ticks at most g seconds apart, at every event of a run nothing that the run has left in the list has been due for g seconds, and the list holds every open connection with its last activity: none is ever found idle for 15 + g seconds or more |
| `WheelServer.WheelServer.constructor` | timer/test.cpp:242 | an empty wheel, no connections |
| `WheelServer.WheelServer.AcceptConn` | timer/test.cpp:156-185 | a new object that names the accepted descriptor, and a new timer of 15 s, that belong to each other; open sockets and connections stay matched one to one; a failed accept leaves the object behind and changes nothing else |
| `WheelServer.WheelServer.Join` | timer/test.cpp:175-182 | an object not yet registered and a new timer of 15 s are tied to each other; everything else stays matched |
| `WheelServer.WheelServer.ReadData` | timer/test.cpp:125-141 | end of stream closes exactly the socket of the connection and deletes it with its timer; otherwise the connection is only switched to writing |
| `WheelServer.WheelServer.WriteData` | timer/test.cpp:143-153 | back to reading with a fresh 15 s timer |
| `WheelServer.WheelServer.CloseFired` | timer/test.cpp:49-63 | exactly the connections of the fired timers go and exactly their sockets are closed; each is live when its callback runs, and none is deleted twice |
| `WheelServer.WheelServer.QuietRound` | timer/test.cpp:305-308 | a tick as written and its callbacks: exactly the sockets of the timed-out connections are closed, each callback's connection was live, none is deleted twice, live connections, live timers and open sockets stay matched one to one, and the history grows by one round without events |
| `WheelServer.WheelServer.IntendedQuietRound` | timer/test.cpp:305-308 | if the tick advanced once per node: the same matching is kept |
| `WheelServer.WheelServer.HandleConn` | timer/test.cpp:295-302 | the handler is chosen by the connection's mode; it hangs up or changes the mode of that connection alone, and the wheel sees one delete, one reset or nothing accordingly |
| `WheelServer.WheelServer.HandleOne` | timer/test.cpp:266-303 | one ready descriptor changes the connections and the wheel by the one event it stands for: accepted, missed, read, written or hung up |
| `WheelServer.WheelServer.HandleBatch` | timer/test.cpp:263-304 | in a round with ready descriptors every handler finds its connection live; the wheel undergoes exactly the events of the batch, in order, each the one its connection's mode calls for; those hung up are gone, ready ones have changed mode, the others keep mode and timer; accepted sockets are open and those hung up closed, no others |
| `WheelServer.WheelServer.BusyRound` | timer/test.cpp:263-304 | the same as a step of the server: its history grows by the events of the batch, and the wheel is what the history makes of an empty one |
| `WheelServer.WheelServer.TimeoutDecided` | timer/test.cpp:252-309 | in every state of the server, for a connection whose timer was last set at some event of the history: the coming tick times it out, if it is the 151st since, exactly if an even number of entries are ahead of it, and not if it is an earlier one |
| `ServerRuns.TimedOutOnTick151` | timer/test.cpp:143-185 | over every run of the server as written, with an advance past the end read as the end of the loop, a connection is timed out on the 151st tick after its accept or last write, and on none before, if and only if an even number of entries are ahead of it in its slot list at that tick |
| `ServerRuns.TimedOutLateByLogTurns` | timer/test.cpp:143-185 | otherwise it is late by whole turns, at most the logarithm to base 2 of the entries ahead at its accept or write plus one; it is timed out once, within that time |
| `ServerRuns.HistoryDecides` | timer/test.cpp:252-309 | the same read off any history of a server that starts empty |
| `ServerRuns.SecondIsSkipped` | timer/test.cpp:156-185 | a run from the start: two connections are accepted, 150 ticks pass, and the 151st tick as written times out only the first of the two that are due |
| `ServerRuns.SecondIsATurnLate` | timer/test.cpp:156-185 | the same two connections: the first is timed out on the 151st tick, the second on the 751st and on none before |
| `ServerRuns.IntendedTimeoutOnTick151` | timer/test.cpp:143-185 | with one advance per node: over every run a connection is timed out exactly on the 151st tick after its accept or last write |
| `ReactorModel.EmptyInStep` | reactor/server.c:230-264 | a new reactor is in step with an empty interest set |
| `ReactorModel.ListenerInStep` | reactor/server.c:285-296 | a fresh socket is registered as a listener and everything stays in step |
| `ReactorModel.RecvInStep` | reactor/server.c:87-109 | a receive keeps entries and interest set in step, its registration succeeds, and no other descriptor changes |
| `ReactorModel.SendInStep` | reactor/server.c:111-130 | the same for a send, whose chunk is a beginning of the chunk received before it |
| `ReactorModel.AcceptInStep` | reactor/server.c:133-159 | the same for an accept, also when the descriptor has been used before |
| `ReactorModel.CallInStep` | reactor/server.c:87-159 | the callback stored in a registered entry fits what the kernel reports and keeps everything in step |
| `ReactorModel.DispatchInStep` | reactor/server.c:314-325 | one event runs exactly one callback if a requested flag is reported and none otherwise, although the entry's events change between the two tests |
| `ReactorModel.RoundInStep` | reactor/server.c:314-325 | what was reported together stays valid while the batch is handled, though callbacks close sockets and reuse descriptors |
| `ReactorModel.ReactorStaysInStep` | reactor/server.c:298-327 | over every run `status` is 1 exactly for registered descriptors, with the same events and a fitting callback, and every registration of the callbacks succeeds, so adding or modifying is always the right choice |
| `ReactorModel.EveryRunInStep` | reactor/server.c:230-327 | the same from a new reactor, through the registration of any listeners, over every run of the loop |
| `ReactorModel.HistoryInStep` | reactor/server.c:285-327 | the same when listeners are registered at any time between rounds |
| `ReactorModel.EchoIsCompleteIff` | reactor/server.c:92-122 | in every such state the bytes received are the bytes sent followed by those pending if and only if every chunk was sent in full |
| `ReactorModel.ShortSendLoses` | reactor/server.c:111-122 | a run from a new reactor with a short send, after which a received byte is neither sent nor pending |
| `ReactorOutcomes.CtlSucceedsIff` | reactor/server.c:56-85 | the kernel adds what is not registered and modifies or deletes what is, on an open socket; otherwise nothing changes |
| `ReactorOutcomes.AfterRecv` | reactor/server.c:87-109 | for every outcome of recv: bytes received are logged and buffered as they came and the connection waits for output with the send callback; end of stream and errors close and deregister it |
| `ReactorOutcomes.AfterSend` | reactor/server.c:111-130 | for every outcome of send: the socket stays open if and only if a positive count was sent, and then it waits for input with the receive callback, that much of the pending bytes having been sent |
| `ReactorOutcomes.AfterAccept` | reactor/server.c:133-159 | for every outcome of accept: the new client waits for input with the receive callback and with nothing received or sent, the listener stays as it was; a failed accept changes nothing |
| `ReactorOutcomes.AfterListen` | reactor/server.c:285-296 | the listener waits for input with the accept callback, and nothing else changes |
| `ReactorOutcomes.AfterDispatch` | reactor/server.c:314-325 | an event that reports a requested flag has the outcome of the one callback that fits; any other changes nothing |
| `ReactorOutcomes.EveryEventIsHandled` | reactor/server.c:314-325 | every event of a batch has its outcome, in order: no earlier one has touched its entry, and it touches no other that is registered |
| `Reactor.Reactor.constructor` | reactor/server.c:230-264 | one zeroed block, `blkcnt` 1 |
| `Reactor.EventBlock.constructor` | reactor/server.c:192-208 | a block of 1024 zeroed entries |
| `Reactor.Reactor.Alloc` | reactor/server.c:182-213 | the chain grows by one zeroed block at its end; no block moves and no entry changes |
| `Reactor.Reactor.Idx` | reactor/server.c:215-227 | for every descriptor the lookup ends and returns cell fd % 1024 of block fd / 1024; growth keeps all cells handed out before |
| `Reactor.Reactor.CellHolds` | reactor/server.c:226 | the cell of a descriptor holds the flat table's entry for it |
| `Reactor.Reactor.CellsDiffer` | reactor/server.c:226 | different descriptors have different cells |
| `Reactor.Reactor.Write` | reactor/server.c:46-53 | a write through a cell changes the entry of its descriptor and no other |
| `Reactor.Reactor.NtyEventSet` | reactor/server.c:46-53 | the entry gets its descriptor and callback and asks for nothing yet |
| `Reactor.Reactor.NtyEventAdd` | reactor/server.c:56-73 | entry and kernel change together: a modification if the status says registered, an addition otherwise |
| `Reactor.Reactor.NtyEventDel` | reactor/server.c:76-85 | entry and kernel change together, and an unregistered entry is left alone |
| `Reactor.Reactor.OnReadable` | reactor/server.c:87-109 | through the chain, what the receive callback does to the flat table, the kernel and the logs |
| `Reactor.Reactor.OnWritable` | reactor/server.c:111-130 | the same for the send callback |
| `Reactor.Reactor.OnAcceptable` | reactor/server.c:133-159 | the same for the accept callback, while the chain may grow |
| `Reactor.Reactor.AddListener` | reactor/server.c:285-296 | the same for a new listener |
| `Reactor.Reactor.DispatchOne` | reactor/server.c:314-324 | the two tests of the loop body refine the flat table's dispatch |
| `Reactor.Reactor.RunBatch` | reactor/server.c:314-325 | the loop over a batch refines the flat table's round, and its registrations succeed exactly when the table's do; cells the kernel handed back stay valid while the chain grows |
| `Reactor.Reactor.InStepNow` | reactor/server.c:298-327 | in every state of the reactor, the kernel having reported only registered descriptors, each once a round, entries and interest set are in step and every registration has succeeded |
| `WorkerDispatch.CountStepSets` | epoll_v2/server1.c:18-62 | registering or deregistering changes a worker's set and its operations in flight by the same amount |
| `WorkerDispatch.CountStepWrites` | epoll_v2/server1.c:26-28 | a counter that is written has not changed since it was read, so its change is the one that was in flight |
| `WorkerDispatch.LockStep` | epoll_v2/server1.c:26-28 | every step keeps each mutex with at most one holder, and what a holder has read current |
| `WorkerDispatch.BatchStep` | epoll_v2/server1.c:18-67 | every step keeps a worker's pending batch within its own set, each socket once |
| `WorkerDispatch.SetEffects` | epoll_v2/server1.c:18-203 | the epoll sets change by registering and deregistering the socket named, the open sockets by accepting and closing, and by nothing else |
| `WorkerDispatch.CountEffects` | epoll_v2/server1.c:26-28 | a counter changes by one, modulo 2^32, up when the main thread and down when its worker writes it, and never else |
| `WorkerDispatch.OwnersStep` | epoll_v2/server1.c:18-203 | every step keeps each open socket with at most one responsible party: the main thread, one worker's set, or a worker closing it |
| `WorkerDispatch.OwnedStep` | epoll_v2/server1.c:18-203 | every step keeps each open socket with some responsible party: none is forgotten |
| `WorkerDispatch.ReachableInv` | epoll_v2/server1.c:18-203 | all of these hold in every state that some interleaving reaches |
| `WorkerDispatch.CountersAccount` | epoll_v2/server1.c:199-203 | in every reachable state a worker's counter is its registered connections, less an add not yet counted, plus a removal not yet discounted, modulo 2^32 |
| `WorkerDispatch.SetsStayApart` | epoll_v2/server1.c:18-67 | in every reachable state no socket is registered with two workers, registered sockets are open, and batches are within their worker's set |
| `WorkerDispatch.EachSocketHasOneOwner` | epoll_v2/server1.c:18-203 | in every reachable state a socket is open if and only if it has a responsible party, and it has exactly one |
| `WorkerDispatch.QuiescentCountersAreExact` | epoll_v2/server1.c:199-203 | with nothing in flight for a worker and fewer than 2^32 connections its counter is exact |
| `WorkerDispatch.CounterIsExactIff` | epoll_v2/server1.c:199-203 | in every reachable state a counter is exact if and only if there are fewer than 2^32 connections and an add and a removal are in flight together or neither is |
| `WorkerDispatch.CounterWrapsIff` | epoll_v2/server1.c:199-203 | for fewer than 2^32 - 2 connections a counter reads 2^32 - 1 if and only if the worker has no connection, an add is in flight and no removal is |
| `WorkerDispatch.NoUpdateIsLost` | epoll_v2/server1.c:199-203 | main thread and worker never both hold a mutex, and neither writes a stale count |
| `WorkerDispatch.BatchIsHandled` | epoll_v2/server1.c:14-68 | over every interleaving: the sockets a worker keeps or deregisters between a wait and the end of its loop are the batch the wait returned, each once and in order |
| `WorkerDispatch.NextOfWorker` | epoll_v2/server1.c:14-68 | over every interleaving, each step of a worker is followed by the one its loop prescribes: what it deregisters it closes, and then discounts once under its mutex |
| `WorkerDispatch.NextOfMain` | epoll_v2/server1.c:167-203 | the same for the main thread: what it accepts it registers with the worker chosen, and then counts once under the mutex of that worker |
| `WorkerDispatch.AcceptedIsRegistered` | epoll_v2/server1.c:167-199 | over every interleaving, what is registered first after an accept is the accepted socket |
| `WorkerDispatch.NobodyIsStuck` | epoll_v2/server1.c:18-203 | no deadlock: in every reachable state each thread can go on, or waits for a mutex whose holder can |
| `WorkerDispatch.OutsideDecides` | epoll_v2/server1.c:14-67 | every unused descriptor can be accepted, every batch of up to five registered sockets returned, and the socket whose turn it is kept or dropped |
| `WorkerDispatch.CounterCanWrap` | epoll_v2/server1.c:199-203 | a reachable state in which a counter reads 2^32 - 1: the connection was closed before it was counted |
| `WorkerDispatch.ChooseWorker` | epoll_v2/server1.c:185-197 | the choice is always worker 0, and the least loaded if and only if worker 0 is |
| `WorkerDispatch.LeastLoadedMissed` | epoll_v2/server1.c:185-197 | a reachable state in which a connection waits to be assigned and worker 0 is not the least loaded |
| `WorkerDispatch.FirstWorkerGetsAll` | epoll_v2/server1.c:185-199 | with that choice no other worker ever has a connection |
| `Heartbeat.HeartbeatServer.constructor` | heartbeat/server.cpp:166-168 | only the listener is watched, and is the maximum |
| `Heartbeat.HeartbeatServer.Accept` | heartbeat/server.cpp:102-123 | the client is watched and counted from 0, and the maximum is again the maximum; the insert never meets an old key |
| `Heartbeat.HeartbeatServer.Recv` | heartbeat/server.cpp:125-156 | exactly the counts of the ready clients that sent a heartbeat are reset |
| `Heartbeat.HeartbeatServer.LowerMax` | heartbeat/server.cpp:211-215 | the downward search ends, because the listener is watched, at the maximum |
| `Heartbeat.HeartbeatServer.Visit` | heartbeat/server.cpp:204-225 | one client: evicted from table and set with the maximum restored, or counted up |
| `Heartbeat.HeartbeatServer.Sweep` | heartbeat/server.cpp:198-226 | every client at the limit is evicted, once, in order of descriptors, every other one is counted up once |
| `Heartbeat.EvictsAtLimit` | heartbeat/server.cpp:204-221 | over every run, a silent client with count c is taken out of the table exactly on the sweep after 5 - c further ones, and by no other event |
| `Heartbeat.EvictedOnSixthSilentSweep` | heartbeat/server.cpp:116-221 | over every run a client is evicted exactly on its sixth sweep in a row without a heartbeat since its accept or last heartbeat |
| `Heartbeat.AddressStays` | heartbeat/server.cpp:116-221 | over every run a client that stays in the table keeps the address it was accepted with |
| `Heartbeat.RunKeepsCountsInRange` | heartbeat/server.cpp:204-221 | over every run counts stay within 0 to 5 |

## Left out

- WheelModel.TickRefines: one advance per node; of the tick as written it holds exactly when
  `WrittenRuns.TickAgreesIff` says.
- WheelModel.ApplyRefines: one advance per node, as `WheelModel.TickRefines`.
- WheelModel.RunRefines: one advance per node; of runs as written exactly when `WrittenRuns.RunsAgreeIff` says.
- WheelRuns.ReachableRepresents: runs with one advance per node, as `WheelModel.RunRefines`.
- WheelRuns.FiresExactlyOnTime: one advance per node; for runs as written see
  `OnTime.SetTimerFiresAfterSkips`.
- WheelRuns.ExaminedOncePerTurn: one advance per node; as written a skipped node is not examined.
- WheelRuns.ExaminedExactly: one advance per node, as `WheelRuns.ExaminedOncePerTurn`.
- WheelRuns.RunConserves: one advance per node; `WrittenRuns.SkipRunConserves` is the same for runs as written.
- WheelRuns.WheelConserves: one advance per node; `WrittenRuns.WrittenWheelConserves` is the same as written.
- WheelRuns.FiringInstant: one advance per node; as written whole turns can be added.
- TimerAgreement.WheelIsStableQueue: one advance per node; as written `LateRuns.StableQueueIffNoneLate`.
- TimerAgreement.WheelAgreesWithList: one advance per node, as `TimerAgreement.WheelIsStableQueue`.
- WrittenRuns.WrittenWheelIsStableQueue: one direction, for all timers at once; `WrittenRuns.ShortIsStableQueueIff`
  and `LateRuns.StableQueueIffNoneLate` are exact.
- WrittenRuns.WrittenWheelFiresOnTime: one direction, for all timers at once; `OnTime.FiresOnOwnTickIff` is exact.
- FlatWheel.FiresOnTimeIff: timeouts under a turn; `OnTime.SetTimerFiresAfterSkips` has none of that.
- TimingWheel.TWTimerContainer.OneAdvanceTick: the traversal that was intended; `TWTimerContainer.Tick` is the
  one written.
- WheelServer.WheelServer.IntendedQuietRound: the traversal that was intended; `QuietRound` is the one written.
- ServerRuns.IntendedTimeoutOnTick151: the traversal that was intended; `ServerRuns.TimedOutOnTick151` is exact
  for the one written.
- IdleServer.IdleServer.AcceptConn: an accept that fails is not modelled; the source goes on with descriptor -1
  and writes outside its table, which C++ leaves undefined.
- `int` narrowing of very large timeouts, and the `_expire` field of `timer/timer_common.hpp`, which the wheel
  does not use; `getMinExpire`, a constant.
- Casts between timer and node (`reinterpret_cast`): the handle is the node. Handles given to delete, reset
  and adjust must be live, as the source needs; freeing is leaving the set of live nodes.
- Callbacks run after the pass over their list and not in the middle of it; those of the two servers touch
  neither the list nor the wheel.
- `time_wheel/timer_list.cpp`: descriptors of 65535 and more, and events other than input, which the loop
  ignores. A timer's `user_data` pointer is the index of its table entry.
- `timer/test.cpp`: what is read and written back, with the buffers that hold it; the signal pipe and the
  connections' epoll registration beyond the mode asked for; the objects an accept leaves behind are never
  freed there either.
- `reactor/server.c`: allocation failure, on which the lookup loops; `last_active`; the text terminator and
  printing; `ntyreactor_destory`. What `epoll_ctl` reports is ghost, because the callers ignore it.
- `epoll_v2/server1.c`: modelled on values as interleaved steps, so the C structures are not objects here;
  the mode without workers, worker start-up before the mutexes are initialised, and failing accepts are left
  out.
- `heartbeat/server.cpp`: select-and-receive rounds and sweeps are atomic although the source does not
  synchronise its threads; packets arrive whole; the limit FD_SETSIZE and the branch on `close_conn`, which is
  never taken.
- Signals, wall clocks, sockets, threads and printing everywhere: their outcomes are inputs.
- The directories `asyn_connect`, `bind`, `broadcast`, `multicast`, `local`, `select`, `epoll_v1` and `test`,
  which demonstrate system calls.
