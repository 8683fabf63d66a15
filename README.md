# Chancy scheduler, modelled in Dafny

Chancy is a small frame-driven task scheduler. An `Event` is a node of a
doubly linked chain (`Next`, `Previous`) with a running flag, an
accumulated running time and three hook slots: `Started`, `Updated`
(whose result says whether the Event is over) and `Ended`. The static
`Controller` keeps three lists: pending-add, current and pending-remove.
Each call of `Update(dt)` runs one tick in three passes:

1. It starts every pending Event and moves it to the current list.
2. It updates every current Event and queues the ones that report they are over.
3. It ends the queued Events and takes them off the current list.

The combinators in `Library` hang closures on an Event's hooks:

- `Sequence` runs a chain of child Events one after the other.
- `Compound` starts a whole child chain at once and is over when no child is still running.
- `Loop` is a stub.

The project has three modules.

- `Rules` (rules.dfy) holds the value-level rules:
  - the arguments an update handler receives, and the times it sees over successive ticks;
  - `List.TrueForAll` and `List.Remove`;
  - the survivors of a tick;
  - the log of hook invocations one tick makes;
  - the Sequence step rule and a Sequence run over many updates.
- `Chancy` (chancy.dfy) holds the mutable objects, as classes whose methods are proved against `Rules`:
  - `Event`;
  - the closure state of the two combinators (`SequenceClosure` holds the captured current child; `CompoundClosure` holds the child head and the collected list);
  - `Controller`.

  A ghost registry inside `Controller` records every Event and closure allocated so far, and a ghost `log` records each hook transition as it is raised: `StartEvent`, `UpdateEvent` (with its answer) and `EndEvent` each append their own entry. Each Event carries a ghost creation stamp. The invariant `Registry` says that following `Next`, or following a combinator to its children, always reaches younger, registered nodes, so the chain walks terminate.
- `Library` (library.dfy) holds the builders `Sequence`, `Compound` and `Loop`.

Time is a `real`. The `Controller` is an object passed to the operations that use it. A user `Updated` handler is a function from its arguments to the verdict. `IsRunningSingular`, which the combinators query, is a parameter `singular` of the update operations.

## Model

A handler is handed the total from before each tick, so one that finishes once that total reaches 1.0 finishes on the fourth tick of 0.4, not the third (`FinishesOnFourthTick` below).

| member | source | states |
|---|---|---|
| Rules.HandlerArgs | src/Event.cs:141-147 | the handler gets the total from before the tick, and a delta of 0 while that total is 0, else `dt` (partner: ElapsedTime) |
| Rules.ArgsSeen | src/Event.cs:141-147 | the handler arguments over successive ticks; one per tick |
| Rules.ElapsedTime | src/Event.cs:124-147 | after a start, the k-th update reports the sum of the k earlier tick lengths as total time; the first reports delta 0, and any later one with a non-zero total reports the real tick length |
| Rules.FinishesOnFourthTick | src/Event.cs:141-147 | with ticks of 0.4, a handler that finishes once the reported total reaches 1.0 first finishes on the fourth tick, not the third |
| Rules.TrueForAll | src/Library.cs:54-57 | `List.TrueForAll` holds exactly when the predicate holds of every element (so of the empty list) |
| Rules.RemoveFirst | src/Controller.cs:82 | `List.Remove` leaves a list without `x` unchanged and adds no element |
| Rules.RemoveFirstMultiset | src/Controller.cs:82 | `List.Remove` takes away exactly one occurrence of `x` when there is one |
| Rules.RemoveFirstAt | src/Controller.cs:82 | the occurrence removed is the first one; everything before and after it stays in order |
| Rules.RemoveAll | src/Controller.cs:79-83 | the removal pass adds no element |
| Rules.RemoveAllMultiset | src/Controller.cs:79-83 | the removal pass takes away one occurrence per queued entry, as far as there are occurrences |
| Rules.Select | src/Controller.cs:73-77 | the queue of finished entries is drawn from the list it was built from and is no longer |
| Rules.Partition | src/Controller.cs:73-77 | the finished and the unfinished entries of a pass are, together, the whole list |
| Rules.SurvivorsMultiset | src/Controller.cs:73-84 | after a tick, the current list holds exactly the occurrences whose update did not finish (as a multiset, even with duplicates) |
| Rules.SurvivorsInOrder | src/Controller.cs:73-84 | when no Event occurs twice, the current list after a tick is exactly the unfinished entries, in their original order |
| Rules.DuplicateReordered | src/Controller.cs:79-83 | with an Event listed twice and only its second entry finished, `List.Remove` drops the first entry, so the survivors come out in a different order; this is why the model's `Update` needs `Controller.Distinct` |
| Rules.SelectSnoc | src/Controller.cs:73-77 | queuing the finished entries one by one, in list order, builds the selection of the whole list |
| Rules.RemoveAllSnoc | src/Controller.cs:79-83 | removing queued entries one by one is the removal of the whole queue |
| Rules.TickLog | src/Controller.cs:63-85 | one tick records a start per pending entry, an update per admitted entry and an end per finished entry, so twice the pending entries plus the current entries plus the finished ones |
| Rules.PhasesInOrder | src/Controller.cs:63-85 | within one tick every start precedes every update, and every update precedes every end |
| Rules.AdmittedUpdatedSameTick | src/Controller.cs:65-77 | every pending Event is started once per occurrence, in list order, and updated in the same tick after the Events already current |
| Rules.EndedIffFinished | src/Controller.cs:73-84 | an Event is ended in a tick exactly when one of its updates in that tick reported it over |
| Rules.StepOf | src/Library.cs:20-28 | the Sequence waits exactly while its current child runs, advances exactly when the child has stopped and has a successor, and is over exactly when the child has stopped and has none |
| Rules.SequenceRun | src/Library.cs:18-29 | a Sequence run over many updates stays within its chain and never moves backwards |
| Rules.SequenceStartsInOrder | src/Library.cs:18-29 | a Sequence starts its children strictly in chain order, each right after the previous, at most one per update |
| Rules.SequenceFinishesPromptly | src/Library.cs:18-29 | over a run of updates, a Sequence reports itself over only once its last child is current, and at exactly the update that sees the last child stopped, never earlier and never later; a Sequence that has not finished was updated on every update of the run |
| Chancy.Event.constructor | src/Event.cs:85-88 | a new Event has no `Next` and no `Previous`, is not running and has no handlers |
| Chancy.Event.Create | src/Event.cs:93-98 | the new Event has no neighbours and is appended exactly once to the end of the pending-add list; nothing else in the Controller changes |
| Chancy.Event.Extend | src/Event.cs:103-109 | a fresh successor `n` with `this.Next == n`, `n.Previous == this` and `n.Next == null`; any earlier `Next` is overwritten; the registry stays well formed |
| Chancy.Event.Start | src/Event.cs:114-119 | this node and every node reached from it along `Previous` (`Controller.Backward`) are running; the running flag of every other node is unchanged, and no link changes |
| Chancy.Event.StartEx | src/Library.cs:15 | starting one node alone sets only its running flag |
| Chancy.Event.Detach | src/Library.cs:48 | detaching clears both links of the node and nothing else |
| Chancy.Event.OnStarted | src/Event.cs:35 | registering caller code fills the Started slot |
| Chancy.Event.OnUpdated | src/Event.cs:40 | registering caller code fills the Updated slot with that decision |
| Chancy.Event.OnEnded | src/Event.cs:45 | registering caller code fills the Ended slot |
| Chancy.Event.StartEvent | src/Event.cs:124-130 | the running time is reset to 0 and the Started call is recorded after the earlier ones; no node outside the hook's targets (`StartTargets`, never this node) changes a link or a running flag; every target ends up running, and every node whose links changed is detached; a Sequence hook leaves its current child running; a Compound hook appends its whole chain, in order, to its list and leaves each child running and detached, and no other Compound's list changes (these hook effects are the predicate `Controller.StartedHookDone`, shared with `RaiseStarted` and `AdmitEntry`) |
| Chancy.Event.RaiseStarted | src/Event.cs:128-129 | raising Started records the call and runs the hook: only the hook's targets change, each of them ends up running, and a node whose links changed is detached; a Sequence's current child ends up running; a Compound collects its chain, in order, running and detached, and no other Compound's list changes |
| Chancy.Event.UpdateEvent | src/Event.cs:141-150 | the running time grows by exactly `dt` and the Updated call is recorded with its answer; with no handler the Event is over; a user handler decides on `HandlerArgs(total before, dt)`; a Sequence hook follows `StepOf`, and when it waits or finishes no running flag changes, while on an advance only the new current child's flag does; a Compound hook answers `TrueForAll` over its collected children and changes no flag; no other Sequence moves (the combinators' part is the predicate `Controller.UpdatedHookDone`, shared with `RaiseUpdated` and `UpdateEntry`) |
| Chancy.Event.RaiseUpdated | src/Event.cs:146-149 | without a hook the Event is over; a user hook's answer on the arguments it is handed is the result; a Sequence hook follows `StepOf`, and only an advance changes a running flag, that of the new current child; a Compound hook answers `TrueForAll` and changes no flag; the call is recorded with its answer; no running time and no link changes |
| Chancy.Event.EndEvent | src/Event.cs:155-159 | the Ended handler runs exactly when one is registered; the call is recorded, and no other field of any object changes |
| Chancy.SequenceClosure.constructor | src/Library.cs:10-16 | the Sequence's captured variable starts on the child head |
| Chancy.SequenceClosure.StartChild | src/Library.cs:13-16 | the Sequence's Started hook starts its current child and changes no other running flag |
| Chancy.SequenceClosure.Step | src/Library.cs:18-29 | the Sequence's Updated hook follows `StepOf`: wait, advance to the successor and start it, or report finished; only the new current child changes its running flag, and the current child never gets older |
| Chancy.CompoundClosure.constructor | src/Library.cs:36-37 | the Compound starts with its child head and an empty collected list |
| Chancy.CompoundClosure.Started | src/Library.cs:40-52 | the Compound's Started hook appends the chain from its head, in chain order, to its list; it leaves every child running and detached, changes no node off the chain, and keeps the registry well formed |
| Chancy.CompoundClosure.Collect | src/Library.cs:42-51 | the do-while walk along `Next` visits exactly the chain that hung from the head before the walk, in order |
| Chancy.CompoundClosure.Take | src/Library.cs:45-49 | one turn of the walk appends the node, starts it and detaches it, handing back its former successor |
| Chancy.CompoundClosure.AllStopped | src/Library.cs:54-57 | the Compound is over exactly when no collected child is running, so at once when none was collected |
| Chancy.Controller.Forward | src/Library.cs:42-51 | the chain from a registered node along `Next` ends at a node without successor, holds no node twice and stays registered |
| Chancy.Controller.Backward | src/Event.cs:114-119 | the chain from a registered node along `Previous` ends at a node without predecessor, holds only registered nodes and reaches only older ones, so the recursion of `Start` ends |
| Chancy.Controller.StartTargets | src/Event.cs:124-130 | the nodes a Started hook changes are registered children younger than the Event, so never the Event itself |
| Chancy.Controller.StartTargetsOf | src/Controller.cs:65-69 | the nodes the Started hooks of a list of Events change, Event by Event, are all registered |
| Chancy.Controller.StartTargetsOfCovers | src/Controller.cs:65-69 | every Event's own targets are among the targets of any list holding it |
| Chancy.Controller.ForwardShrinks | src/Library.cs:42-51 | when the only link changes are cuts to `null`, the chain from a node only loses nodes |
| Chancy.Controller.StartTargetsShrink | src/Controller.cs:65-69 | when the only link changes are cuts to `null` and no Sequence moves, an Event's targets only lose nodes, so starting one pending Event never adds targets to a later one |
| Chancy.Controller.constructor | src/Controller.cs:32-37 | the Controller starts with three empty lists |
| Chancy.Controller.AddEvent | src/Controller.cs:93-96 | the Event is appended to the end of the pending-add list and nothing else changes; the lists stay free of repeats |
| Chancy.Controller.InitEvent | src/Controller.cs:48-51 | an Event is accepted exactly when it has neither a `Next` nor a `Previous`; any other is refused |
| Chancy.Controller.Update | src/Controller.cs:63-85 | after a tick the pending-add and pending-remove lists are empty; the current list is the admitted list minus the entries whose update finished, in order (`Select` of the unfinished ones); the Started, Updated and Ended calls are recorded in the order `TickLog` gives; every Event already current gained `dt`, every admitted one has run for `dt`, and no other Event's time changes; for an Event with no Updated hook or a user hook, each update's verdict is that hook's answer on the time the Event had before the tick (0 for a newly admitted one); no Event outside the pending entries' targets changes a link, and one whose links changed is detached; no running flag is cleared; a Compound's list only grows at its end; and every pending Event's Started hook has left its effect (a Sequence's current child running, a Compound's head collected and running) |
| Chancy.Controller.AdmitPending | src/Controller.cs:65-70 | each pending entry is started once, in list order, its running time reset to 0, and appended after the existing current entries; the Started calls are recorded in that order; the pending list is then cleared; no Event outside the pending entries' targets (`StartTargetsOf`, taken when the tick began) changes its links or running flag; no flag is cleared; an Event whose links changed is detached; a Compound's list only grows at its end; and every pending Event's Started hook has left its effect |
| Chancy.Controller.AdmitEach | src/Controller.cs:65-69 | the loop of the first pass: each pending entry is started and appended in order, with its running time reset and its Started call recorded; measured against the snapshot taken before the pass, no Event outside the targets changes, no flag is cleared and changed links mean detached; Compound lists only grow; each started Event keeps its hook's effect |
| Chancy.Controller.AdmitStep | src/Controller.cs:67-68 | one turn of the first pass keeps what the pass carries: the Events already started keep their hooks' effects, nothing outside the targets changes since the snapshot, and the Events still waiting keep their targets inside the same bound |
| Chancy.Controller.AdmitEntry | src/Controller.cs:67-68 | one turn of the first pass starts the entry (running time 0, Started recorded) and appends it to the current list; as with `StartEvent`, only the entry's targets change and each ends up running; a Sequence hook leaves its current child running; a Compound hook appends its chain and detaches each child, and no other Compound's list changes; no flag is cleared, an Event whose links changed is detached, and every Event's Started effect survives |
| Chancy.Controller.UpdateAndRemove | src/Controller.cs:73-84 | the second and third passes: every current entry gains `dt` and is updated once; the current list keeps exactly the unfinished entries, in order; the Updated and then Ended calls are recorded in list order; for an entry with no Updated hook or a user hook, the verdict is that hook's answer on the time before the tick; no running flag is cleared and every Started effect survives |
| Chancy.Controller.UpdateCurrent | src/Controller.cs:73-77 | every current entry is updated once, in order, gaining `dt`; exactly the ones reporting over are queued, in order; the Updated calls are recorded in that order; for an entry with no Updated hook or a user hook, the verdict is that hook's answer on its time before the tick; no running flag is cleared and every Started effect survives |
| Chancy.Controller.UpdateEach | src/Controller.cs:73-77 | the loop of the second pass: as `UpdateCurrent` (verdicts stated for a missing or user Updated hook), with the Events found running, and those found with their Started effect, when the pass began keeping both |
| Chancy.Controller.UpdateStep | src/Controller.cs:75-76 | one turn of the second pass keeps what the pass carries: the Events that were running stay running and the Started effects stay in place |
| Chancy.Controller.UpdateEntry | src/Controller.cs:75-76 | one turn of the second pass updates the entry (gaining `dt`, no other Event's time changes, Updated recorded) and queues it exactly when it reports over; the verdict is its Updated hook's answer; as with `UpdateEvent`, a Sequence hook follows `StepOf` and only an advance changes a flag, a Compound hook answers `TrueForAll`, and no other Sequence moves; no flag is cleared and every Started effect survives |
| Chancy.Controller.RemoveFinished | src/Controller.cs:79-84 | each queued entry is ended, in queue order, with the Ended calls recorded in that order, and its first occurrence removed from the current list; the queue is then cleared and the lists stay free of repeats |
| Library.Sequence | src/Library.cs:8-32 | the child head is created with empty hook slots and enqueued; both hooks of `ev` hold a new Sequence over that head; the result `r` satisfies `ev.Next == r`, `r.Previous == ev`, `r.Next == null` and has empty hook slots; the registry gains exactly the head, `r` and the new Sequence, so a tick can follow |
| Library.Compound | src/Library.cs:34-60 | the child head is created with empty hook slots and enqueued; both hooks of `ev` hold a new Compound over that head with an empty collected list; the result is `ev`'s new successor, with empty hook slots; the registry gains exactly the head, the result and the new Compound, so a tick can follow |
| Library.Loop | src/Library.cs:62-72 | registers no hook and ignores `times`; it extends `ev` with a new successor that has empty hook slots, and the registry gains exactly that successor |

## Left out

- Floating point: time is a `real`, so the rounding of the source's single-precision `_totalRunningTime` and `dt` is not modelled.
- Multicast delegates: C# `event +=` can stack several handlers. Here each hook slot holds one handler, and registering a combinator replaces the slot. With several `Updated` handlers only the last one's verdict would count; that is not modelled.
- User `Started` and `Ended` handlers are opaque and have no modelled effect. A user `Updated` handler is a pure decision on its arguments.
- The handler argument wrapper classes `EventStartArgs` and `EventEndArgs` carry no data and are not modelled.
- `StartEx`, `Detach` and `IsRunningSingular` are called by the combinators but their bodies are not part of this model. `StartEx` sets only the running flag, `Detach` clears both links, and `IsRunningSingular` is the oracle parameter `singular`.
- The `action` callbacks of `Sequence` and `Compound` are caller code. The caller builds the child chain with `Extend` on the head after the builder returns.
- Chancy.Controller.InitEvent: only the guard is modelled. Its follow-up call `newEvent.Sequence()` does not match the signature of `Sequence`, which takes an action.
- `Loop`'s unused queue, its commented-out handler and its `action` parameter, which it never calls, are not modelled; the model's `Loop` has no `action` parameter.
- Re-entrant additions to the pending-add list while the first pass walks it are outside the model; they would throw in .NET. The first pass walks the list as it stood when the tick began.
- Chancy.Controller.Update requires `pendingRemove` to be empty and no Event to be listed twice across the pending-add and current lists (`Controller.Distinct`). That is the state the static constructor sets up and that `Create` and every tick keep, since each Event is enqueued once, when it is created. The first pass is the method `AdmitPending`; the second and third passes are `UpdateAndRemove`, which calls `UpdateCurrent` and then `RemoveFinished`; each has its own contract. `outcome`, the verdict of each update, is a ghost result.
- Chancy.Controller.Update: running flags are stated to be only set, never cleared, and not tied to the targets, because a Sequence's update can start a child anywhere on its chain.
- Chancy.Controller.AdmitPending: the exact list each Compound collects is stated per turn by `AdmitEntry`, not for the pass; for the pass the model states that the lists only grow at their end. In the program each Compound closure is captured by the hooks of the one Event it was built on, and that Event is listed once, so only one entry of the pass touches it; but the registry invariant (`Controller.Hooked`) does not record that a closure hangs on one Event only, so the proof cannot rule out a later entry appending to the same list.
- Chancy.Event.StartEvent: the facts about this node's own links and running flag are stated through `Controller.StartTargets`, which never contains the node, and not as separate clauses.
- Chancy.Controller.Update: the verdict of an Event whose Updated hook is a Sequence or a Compound is stated per call by `Event.UpdateEvent`, `Event.RaiseUpdated` and `Controller.UpdateEntry`, in terms of the children, and is not carried up to the pass or the tick. Those verdicts are read off the children's state at that turn. In the program each closure hangs on the hooks of one Event, listed once, so no other entry of the pass moves the same Sequence; but the registry invariant (`Controller.Hooked`) does not record that a closure hangs on one Event only, nor that the chains of different combinators are disjoint, so the proof cannot rule out a later turn moving that Sequence or starting one of a Compound's collected children again.
- Chancy.Controller.UpdateAndRemove: as for `Update`, the verdict is stated only for an entry with no Updated hook or a user hook; the Sequence and Compound verdicts are stated per turn by `UpdateEntry` only.
- Chancy.Controller.UpdateEach: as for `Update`, the verdict is stated only for an entry with no Updated hook or a user hook; the Sequence and Compound verdicts are stated per turn by `UpdateEntry` only.
- Chancy.Controller.UpdateCurrent: as for `Update`, the Sequence and Compound verdicts and which child a Sequence moves to are stated per turn by `UpdateEntry` only.
- Chancy.Controller.Update: the log records which hooks were raised and in what order, not what user `Started` and `Ended` handlers did.
