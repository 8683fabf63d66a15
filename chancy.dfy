/** The scheduler's mutable objects: Event (a node of a doubly linked chain
    with lifecycle hooks), the state the Sequence and Compound combinators
    capture in their hooks, and the Controller that owns the pending and
    current lists. They refer to each other (Event.Create enqueues on the
    Controller, the Controller drives an Event's hooks, the hooks run the
    combinators' closures), so they share one module. */
module Chancy {
  import opened Rules

  /** The Started slot of an Event. */
  datatype StartHook =
    | NoStart
      /** caller code; its effects are not modelled */
    | UserStart
    | SequenceStart(sequence: SequenceClosure)
    | CompoundStart(compound: CompoundClosure)

  /** The Updated slot of an Event: its result says whether the Event is over. */
  datatype UpdateHook =
    | NoUpdate
      /** caller code, modelled as a decision on the arguments it is handed */
    | UserUpdate(decide: UpdateArgs -> bool)
    | SequenceUpdate(sequence: SequenceClosure)
    | CompoundUpdate(compound: CompoundClosure)

  /** The Ended slot of an Event. */
  datatype EndHook = NoEnd | UserEnd

  /** The start of the Previous chain of `chain[0]`, all the way to the node
      without a predecessor. */
  ghost predicate PreviousChain(chain: seq<Event>)
    reads chain`previous
  {
    && |chain| > 0
    && (forall i :: 0 <= i < |chain| - 1 ==> chain[i].previous == chain[i + 1])
    && chain[|chain| - 1].previous == null
  }

  /** `chain` is the list of nodes reached from `head` along `next`, up to
      the node without a successor; the stamps grow along it, so no node
      appears twice. */
  ghost predicate ChainFrom(chain: seq<Event>, head: Event)
    reads chain`next
  {
    && |chain| > 0 && chain[0] == head
    && (forall i :: 0 <= i < |chain| - 1 ==> chain[i].next == chain[i + 1])
    && chain[|chain| - 1].next == null
    && (forall i, j :: 0 <= i < j < |chain| ==> chain[i].stamp < chain[j].stamp)
  }

  /** What a Compound leaves on each child it collects: running, with no
      neighbours. */
  ghost predicate Detached(e: Event)
    reads e`isRunning, e`next, e`previous
  {
    e.isRunning && e.next == null && e.previous == null
  }

  /** The part of an Event the first pass of a tick may change. */
  datatype NodeState = NodeState(isRunning: bool, next: Event?, previous: Event?)

  /** What an update returning `done` tells about the caller's Updated
      hook of an Event that had run for `before` until a tick of length
      `dt`: with no hook it is over, and a user hook decides on the
      arguments it is handed. (The combinators' answers depend on their
      children; UpdateEvent states them.) */
  ghost predicate UpdateVerdict(hook: UpdateHook, before: real, dt: real, done: bool)
  {
    && (hook.NoUpdate? ==> done)
    && (hook.UserUpdate? ==> done == hook.decide(HandlerArgs(before, dt)))
  }

  class Event {
    var next: Event?
    var previous: Event?
    var isRunning: bool
    var totalRunningTime: real
    var started: StartHook
    var updated: UpdateHook
    var ended: EndHook
    /** Creation order: a node made by Extend is younger than the node it
        extends, so following `next` always reaches younger nodes. */
    ghost const stamp: nat

    /** The private constructor: no neighbours, not running, no handlers. */
    constructor (ghost stamp: nat)
      ensures next == null && previous == null
      ensures !isRunning && totalRunningTime == 0.0
      ensures started == NoStart && updated.NoUpdate? && ended == NoEnd
      ensures this.stamp == stamp
    {
      next, previous := null, null;
      isRunning := false;
      totalRunningTime := 0.0;
      started, updated, ended := NoStart, NoUpdate, NoEnd;
      this.stamp := stamp;
    }

    /** The public constructor: a neighbourless Event, appended once to the
        Controller's pending-add list. */
    static method Create(ctl: Controller) returns (e: Event)
      requires ctl.Valid()
      modifies ctl
      ensures ctl.Valid() && fresh(e)
      ensures e.next == null && e.previous == null && !e.isRunning
      ensures e.started == NoStart && e.updated.NoUpdate? && e.ended == NoEnd
      ensures ctl.pendingAdd == old(ctl.pendingAdd) + [e]
      ensures ctl.currentEvents == old(ctl.currentEvents)
      ensures ctl.events == old(ctl.events) + {e} && e.stamp == old(ctl.clock)
      ensures ctl.sequences == old(ctl.sequences) && ctl.compounds == old(ctl.compounds)
      ensures ctl.log == old(ctl.log)
    {
      e := new Event(ctl.clock);
      ctl.Register(e);
      ctl.AddEvent(e);
    }

    /** Appends a new node after this one; a `next` this node had before is
        overwritten, and that node keeps its own links. */
    method Extend(ghost ctl: Controller) returns (n: Event)
      requires ctl.WellFormed() && this in ctl.events
      modifies this`next, ctl`events, ctl`clock
      ensures ctl.WellFormed() && ctl.events == old(ctl.events) + {n}
      ensures fresh(n) && next == n && n.previous == this && n.next == null
      ensures !n.isRunning && n.totalRunningTime == 0.0
      ensures n.started == NoStart && n.updated.NoUpdate? && n.ended == NoEnd
    {
      assert ctl.Linked(this);
      n := new Event(ctl.clock);
      ctl.Register(n);
      label Registered:
      next := n;
      n.previous := this;
      ctl.LinkKeepsWellFormed@Registered(this);
    }

    /** Marks this node and every node before it on the Previous chain as
        running; no link, no running time and no other node changes. */
    method Start(ghost ctl: Controller)
      requires ctl.Registry() && this in ctl.events
      modifies ctl.events`isRunning
      ensures forall e :: e in ctl.Backward(this) ==> e.isRunning
      ensures forall e :: e in ctl.events && e !in ctl.Backward(this) ==> e.isRunning == old(e.isRunning)
      decreases stamp
    {
      assert ctl.Linked(this);
      isRunning := true;
      if previous != null {
        previous.Start(ctl);
      }
    }

    /** Starts this node alone, without touching its neighbours (the call
        StartEx(true, true) made by the combinators). */
    method StartEx()
      modifies this`isRunning
      ensures isRunning
    {
      isRunning := true;
    }

    /** Clears both links of this node; the former neighbours keep theirs. */
    method Detach()
      modifies this`next, this`previous
      ensures next == null && previous == null
    {
      next, previous := null, null;
    }

    /** Registers caller code on the Started slot. */
    method OnStarted()
      modifies this`started
      ensures started == UserStart
    {
      started := UserStart;
    }

    /** Registers caller code on the Updated slot. */
    method OnUpdated(decide: UpdateArgs -> bool)
      modifies this`updated
      ensures updated.UserUpdate? && forall a :: updated.decide(a) == decide(a)
    {
      updated := UserUpdate(decide);
    }

    /** Registers caller code on the Ended slot. */
    method OnEnded()
      modifies this`ended
      ensures ended == UserEnd
    {
      ended := UserEnd;
    }

    /** The start transition: resets the running time and raises Started. */
    method StartEvent(ghost ctl: Controller)
      requires ctl.Registry() && this in ctl.events
      modifies this`totalRunningTime, ctl.events`isRunning, ctl.events`next, ctl.events`previous
      modifies ctl.compounds`events, ctl`log
      ensures ctl.Registry()
      ensures ctl.log == old(ctl.log) + [Started(this)]
      ensures totalRunningTime == 0.0
      ensures ctl.StartedHookDone(this)
    {
      totalRunningTime := 0.0;
      RaiseStarted(ctl);
    }

    /** Raising Started: runs the Started hook and records the call. Only
        the nodes the hook targets change (StartTargets, which never holds
        this node): a Sequence hook starts its current child, a Compound
        hook collects, starts and detaches its whole child chain. */
    method RaiseStarted(ghost ctl: Controller)
      requires ctl.Registry() && this in ctl.events
      modifies ctl.events`isRunning, ctl.events`next, ctl.events`previous, ctl.compounds`events, ctl`log
      ensures ctl.Registry()
      ensures ctl.log == old(ctl.log) + [Started(this)]
      ensures ctl.StartedHookDone(this)
    {
      assert ctl.Hooked(this);
      ghost var touched := ctl.StartTargets(this);
      ctl.log := ctl.log + [Started(this)];
      match started {
        case NoStart =>
        case UserStart =>
        case SequenceStart(s) =>
          assert touched == [s.current];
          s.StartChild(ctl);
        case CompoundStart(c) =>
          c.Started(touched, ctl);
      }
    }

    /** The update transition: adds `dt` to the running time and raises
        Updated with the arguments built from the time before the tick;
        its answer says whether the Event is over. `singular` answers
        IsRunningSingular for the combinators. */
    method UpdateEvent(dt: real, singular: Event -> bool, ghost ctl: Controller) returns (finished: bool)
      requires ctl.Registry() && this in ctl.events
      modifies this`totalRunningTime, ctl.events`isRunning, ctl.sequences`current, ctl`log
      ensures ctl.Registry()
      ensures ctl.log == old(ctl.log) + [Updated(this, finished)]
      ensures totalRunningTime == old(totalRunningTime) + dt
      ensures updated.NoUpdate? ==> finished
      ensures updated.UserUpdate? ==> finished == updated.decide(HandlerArgs(old(totalRunningTime), dt))
      ensures ctl.UpdatedHookDone(this, singular, finished)
    {
      var lastTotal := totalRunningTime;
      totalRunningTime := totalRunningTime + dt;
      finished := RaiseUpdated(HandlerArgs(lastTotal, dt), singular, ctl);
    }

    /** Raising Updated with arguments `args`: without a hook the Event is
        over at once; a user hook decides on `args`; a Sequence hook steps
        its current child; a Compound hook checks its collected children.
        No link and no running time changes, only a Sequence's newly
        started child changes its running flag, and the call is recorded. */
    method RaiseUpdated(args: UpdateArgs, singular: Event -> bool, ghost ctl: Controller) returns (finished: bool)
      requires ctl.Registry() && this in ctl.events
      modifies ctl.events`isRunning, ctl.sequences`current, ctl`log
      ensures ctl.Registry()
      ensures ctl.log == old(ctl.log) + [Updated(this, finished)]
      ensures updated.NoUpdate? ==> finished
      ensures updated.UserUpdate? ==> finished == updated.decide(args)
      ensures ctl.UpdatedHookDone(this, singular, finished)
    {
      assert ctl.Hooked(this);
      match updated {
        case NoUpdate =>
          finished := true;
        case UserUpdate(decide) =>
          finished := decide(args);
        case SequenceUpdate(s) =>
          finished := s.Step(singular, ctl);
        case CompoundUpdate(c) =>
          finished := c.AllStopped(singular);
      }
      assert ctl.Registry();
      ctl.log := ctl.log + [Updated(this, finished)];
    }

    /** The end transition: runs the Ended hook, if there is one. Apart
        from the record of the call, no field of any object changes. */
    method EndEvent(ghost ctl: Controller) returns (handlerRan: bool)
      modifies ctl`log
      ensures ctl.log == old(ctl.log) + [Ended(this)]
      ensures handlerRan == ended.UserEnd?
    {
      handlerRan := ended.UserEnd?;
      ctl.log := ctl.log + [Ended(this)];
    }
  }

  /** The state a Sequence captures in its hooks: the child it is on. */
  class SequenceClosure {
    var current: Event

    constructor (head: Event)
      ensures current == head
    {
      current := head;
    }

    /** The Sequence's Started hook: starts the current child. */
    method StartChild(ghost ctl: Controller)
      requires ctl.Registry() && this in ctl.sequences
      modifies current`isRunning
      ensures ctl.Registry() && current.isRunning
      ensures forall e :: e in ctl.events && e != current ==> e.isRunning == old(e.isRunning)
    {
      current.StartEx();
    }

    /** The Sequence's Updated hook: not over while the current child runs;
        otherwise moves on to the child's successor and starts it, or, at the
        end of the chain, reports the Sequence over. */
    method Step(singular: Event -> bool, ghost ctl: Controller) returns (finished: bool)
      requires ctl.Registry() && this in ctl.sequences
      modifies this`current, ctl.events`isRunning
      ensures ctl.Registry()
      ensures var step := StepOf(singular(old(current)), old(current.next) != null);
        && finished == (step == Finish)
        && (step == Advance ==> current == old(current.next) && current.isRunning)
        && (step != Advance ==> current == old(current))
        && forall e :: e in ctl.events && !(step == Advance && e == current) ==> e.isRunning == old(e.isRunning)
      ensures current.stamp >= old(current.stamp)
    {
      if singular(current) {
        finished := false;
      } else if current.next != null {
        var n := current.next;
        ctl.SuccessorRegistered(this, n);
        current := n;
        current.StartEx();
        finished := false;
        forall e | e in ctl.events
          ensures ctl.Hooked(e)
        {
          assert old(ctl.Hooked(e));
        }
      } else {
        finished := true;
      }
    }
  }

  /** The state a Compound captures in its hooks: the head of its child
      chain and the list of children collected when it starts. */
  class CompoundClosure {
    const head: Event
    var events: seq<Event>

    constructor (head: Event)
      ensures this.head == head && events == []
    {
      this.head := head;
      events := [];
    }

    /** The Compound's Started hook: collects `chain`, the chain that hangs
        from `head` when the hook runs. Only the nodes of that chain change. */
    method Started(ghost chain: seq<Event>, ghost ctl: Controller)
      requires ctl.Registry() && this in ctl.compounds
      requires ChainFrom(chain, head) && forall i :: 0 <= i < |chain| ==> chain[i] in ctl.events
      modifies this`events, ctl.events`isRunning, ctl.events`next, ctl.events`previous
      ensures ctl.Registry()
      ensures events == old(events) + chain
      ensures forall i :: 0 <= i < |chain| ==> Detached(chain[i])
      ensures forall e :: e in ctl.events && e !in chain ==>
        e.isRunning == old(e.isRunning) && e.next == old(e.next) && e.previous == old(e.previous)
    {
      Collect(chain);
      assert events[|old(events)|..] == chain;
      ctl.CollectKeepsRegistry(this);
    }

    /** The walk the Started hook makes: from `head` along `next`, appending
        each node to `events`, starting it and detaching it. `chain` is the
        chain as it stands before the walk. */
    method Collect(ghost chain: seq<Event>)
      requires ChainFrom(chain, head)
      modifies this`events, chain`isRunning, chain`next, chain`previous
      ensures events == old(events) + chain
      ensures forall i :: 0 <= i < |chain| ==> Detached(chain[i])
    {
      var e: Event? := head;
      ghost var k := 0;
      while e != null
        invariant 0 <= k <= |chain|
        invariant e == if k < |chain| then chain[k] else null
        invariant events == old(events) + chain[..k]
        invariant forall i :: 0 <= i < k ==> Detached(chain[i])
        invariant forall i :: k <= i < |chain| - 1 ==> chain[i].next == chain[i + 1]
        invariant k < |chain| ==> chain[|chain| - 1].next == null
        decreases |chain| - k
      {
        var t := Take(e);
        assert chain[..k + 1] == chain[..k] + [e];
        e := t;
        k := k + 1;
      }
      assert chain[..k] == chain;
    }

    /** One turn of the collecting loop: add `e` to the list, start it, and
        detach it, handing back its former successor. */
    method Take(e: Event) returns (t: Event?)
      modifies this`events, e`isRunning, e`next, e`previous
      ensures t == old(e.next) && events == old(events) + [e]
      ensures Detached(e)
    {
      events := events + [e];
      e.StartEx();
      t := e.next;
      e.Detach();
    }

    /** The Compound's Updated hook: over exactly when no collected child is
        still running (so at once when none was collected). */
    method AllStopped(singular: Event -> bool) returns (finished: bool)
      ensures finished <==> forall i :: 0 <= i < |events| ==> !singular(events[i])
    {
      finished := TrueForAll(events, e => !singular(e));
    }
  }

  /** The scheduler. The source keeps its three lists in static fields; here
      they are the fields of one Controller object that is passed around. */
  class Controller {
    var pendingAdd: seq<Event>
    var currentEvents: seq<Event>
    var pendingRemove: seq<Event>

    /** Every Event and closure allocated so far, and the stamp the next
        Event gets. */
    ghost var events: set<Event>
    ghost var sequences: set<SequenceClosure>
    ghost var compounds: set<CompoundClosure>
    ghost var clock: nat
    /** The hook invocations Update has made, in order. */
    ghost var log: seq<Transition<Event>>

    /** The objects the lists, links and hooks refer to are all allocated
        (registered), successors are younger than their nodes, and the
        children a combinator drives are younger than the node it sits on. */
    ghost predicate WellFormed()
      reads this`pendingAdd, this`currentEvents, this`pendingRemove
      reads this`events, this`sequences, this`compounds, this`clock
      reads events`next, events`previous, events`started, events`updated, sequences`current, compounds`events
    {
      ListsRegistered() && Registry()
    }

    ghost predicate ListsRegistered()
      reads this`pendingAdd, this`currentEvents, this`pendingRemove, this`events
    {
      && (forall e :: e in pendingAdd ==> e in events)
      && (forall e :: e in currentEvents ==> e in events)
      && (forall e :: e in pendingRemove ==> e in events)
    }

    /** The part of WellFormed that does not look at the three lists. */
    ghost predicate Registry()
      reads this`events, this`sequences, this`compounds, this`clock
      reads events`next, events`previous, events`started, events`updated, sequences`current, compounds`events
    {
      && AllLinked()
      && AllHooked()
      && SequencesRegistered()
      && CompoundsRegistered()
    }

    ghost predicate AllLinked()
      reads this`events, this`clock, events`next, events`previous
    {
      forall e {:trigger Linked(e)} :: e in events ==> Linked(e)
    }

    ghost predicate AllHooked()
      reads this`events, this`sequences, this`compounds, events`started, events`updated, sequences`current
    {
      forall e {:trigger Hooked(e)} :: e in events ==> Hooked(e)
    }

    /** `e` was stamped before the clock, its successor is registered and
        younger, and its predecessor is registered and older. */
    ghost predicate Linked(e: Event)
      reads this`events, this`clock, e`next, e`previous
    {
      && e.stamp < clock
      && (e.next != null ==> e.next in events && e.stamp < e.next.stamp)
      && (e.previous != null ==> e.previous in events && e.previous.stamp < e.stamp)
    }

    /** The closures in `e`'s hooks are registered and drive younger nodes. */
    ghost predicate Hooked(e: Event)
      reads this`sequences, this`compounds, e`started, e`updated, sequences`current
    {
      && (e.started.SequenceStart? ==>
            e.started.sequence in sequences && e.stamp < e.started.sequence.current.stamp)
      && (e.started.CompoundStart? ==>
            e.started.compound in compounds && e.stamp < e.started.compound.head.stamp)
      && (e.updated.SequenceUpdate? ==>
            e.updated.sequence in sequences && e.stamp < e.updated.sequence.current.stamp)
      && (e.updated.CompoundUpdate? ==> e.updated.compound in compounds)
    }

    ghost predicate SequencesRegistered()
      reads this`sequences, this`events, sequences`current
    {
      forall s :: s in sequences ==> s.current in events
    }

    ghost predicate CompoundsRegistered()
      reads this`compounds, this`events, compounds`events
    {
      forall c :: c in compounds ==> c.head in events && forall x :: x in c.events ==> x in events
    }

    /** No Event is listed twice on the pending and current lists together:
        each is added once, when it is created. */
    ghost predicate Distinct()
      reads this`pendingAdd, this`currentEvents
    {
      && NoDuplicates(currentEvents) && NoDuplicates(pendingAdd)
      && forall e :: e in pendingAdd ==> e !in currentEvents
    }

    /** What the Started hook of `e` has left behind, for as long as no
        running flag is cleared and no Compound's list is shortened: the
        current child of a Sequence is running, and a Compound has collected
        its head and started it. */
    ghost predicate StartedEffect(e: Event)
      reads this`events, this`sequences, this`compounds, e`started, sequences`current, compounds`events
      reads events`isRunning
    {
      && (e.started.SequenceStart? && e.started.sequence in sequences && e.started.sequence.current in events ==>
            e.started.sequence.current.isRunning)
      && (e.started.CompoundStart? && e.started.compound in compounds ==>
            e.started.compound.head in e.started.compound.events
            && (e.started.compound.head in events ==> e.started.compound.head.isRunning))
    }

    /** What raising the Started hook of `e` did, measured against the
        state before: only the hook's targets changed their flag or links
        and each is running, an Event whose links changed is detached, a
        Sequence hook left its current child running, a Compound hook
        appended its chain to its list and detached each child, and no
        other Compound's list changed. */
    twostate predicate StartedHookDone(e: Event)
      requires old(Registry()) && old(e in events) && Registry()
      requires events == old(events) && compounds == old(compounds)
      reads this`events, this`sequences, this`compounds, this`clock
      reads events`isRunning, events`next, events`previous, events`started, events`updated
      reads sequences`current, compounds`events
    {
      assert Hooked(e);
      var touched := old(StartTargets(e));
      && (forall x :: x in events && x !in touched ==>
            x.isRunning == old(x.isRunning) && x.next == old(x.next) && x.previous == old(x.previous))
      && (forall x :: x in touched ==> x.isRunning)
      && (forall x :: x in events && (x.next != old(x.next) || x.previous != old(x.previous)) ==> Detached(x))
      && (e.started.SequenceStart? ==> e.started.sequence.current.isRunning)
      && (e.started.CompoundStart? ==>
            var c := e.started.compound;
            && c.events == old(c.events) + touched
            && (forall i :: 0 <= i < |touched| ==> Detached(touched[i])))
      && (forall d :: d in compounds && !(e.started.CompoundStart? && d == e.started.compound) ==>
            d.events == old(d.events))
    }

    /** What raising the Updated hook of `e` did when it answered
        `finished`, for the combinators' hooks: a Sequence hook followed
        `StepOf` on its current child (moving to and starting the successor
        on an advance, and changing no other flag), a Compound hook answered
        whether none of its collected children is running, any other hook
        changed no flag, and no other Sequence moved. */
    twostate predicate UpdatedHookDone(e: Event, singular: Event -> bool, finished: bool)
      requires Registry() && e in events && events == old(events) && sequences == old(sequences)
      reads this`events, this`sequences, this`compounds, this`clock
      reads events`isRunning, events`next, events`previous, events`started, events`updated
      reads sequences`current, compounds`events
    {
      assert Hooked(e);
      && (e.updated.SequenceUpdate? ==>
            var s := e.updated.sequence;
            var step := StepOf(singular(old(s.current)), old(s.current.next) != null);
            && finished == (step == Finish)
            && (step == Advance ==> s.current == old(s.current.next) && s.current.isRunning)
            && (step != Advance ==> s.current == old(s.current))
            && forall x :: x in events && !(step == Advance && x == s.current) ==> x.isRunning == old(x.isRunning))
      && (e.updated.CompoundUpdate? ==> finished == TrueForAll(e.updated.compound.events, x => !singular(x)))
      && (!e.updated.SequenceUpdate? ==> forall x :: x in events ==> x.isRunning == old(x.isRunning))
      && (forall s :: s in sequences && !(e.updated.SequenceUpdate? && s == e.updated.sequence) ==>
            s.current == old(s.current))
    }

    /** Each registered Event's running flag and neighbours. */
    ghost function NodeStates(): (r: map<Event, NodeState>)
      reads this`events, events`isRunning, events`next, events`previous
    {
      map x | x in events :: NodeState(x.isRunning, x.next, x.previous)
    }

    /** Measured against the snapshot `before`: the Events outside `bound`
        kept their flag and neighbours, no flag was cleared, and every Event
        whose neighbours changed is detached. */
    ghost predicate KeptSince(before: map<Event, NodeState>, bound: seq<Event>)
      reads this`events, events`isRunning, events`next, events`previous
    {
      forall x :: x in events && x in before ==>
        && (x !in bound ==> before[x] == NodeState(x.isRunning, x.next, x.previous))
        && (before[x].isRunning ==> x.isRunning)
        && (before[x].next != x.next || before[x].previous != x.previous ==> Detached(x))
    }

    /** Between ticks the removal list is empty. */
    ghost predicate Valid()
      reads this`pendingAdd, this`currentEvents, this`pendingRemove
      reads this`events, this`sequences, this`compounds, this`clock
      reads events`next, events`previous, events`started, events`updated, sequences`current, compounds`events
    {
      WellFormed() && Distinct() && pendingRemove == []
    }

    /** The chain from `e` along `next` up to the last node. */
    ghost function Forward(e: Event): (r: seq<Event>)
      requires Registry() && e in events
      reads this`events, this`sequences, this`compounds, this`clock
      reads events`next, events`previous, events`started, events`updated, sequences`current, compounds`events
      ensures ChainFrom(r, e)
      ensures forall i :: 0 <= i < |r| ==> r[i] in events && e.stamp <= r[i].stamp
      decreases clock - e.stamp
    {
      assert Linked(e);
      if e.next == null then [e] else [e] + Forward(e.next)
    }

    /** The chain from `e` along `previous` back to the first node. */
    ghost function Backward(e: Event): (r: seq<Event>)
      requires Registry() && e in events
      reads this`events, this`sequences, this`compounds, this`clock
      reads events`next, events`previous, events`started, events`updated, sequences`current, compounds`events
      ensures PreviousChain(r) && r[0] == e
      ensures forall i :: 0 <= i < |r| ==> r[i] in events && r[i].stamp <= e.stamp
      decreases e.stamp
    {
      assert Linked(e);
      if e.previous == null then [e] else [e] + Backward(e.previous)
    }

    /** The nodes the Started hook of `e` changes: the current child of a
        Sequence, the whole child chain of a Compound, none otherwise. The
        children are younger than `e`, so `e` itself is never among them. */
    ghost function StartTargets(e: Event): (r: seq<Event>)
      requires Registry() && e in events
      reads this`events, this`sequences, this`compounds, this`clock
      reads events`next, events`previous, events`started, events`updated, sequences`current, compounds`events
      ensures e !in r
      ensures forall i :: 0 <= i < |r| ==> r[i] in events
      ensures e.started.SequenceStart? ==> r == [e.started.sequence.current]
      ensures e.started.CompoundStart? ==> ChainFrom(r, e.started.compound.head)
    {
      assert Hooked(e);
      match e.started
      case SequenceStart(s) => [s.current]
      case CompoundStart(c) => Forward(c.head)
      case _ => []
    }

    /** The nodes the Started hooks of the Events `es` change, Event by
        Event. */
    ghost function StartTargetsOf(es: seq<Event>): (r: seq<Event>)
      requires Registry() && forall e :: e in es ==> e in events
      reads this`events, this`sequences, this`compounds, this`clock
      reads events`next, events`previous, events`started, events`updated, sequences`current, compounds`events
      ensures forall x :: x in r ==> x in events
      decreases |es|
    {
      if es == [] then [] else StartTargetsOf(es[..|es| - 1]) + StartTargets(es[|es| - 1])
    }

    /** The targets of each of the Events `es` lie in `bound`. */
    ghost predicate TargetsWithin(es: seq<Event>, bound: seq<Event>)
      reads this`events, this`sequences, this`compounds, this`clock
      reads events`next, events`previous, events`started, events`updated, sequences`current, compounds`events
    {
      Registry() && forall e :: e in es ==> e in events && forall x :: x in StartTargets(e) ==> x in bound
    }

    /** `StartTargetsOf` collects the targets of every Event it is given. */
    lemma {:induction false} StartTargetsOfCovers(es: seq<Event>)
      requires Registry() && forall e :: e in es ==> e in events
      ensures TargetsWithin(es, StartTargetsOf(es))
      decreases |es|
    {
      if es != [] {
        var init, last := es[..|es| - 1], es[|es| - 1];
        StartTargetsOfCovers(init);
        assert forall e :: e in es ==> e == last || e in init;
      }
    }

    /** The static constructor: three empty lists. */
    constructor ()
      ensures Valid()
      ensures pendingAdd == [] && currentEvents == [] && pendingRemove == []
      ensures events == {} && log == []
    {
      pendingAdd, currentEvents, pendingRemove := [], [], [];
      events, sequences, compounds := {}, {}, {};
      clock := 0;
      log := [];
    }

    /** Records a newly allocated Event. */
    ghost method Register(e: Event)
      requires WellFormed()
      requires e.stamp == clock && e.next == null && e.previous == null
      requires e.started == NoStart && e.updated.NoUpdate?
      modifies this`events, this`clock
      ensures WellFormed()
      ensures events == old(events) + {e} && clock == old(clock) + 1
    {
      events := events + {e};
      clock := clock + 1;
      forall x | x in events
        ensures Linked(x)
      {
        if x != e {
          assert old(Linked(x));
        }
      }
    }

    /** Records a newly allocated Sequence closure. */
    ghost method RegisterSequence(s: SequenceClosure)
      requires WellFormed() && s.current in events
      modifies this`sequences
      ensures WellFormed() && sequences == old(sequences) + {s}
    {
      sequences := sequences + {s};
      forall e | e in events
        ensures Hooked(e)
      {
        assert old(Hooked(e));
      }
    }

    /** Records a newly allocated Compound closure. */
    ghost method RegisterCompound(c: CompoundClosure)
      requires WellFormed() && c.head in events && c.events == []
      modifies this`compounds
      ensures WellFormed() && compounds == old(compounds) + {c}
    {
      compounds := compounds + {c};
      forall e | e in events
        ensures Hooked(e)
      {
        assert old(Hooked(e));
      }
    }

    /** Linking `p` to a registered, younger successor that points back at
        it keeps the registry well formed. */
    twostate lemma LinkKeepsWellFormed(p: Event)
      requires old(WellFormed()) && unchanged(this)
      requires p in events && p.next != null && p.next in events && p.stamp < p.next.stamp
      requires p.next.previous == p
      requires forall e :: e in events && e != p ==> e.next == old(e.next)
      requires forall e :: e in events && e != p.next ==> e.previous == old(e.previous)
      requires forall e :: e in events ==> unchanged(e`started, e`updated)
      requires unchanged(sequences`current) && unchanged(compounds`events)
      ensures WellFormed()
    {
      forall e | e in events
        ensures Linked(e) && Hooked(e)
      {
        assert old(Linked(e)) && old(Hooked(e));
      }
    }

    /** Filling the hook slots of `p` with registered closures that drive
        younger nodes keeps the registry well formed. */
    twostate lemma HookKeepsWellFormed(p: Event)
      requires old(WellFormed()) && unchanged(this)
      requires p in events && Hooked(p)
      requires forall e :: e in events ==> e.next == old(e.next) && e.previous == old(e.previous)
      requires forall e :: e in events && e != p ==> unchanged(e`started, e`updated)
      requires unchanged(sequences`current) && unchanged(compounds`events)
      ensures WellFormed()
    {
      forall e | e in events
        ensures Linked(e) && Hooked(e)
      {
        assert old(Linked(e));
        if e != p {
          assert old(Hooked(e));
        }
      }
    }

    /** A Compound's collecting walk keeps the registry well formed: it only
        clears the links of the registered nodes it appends to its own
        list. */
    twostate lemma CollectKeepsRegistry(c: CompoundClosure)
      requires old(Registry()) && old(c in compounds)
      requires unchanged(this) && unchanged(sequences`current)
      requires forall x :: x in events ==> unchanged(x`started, x`updated)
      requires |old(c.events)| <= |c.events| && c.events[..|old(c.events)|] == old(c.events)
      requires forall i :: |old(c.events)| <= i < |c.events| ==> c.events[i] in events && c.events[i].next == null && c.events[i].previous == null
      requires forall x :: x in events && x !in c.events[|old(c.events)|..] ==>
        x.next == old(x.next) && x.previous == old(x.previous)
      requires forall d :: d in compounds && d != c ==> d.events == old(d.events)
      ensures Registry()
    {
      forall e | e in events
        ensures Linked(e) && Hooked(e)
      {
        assert old(Linked(e)) && old(Hooked(e));
      }
    }

    /** While links are only ever cleared, the chain along `next` from a
        node can only get shorter. */
    twostate lemma ForwardShrinks(x: Event)
      requires old(Registry()) && Registry() && old(x in events)
      requires events == old(events)
      requires forall y :: y in events && y.next != old(y.next) ==> y.next == null
      ensures forall y :: y in Forward(x) ==> y in old(Forward(x))
      decreases old(clock) - x.stamp
    {
      assert Linked(x) && old(Linked(x));
      if x.next != null {
        assert x.next == old(x.next);
        ForwardShrinks(x.next);
      }
    }

    /** Likewise, while the hooks and the Sequences' current children stay,
        the nodes a Started hook would change can only become fewer. */
    twostate lemma StartTargetsShrink(e: Event)
      requires old(Registry()) && Registry() && old(e in events)
      requires events == old(events) && sequences == old(sequences) && unchanged(e`started)
      requires forall s :: s in old(sequences) ==> s.current == old(s.current)
      requires forall y :: y in events && y.next != old(y.next) ==> y.next == null
      ensures forall y :: y in StartTargets(e) ==> y in old(StartTargets(e))
    {
      assert Hooked(e) && old(Hooked(e));
      if e.started.CompoundStart? {
        ForwardShrinks(e.started.compound.head);
      }
    }

    /** The successor of a Sequence's current child is registered and
        younger than it, so the Sequence may move on to it. */
    lemma SuccessorRegistered(s: SequenceClosure, n: Event)
      requires Registry() && s in sequences && s.current.next == n
      ensures n in events && s.current.stamp < n.stamp
    {
      assert Linked(s.current);
    }

    /** Appends an Event to the pending-add list. Its one caller, Create,
        hands it a brand-new Event, listed nowhere yet. */
    method AddEvent(newEvent: Event)
      requires WellFormed() && Distinct() && newEvent in events
      requires newEvent !in pendingAdd && newEvent !in currentEvents
      modifies this`pendingAdd
      ensures WellFormed() && Distinct()
      ensures pendingAdd == old(pendingAdd) + [newEvent]
    {
      NoDuplicatesConcat(pendingAdd, [newEvent]);
      pendingAdd := pendingAdd + [newEvent];
    }

    /** The guard of InitEvent: only an Event with no neighbours may be
        initialised; any other is refused with an ArgumentException. */
    method InitEvent(newEvent: Event) returns (accepted: bool)
      ensures accepted <==> newEvent.next == null && newEvent.previous == null
    {
      accepted := !(newEvent.next != null || newEvent.previous != null);
    }

    /** One tick: start and admit every pending Event, update every current
        Event, then end and remove the ones whose update said they are over.
        `outcome` holds, for each entry updated, what its update returned:
        the verdict of its Updated hook on the running time it had before
        the tick (0 for an Event admitted in this tick). */
    method Update(deltaTime: real, singular: Event -> bool) returns (ghost outcome: seq<bool>)
      requires Valid()
      modifies this`pendingAdd, this`currentEvents, this`pendingRemove, this`log
      modifies events`isRunning, events`next, events`previous
      modifies currentEvents`totalRunningTime, pendingAdd`totalRunningTime
      modifies sequences`current, compounds`events
      ensures Valid()
      ensures pendingAdd == []
      ensures var admitted := old(currentEvents) + old(pendingAdd);
        && |outcome| == |admitted|
        && currentEvents == RemoveAll(admitted, Select(admitted, outcome))
        && currentEvents == Select(admitted, Negate(outcome))
        && log == old(log) + TickLog(old(currentEvents), old(pendingAdd), outcome)
      ensures forall e :: e in old(currentEvents) ==> e.totalRunningTime == old(e.totalRunningTime) + deltaTime
      ensures forall e :: e in old(pendingAdd) ==> e.totalRunningTime == deltaTime
      ensures var admitted := old(currentEvents) + old(pendingAdd);
        forall i :: 0 <= i < |admitted| ==>
          var before := if i < |old(currentEvents)| then old(admitted[i].totalRunningTime) else 0.0;
          UpdateVerdict(admitted[i].updated, before, deltaTime, outcome[i])
      ensures forall x :: x in events && x !in old(StartTargetsOf(pendingAdd)) ==>
        x.next == old(x.next) && x.previous == old(x.previous)
      ensures forall x :: x in events && (x.next != old(x.next) || x.previous != old(x.previous)) ==> Detached(x)
      ensures forall x :: x in events && old(x.isRunning) ==> x.isRunning
      ensures forall d :: d in compounds ==> old(d.events) <= d.events
      ensures forall e :: e in old(pendingAdd) ==> StartedEffect(e)
    {
      AdmitPending();
      ghost var admitted := currentEvents;
      forall e | e in old(currentEvents)
        ensures e.totalRunningTime == old(e.totalRunningTime)
      {
        assert e !in old(pendingAdd);
      }
      forall i | 0 <= i < |admitted|
        ensures admitted[i].totalRunningTime ==
          if i < |old(currentEvents)| then old(admitted[i].totalRunningTime) else 0.0
      {
        if i < |old(currentEvents)| {
          assert admitted[i] == old(currentEvents)[i];
        } else {
          assert admitted[i] == old(pendingAdd)[i - |old(currentEvents)|];
        }
      }
      outcome := UpdateAndRemove(deltaTime, singular);
      AppendAssociative(old(log), StartsOf(old(pendingAdd)), UpdatesOf(admitted, outcome), EndsOf(Select(admitted, outcome)));
    }

    /** The second and third passes of a tick: update every current Event,
        then end and remove the ones whose update said they are over. No
        link changes and no running flag is cleared. */
    method UpdateAndRemove(deltaTime: real, singular: Event -> bool) returns (ghost outcome: seq<bool>)
      requires Valid()
      modifies this`currentEvents, this`pendingRemove, this`log
      modifies events`isRunning, currentEvents`totalRunningTime, sequences`current
      ensures Valid()
      ensures |outcome| == |old(currentEvents)|
      ensures currentEvents == RemoveAll(old(currentEvents), Select(old(currentEvents), outcome))
      ensures currentEvents == Select(old(currentEvents), Negate(outcome))
      ensures log == old(log) + UpdatesOf(old(currentEvents), outcome) + EndsOf(Select(old(currentEvents), outcome))
      ensures forall e :: e in old(currentEvents) ==> e.totalRunningTime == old(e.totalRunningTime) + deltaTime
      ensures forall i :: 0 <= i < |old(currentEvents)| ==>
        UpdateVerdict(old(currentEvents)[i].updated, old(currentEvents[i].totalRunningTime), deltaTime, outcome[i])
      ensures forall x :: x in events && old(x.isRunning) ==> x.isRunning
      ensures forall x :: x in events && old(StartedEffect(x)) ==> StartedEffect(x)
    {
      outcome := UpdateCurrent(deltaTime, singular);
      SurvivorsInOrder(currentEvents, outcome);
      RemoveFinished();
    }

    /** The first pass of a tick: start each pending Event in list order,
        move it to the current list, then clear the pending list. Each
        admitted Event has its running time reset; no other does. */
    method AdmitPending()
      requires Valid()
      modifies this`pendingAdd, this`currentEvents, this`log
      modifies events`isRunning, events`next, events`previous, pendingAdd`totalRunningTime, compounds`events
      ensures Valid()
      ensures pendingAdd == [] && currentEvents == old(currentEvents) + old(pendingAdd)
      ensures log == old(log) + StartsOf(old(pendingAdd))
      ensures forall e :: e in old(pendingAdd) ==> e.totalRunningTime == 0.0
      ensures forall x :: x in events && x !in old(StartTargetsOf(pendingAdd)) ==>
        x.isRunning == old(x.isRunning) && x.next == old(x.next) && x.previous == old(x.previous)
      ensures forall x :: x in events && old(x.isRunning) ==> x.isRunning
      ensures forall x :: x in events && (x.next != old(x.next) || x.previous != old(x.previous)) ==> Detached(x)
      ensures forall d :: d in compounds ==> old(d.events) <= d.events
      ensures forall e :: e in old(pendingAdd) ==> StartedEffect(e)
    {
      ghost var before, bound := NodeStates(), StartTargetsOf(pendingAdd);
      StartTargetsOfCovers(pendingAdd);
      AdmitEach(before, bound);
      NoDuplicatesConcat(old(currentEvents), pendingAdd);
      pendingAdd := [];
    }

    /** The loop of the first pass, measured against the snapshot `before`
        and the targets `bound` of the pending list. */
    method AdmitEach(ghost before: map<Event, NodeState>, ghost bound: seq<Event>)
      requires ListsRegistered() && KeptSince(before, bound) && TargetsWithin(pendingAdd, bound)
      modifies this`currentEvents, this`log
      modifies events`isRunning, events`next, events`previous, pendingAdd`totalRunningTime, compounds`events
      ensures Registry() && currentEvents == old(currentEvents) + pendingAdd
      ensures log == old(log) + StartsOf(pendingAdd)
      ensures forall x :: x in pendingAdd ==> x.totalRunningTime == 0.0
      ensures KeptSince(before, bound)
      ensures forall d :: d in compounds ==> old(d.events) <= d.events
      ensures forall x :: x in pendingAdd ==> StartedEffect(x)
    {
      var i := 0;
      while i < |pendingAdd|
        invariant 0 <= i <= |pendingAdd|
        invariant currentEvents == old(currentEvents) + pendingAdd[..i]
        invariant log == old(log) + StartsOf(pendingAdd[..i])
        invariant forall x :: x in pendingAdd[..i] ==> x.totalRunningTime == 0.0
        invariant forall x :: x in pendingAdd ==> x in events
        invariant KeptSince(before, bound) && TargetsWithin(pendingAdd[i..], bound)
        invariant forall d :: d in compounds ==> old(d.events) <= d.events
        invariant forall x :: x in pendingAdd[..i] ==> StartedEffect(x)
      {
        var e := pendingAdd[i];
        assert pendingAdd[i..] == [e] + pendingAdd[i + 1..];
        AdmitStep(e, pendingAdd[..i], pendingAdd[i + 1..], before, bound);
        StartsOfSnoc(old(log), pendingAdd[..i], e);
        assert pendingAdd[..i + 1] == pendingAdd[..i] + [e];
        i := i + 1;
      }
      assert pendingAdd[..i] == pendingAdd;
    }

    /** One turn of the first pass: start `e` (which resets its running
        time) and append it to the current list. */
    method AdmitEntry(e: Event)
      requires Registry() && e in events
      modifies this`currentEvents, this`log
      modifies events`isRunning, events`next, events`previous, e`totalRunningTime, compounds`events
      ensures Registry()
      ensures currentEvents == old(currentEvents) + [e]
      ensures log == old(log) + [Started(e)]
      ensures e.totalRunningTime == 0.0
      ensures StartedHookDone(e)
      ensures forall x :: x in events && old(x.isRunning) ==> x.isRunning
      ensures forall d :: d in compounds ==> old(d.events) <= d.events
      ensures StartedEffect(e)
      ensures forall x :: x in events && old(StartedEffect(x)) ==> StartedEffect(x)
    {
      e.StartEvent(this);
      currentEvents := currentEvents + [e];
    }

    /** A turn of the first pass together with what the pass carries from
        turn to turn: the Events already admitted (`started`) keep what
        their Started hooks left behind, nothing outside `bound` changes
        since the snapshot `before`, and the Events still waiting
        (`later`) keep their targets inside `bound`. */
    method AdmitStep(e: Event, ghost started: seq<Event>, ghost later: seq<Event>,
                     ghost before: map<Event, NodeState>, ghost bound: seq<Event>)
      requires forall x :: x in started ==> x in events && StartedEffect(x)
      requires KeptSince(before, bound) && TargetsWithin([e] + later, bound)
      modifies this`currentEvents, this`log
      modifies events`isRunning, events`next, events`previous, e`totalRunningTime, compounds`events
      ensures Registry()
      ensures currentEvents == old(currentEvents) + [e]
      ensures log == old(log) + [Started(e)]
      ensures e.totalRunningTime == 0.0
      ensures forall d :: d in compounds ==> old(d.events) <= d.events
      ensures forall x :: x in started + [e] ==> StartedEffect(x)
      ensures KeptSince(before, bound) && TargetsWithin(later, bound)
    {
      assert e in [e] + later;
      AdmitEntry(e);
      forall y | y in later
        ensures y in events && forall x :: x in StartTargets(y) ==> x in bound
      {
        assert y in [e] + later;
        StartTargetsShrink(y);
      }
    }

    /** The second pass of a tick: update each current Event in list order
        and queue the ones that report they are over for removal. Each
        current Event gains `deltaTime`, and what its update returned is
        the verdict of its Updated hook. */
    method UpdateCurrent(deltaTime: real, singular: Event -> bool) returns (ghost outcome: seq<bool>)
      requires Valid()
      modifies this`pendingRemove, this`log
      modifies events`isRunning, currentEvents`totalRunningTime, sequences`current
      ensures WellFormed() && Distinct()
      ensures |outcome| == |currentEvents| && pendingRemove == Select(currentEvents, outcome)
      ensures log == old(log) + UpdatesOf(currentEvents, outcome)
      ensures forall e :: e in currentEvents ==> e.totalRunningTime == old(e.totalRunningTime) + deltaTime
      ensures forall i :: 0 <= i < |currentEvents| ==>
        UpdateVerdict(currentEvents[i].updated, old(currentEvents[i].totalRunningTime), deltaTime, outcome[i])
      ensures forall x :: x in events && old(x.isRunning) ==> x.isRunning
      ensures forall x :: x in events && old(StartedEffect(x)) ==> StartedEffect(x)
    {
      ghost var running := set x | x in events && x.isRunning;
      ghost var effected := set x | x in events && StartedEffect(x);
      outcome := UpdateEach(deltaTime, singular, running, effected);
    }

    /** The loop of the second pass, carrying the Events found running
        (`running`) and those whose Started hooks had left their effect
        (`effected`) when the pass began. */
    method UpdateEach(deltaTime: real, singular: Event -> bool, ghost running: set<Event>, ghost effected: set<Event>)
      returns (ghost outcome: seq<bool>)
      requires Valid()
      requires forall x :: x in running ==> x in events && x.isRunning
      requires forall x :: x in effected ==> x in events && StartedEffect(x)
      modifies this`pendingRemove, this`log
      modifies events`isRunning, currentEvents`totalRunningTime, sequences`current
      ensures WellFormed() && Distinct()
      ensures |outcome| == |currentEvents| && pendingRemove == Select(currentEvents, outcome)
      ensures log == old(log) + UpdatesOf(currentEvents, outcome)
      ensures forall e :: e in currentEvents ==> e.totalRunningTime == old(e.totalRunningTime) + deltaTime
      ensures forall i :: 0 <= i < |currentEvents| ==>
        UpdateVerdict(currentEvents[i].updated, old(currentEvents[i].totalRunningTime), deltaTime, outcome[i])
      ensures forall x :: x in running ==> x.isRunning
      ensures forall x :: x in effected ==> StartedEffect(x)
    {
      outcome := [];
      var es, i := currentEvents, 0;
      while i < |es|
        invariant 0 <= i <= |es| && |outcome| == i
        invariant pendingRemove == Select(es[..i], outcome)
        invariant log == old(log) + UpdatesOf(es[..i], outcome)
        invariant Registry() && NoDuplicates(es)
        invariant forall j :: 0 <= j < |es| ==>
          es[j].totalRunningTime == old(es[j].totalRunningTime) + if j < i then deltaTime else 0.0
        invariant forall j :: 0 <= j < i ==>
          UpdateVerdict(es[j].updated, old(es[j].totalRunningTime), deltaTime, outcome[j])
        invariant forall x :: x in running ==> x in events && x.isRunning
        invariant forall x :: x in effected ==> x in events && StartedEffect(x)
      {
        var e := es[i];
        assert es[..i + 1] == es[..i] + [e];
        var done := UpdateStep(e, deltaTime, singular, running, effected);
        SelectSnoc(es[..i], outcome, e, done);
        UpdatesOfSnoc(old(log), es[..i], outcome, e, done);
        outcome := outcome + [done];
        i := i + 1;
      }
      assert es[..i] == es;
    }

    /** One turn of the second pass: update `e` and, when it reports that
        it is over, queue it for removal. */
    method UpdateEntry(e: Event, deltaTime: real, singular: Event -> bool) returns (done: bool)
      requires Registry() && e in events
      modifies this`pendingRemove, this`log
      modifies events`isRunning, e`totalRunningTime, sequences`current
      ensures Registry()
      ensures pendingRemove == old(pendingRemove) + (if done then [e] else [])
      ensures log == old(log) + [Updated(e, done)]
      ensures e.totalRunningTime == old(e.totalRunningTime) + deltaTime
      ensures forall x :: x in events && x != e ==> x.totalRunningTime == old(x.totalRunningTime)
      ensures UpdateVerdict(e.updated, old(e.totalRunningTime), deltaTime, done)
      ensures UpdatedHookDone(e, singular, done)
      ensures forall x :: x in events && old(x.isRunning) ==> x.isRunning
      ensures forall x :: x in events && old(StartedEffect(x)) ==> StartedEffect(x)
    {
      done := e.UpdateEvent(deltaTime, singular, this);
      if done {
        pendingRemove := pendingRemove + [e];
      }
    }

    /** A turn of the second pass together with what the pass carries from
        turn to turn: the Events in `running` stay running, and those in
        `effected` keep what their Started hooks left behind. */
    method UpdateStep(e: Event, deltaTime: real, singular: Event -> bool,
                      ghost running: set<Event>, ghost effected: set<Event>) returns (done: bool)
      requires Registry() && e in events
      requires forall x :: x in running ==> x in events && x.isRunning
      requires forall x :: x in effected ==> x in events && StartedEffect(x)
      modifies this`pendingRemove, this`log
      modifies events`isRunning, e`totalRunningTime, sequences`current
      ensures Registry()
      ensures pendingRemove == old(pendingRemove) + (if done then [e] else [])
      ensures log == old(log) + [Updated(e, done)]
      ensures e.totalRunningTime == old(e.totalRunningTime) + deltaTime
      ensures forall x :: x in events && x != e ==> x.totalRunningTime == old(x.totalRunningTime)
      ensures UpdateVerdict(e.updated, old(e.totalRunningTime), deltaTime, done)
      ensures forall x :: x in running ==> x.isRunning
      ensures forall x :: x in effected ==> StartedEffect(x)
    {
      done := UpdateEntry(e, deltaTime, singular);
    }

    /** The third pass of a tick: end each queued Event in queue order and
        take its first occurrence off the current list, then clear the
        queue. */
    method RemoveFinished()
      requires WellFormed() && Distinct()
      modifies this`currentEvents, this`pendingRemove, this`log
      ensures Valid()
      ensures currentEvents == RemoveAll(old(currentEvents), old(pendingRemove))
      ensures log == old(log) + EndsOf(old(pendingRemove))
    {
      var i := 0;
      while i < |pendingRemove|
        invariant 0 <= i <= |pendingRemove|
        invariant pendingRemove == old(pendingRemove)
        invariant currentEvents == RemoveAll(old(currentEvents), pendingRemove[..i])
        invariant log == old(log) + EndsOf(pendingRemove[..i])
        invariant forall x :: x in currentEvents ==> x in old(currentEvents)
        invariant NoDuplicates(currentEvents)
      {
        var e := pendingRemove[i];
        var _ := e.EndEvent(this);
        RemoveAllSnoc(old(currentEvents), pendingRemove[..i], e);
        RemoveFirstNoDuplicates(currentEvents, e);
        EndsOfSnoc(old(log), pendingRemove[..i], e);
        assert pendingRemove[..i + 1] == pendingRemove[..i] + [e];
        currentEvents := RemoveFirst(currentEvents, e);
        i := i + 1;
      }
      assert pendingRemove[..i] == pendingRemove;
      pendingRemove := [];
    }
  }
}
