/** The combinators: builders that hang a Sequence or a Compound of child
    Events on an Event's hooks, and the Loop stub. Each builder returns the
    node it appends after the Event it was given. */
module Library {
  import opened Chancy

  /** Sequence: creates the child head (which the Controller enqueues),
      fills both hook slots of `ev` with a Sequence closure over that head,
      and extends `ev`. The child chain itself is built by the caller with
      Extend on the head. */
  method Sequence(ev: Event, ctl: Controller) returns (r: Event)
    requires ctl.Valid() && ev in ctl.events
    modifies ctl, ev`started, ev`updated, ev`next
    ensures ctl.Valid()
    ensures ev.started.SequenceStart? && ev.updated == SequenceUpdate(ev.started.sequence)
    ensures fresh(ev.started.sequence)
    ensures var head := ev.started.sequence.current;
      && fresh(head) && head.next == null && head.previous == null && !head.isRunning
      && head.started == NoStart && head.updated.NoUpdate? && head.ended == NoEnd
      && ctl.pendingAdd == old(ctl.pendingAdd) + [head]
      && ctl.events == old(ctl.events) + {head, r}
    ensures ctl.sequences == old(ctl.sequences) + {ev.started.sequence}
    ensures ctl.compounds == old(ctl.compounds)
    ensures fresh(r) && ev.next == r && r.previous == ev && r.next == null
    ensures !r.isRunning && r.started == NoStart && r.updated.NoUpdate? && r.ended == NoEnd
    ensures ev.previous == old(ev.previous) && ev.ended == old(ev.ended)
    ensures ctl.currentEvents == old(ctl.currentEvents) && ctl.log == old(ctl.log)
  {
    assert ctl.Linked(ev);
    var head := Event.Create(ctl);
    var s := new SequenceClosure(head);
    ctl.RegisterSequence(s);
    label Registered:
    ev.started := SequenceStart(s);
    ev.updated := SequenceUpdate(s);
    ctl.HookKeepsWellFormed@Registered(ev);
    r := ev.Extend(ctl);
  }

  /** Compound: creates the child head (which the Controller enqueues),
      fills both hook slots of `ev` with a Compound closure over that head
      and an empty collected list, and extends `ev`. */
  method Compound(ev: Event, ctl: Controller) returns (r: Event)
    requires ctl.Valid() && ev in ctl.events
    modifies ctl, ev`started, ev`updated, ev`next
    ensures ctl.Valid()
    ensures ev.started.CompoundStart? && ev.updated == CompoundUpdate(ev.started.compound)
    ensures fresh(ev.started.compound)
    ensures var c := ev.started.compound;
      && fresh(c.head) && c.events == []
      && c.head.next == null && c.head.previous == null && !c.head.isRunning
      && c.head.started == NoStart && c.head.updated.NoUpdate? && c.head.ended == NoEnd
      && ctl.pendingAdd == old(ctl.pendingAdd) + [c.head]
      && ctl.events == old(ctl.events) + {c.head, r}
    ensures ctl.compounds == old(ctl.compounds) + {ev.started.compound}
    ensures ctl.sequences == old(ctl.sequences)
    ensures fresh(r) && ev.next == r && r.previous == ev && r.next == null
    ensures !r.isRunning && r.started == NoStart && r.updated.NoUpdate? && r.ended == NoEnd
    ensures ev.previous == old(ev.previous) && ev.ended == old(ev.ended)
    ensures ctl.currentEvents == old(ctl.currentEvents) && ctl.log == old(ctl.log)
  {
    assert ctl.Linked(ev);
    var head := Event.Create(ctl);
    var c := new CompoundClosure(head);
    ctl.RegisterCompound(c);
    label Registered:
    ev.started := CompoundStart(c);
    ev.updated := CompoundUpdate(c);
    ctl.HookKeepsWellFormed@Registered(ev);
    r := ev.Extend(ctl);
  }

  /** Loop: a stub that ignores `times`, registers no hook and only extends
      `ev`. */
  method Loop(ev: Event, times: int, ghost ctl: Controller) returns (r: Event)
    requires ctl.WellFormed() && ev in ctl.events
    modifies ev`next, ctl`events, ctl`clock
    ensures ctl.WellFormed() && ctl.events == old(ctl.events) + {r}
    ensures fresh(r) && ev.next == r && r.previous == ev && r.next == null
    ensures !r.isRunning && r.started == NoStart && r.updated.NoUpdate? && r.ended == NoEnd
    ensures ev.started == old(ev.started) && ev.updated == old(ev.updated) && ev.ended == old(ev.ended)
  {
    r := ev.Extend(ctl);
  }
}
