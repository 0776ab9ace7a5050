/** The select dispatcher keeps the same map from descriptors to interest in two sets, under a
    discipline on its callers that is made exact here. */
module SelectTable {
  import opened PollTable

  const MAX_FDS: nat := 1024

  datatype Sets = Sets(readSet: set<int>, writeSet: set<int>)
  {
    function InterestIn(fd: int): Interest {
      Interest(fd in readSet, fd in writeSet)
    }
  }

  class SelectDispatcher {
    var readSet: set<int>
    var writeSet: set<int>

    constructor ()
      ensures View() == Sets({}, {})
    {
      readSet, writeSet := {}, {};
    }

    function View(): Sets
      reads this
    {
      Sets(readSet, writeSet)
    }

    method SetFdSet(fd: int, events: Interest)
      modifies this
      ensures View() == SetBits(old(View()), fd, events)
    {
      if events.read {
        readSet := readSet + {fd};
      }
      if events.write {
        writeSet := writeSet + {fd};
      }
    }

    method ClearFdSet(fd: int, events: Interest)
      modifies this
      ensures View() == ClearBits(old(View()), fd, events)
    {
      if events.read {
        readSet := readSet - {fd};
      }
      if events.write {
        writeSet := writeSet - {fd};
      }
    }

    method Add(fd: int, events: Interest) returns (result: int)
      modifies this
      ensures View() == if fd >= MAX_FDS then old(View()) else SetBits(old(View()), fd, events)
      ensures result == if fd >= MAX_FDS then -1 else 0
    {
      if fd >= MAX_FDS {
        return -1;
      }
      SetFdSet(fd, events);
      result := 0;
    }

    method Remove(fd: int, events: Interest) returns (result: int)
      modifies this
      ensures View() == ClearBits(old(View()), fd, events) && result == 0
    {
      ClearFdSet(fd, events);
      result := 0;
    }

    method Modify(fd: int, events: Interest) returns (result: int)
      modifies this
      ensures View() == SwitchBits(old(View()), fd, events) && result == 0
    {
      if events.read {
        readSet := readSet + {fd};
        writeSet := writeSet - {fd};
      }
      if events.write {
        writeSet := writeSet + {fd};
        readSet := readSet - {fd};
      }
      result := 0;
    }
  }

  function SetBits(s: Sets, fd: int, events: Interest): Sets {
    Sets(if events.read then s.readSet + {fd} else s.readSet,
         if events.write then s.writeSet + {fd} else s.writeSet)
  }

  function ClearBits(s: Sets, fd: int, events: Interest): Sets {
    Sets(if events.read then s.readSet - {fd} else s.readSet,
         if events.write then s.writeSet - {fd} else s.writeSet)
  }

  /** The write bit is looked at last, and each bit that is set clears the other. */
  function SwitchBits(s: Sets, fd: int, events: Interest): Sets {
    var s1 := if events.read then Sets(s.readSet + {fd}, s.writeSet - {fd}) else s;
    if events.write then Sets(s1.readSet - {fd}, s1.writeSet + {fd}) else s1
  }

  // ----- the two representations side by side -----

  /** A task for a channel whose interest bits, when the task runs, are `events`. */
  datatype Step =
    | Add(fd: int, events: Interest)
    | Delete(fd: int, events: Interest, freed: bool)
    | Modify(fd: int, events: Interest)

  function TaskOf(step: Step): Task {
    match step
    case Add(fd, events) => AddTask(fd, events)
    case Delete(fd, _, freed) => DeleteTask(fd, freed)
    case Modify(fd, events) => ModifyTask(fd, events)
  }

  /** The loop over a select dispatcher: the same guards by the channel map. */
  function ApplySelect(s: Sets, channels: set<int>, step: Step): Sets {
    match step
    case Add(fd, events) =>
      if fd in channels || fd >= MAX_FDS then s else SetBits(s, fd, events)
    case Delete(fd, events, _) => if fd in channels then ClearBits(s, fd, events) else s
    case Modify(fd, events) => if fd in channels then SwitchBits(s, fd, events) else s
  }

  function InterestOf(t: Table, fd: int): Interest {
    var i := FirstWith(t.slots, fd);
    if i < |t.slots| then t.slots[i].events else NOTHING
  }

  predicate InTable(t: Table, fd: int) {
    FirstWith(t.slots, fd) < |t.slots|
  }

  ghost predicate SmallFds(t: Table) {
    forall i :: 0 <= i < |t.slots| ==> t.slots[i].fd < MAX_FDS
  }

  ghost predicate Agree(t: Table, s: Sets) {
    forall fd :: 0 <= fd < MAX_FDS ==> s.InterestIn(fd) == InterestOf(t, fd)
  }

  predicate OneBit(e: Interest) {
    e.read != e.write
  }

  /** When a step keeps the two in agreement. A delete must clear what is registered; a modify must
      name exactly one bit of a channel in the table, or have nothing to say and nothing to change. */
  predicate Agreeable(t: Table, step: Step) {
    match step
    case Add(_, _) => true
    case Delete(fd, events, _) =>
      fd in t.channels ==>
        var e := InterestOf(t, fd);
        (e.read ==> events.read) && (e.write ==> events.write)
    case Modify(fd, events) =>
      fd in t.channels ==>
        if events == NOTHING then InterestOf(t, fd) == NOTHING
        else InTable(t, fd) && OneBit(events)
  }

  lemma FirstUnique(t: Table, fd: int, i: nat)
    requires Inv(t) && fd != -1 && i < MAX_NODE && t.slots[i].fd == fd
    ensures FirstWith(t.slots, fd) == i
  {
  }

  lemma SameFirst(t: Table, t': Table, fd: int)
    requires |t.slots| == |t'.slots|
    requires forall i :: 0 <= i < |t.slots| ==> (t.slots[i].fd == fd <==> t'.slots[i].fd == fd)
    requires forall i :: 0 <= i < |t.slots| && t.slots[i].fd == fd ==> t.slots[i].events == t'.slots[i].events
    ensures InterestOf(t, fd) == InterestOf(t', fd) && (InTable(t, fd) <==> InTable(t', fd))
  {
    var i, i' := FirstWith(t.slots, fd), FirstWith(t'.slots, fd);
    assert i < |t.slots| ==> t'.slots[i].fd == fd;
    assert i' < |t.slots| ==> t.slots[i'].fd == fd;
  }

  /** A task about one descriptor leaves the interest of all others alone. */
  lemma OthersUntouched(t: Table, task: Task, other: int)
    requires Inv(t) && 0 <= task.fd && 0 <= other && other != task.fd
    ensures InterestOf(Apply(t, task), other) == InterestOf(t, other)
    ensures InTable(Apply(t, task), other) <==> InTable(t, other)
    ensures other in Apply(t, task).channels <==> other in t.channels
  {
    SameFirst(t, Apply(t, task), other);
  }

  lemma OwnInterest(t: Table, task: Task)
    requires Inv(t) && SmallFds(t) && 0 <= task.fd < MAX_FDS
    ensures InterestOf(Apply(t, task), task.fd)
            == match task
               case AddTask(fd, events) => if fd in t.channels then InterestOf(t, fd) else events
               case DeleteTask(fd, _) => NOTHING
               case ModifyTask(fd, events) => if InTable(t, fd) then events else NOTHING
  {
    var t' := Apply(t, task);
    ApplyKeepsInv(t, task);
    match task
    case AddTask(fd, events) =>
      if fd !in t.channels {
        FreeSlotExists(t, fd);
        FirstUnique(t', fd, FirstWith(t.slots, -1));
      }
    case DeleteTask(fd, _) =>
      RemoveSlotKeepsInv(t, fd);
      var i := FirstWith(t'.slots, fd);
    case ModifyTask(fd, events) =>
      var i := FirstWith(t.slots, fd);
      if i < MAX_NODE {
        FirstUnique(t', fd, i);
      }
  }

  lemma OwnAgrees(t: Table, s: Sets, step: Step)
    requires Inv(t) && SmallFds(t) && Agree(t, s) && 0 <= step.fd < MAX_FDS
    ensures ApplySelect(s, t.channels, step).InterestIn(step.fd) == InterestOf(Apply(t, TaskOf(step)), step.fd)
            <==> Agreeable(t, step)
  {
    OwnInterest(t, TaskOf(step));
    assert s.InterestIn(step.fd) == InterestOf(t, step.fd);
    assert InTable(t, step.fd) ==> step.fd in t.channels;
  }

  lemma OthersAgree(t: Table, s: Sets, step: Step, fd: int)
    requires Inv(t) && Agree(t, s) && 0 <= step.fd && 0 <= fd < MAX_FDS && fd != step.fd
    ensures ApplySelect(s, t.channels, step).InterestIn(fd) == InterestOf(Apply(t, TaskOf(step)), fd)
  {
    OthersUntouched(t, TaskOf(step), fd);
    assert s.InterestIn(fd) == InterestOf(t, fd);
  }

  /** From agreement, a step keeps it exactly under the condition above. */
  lemma AgreeIff(t: Table, s: Sets, step: Step)
    requires Inv(t) && SmallFds(t) && Agree(t, s) && 0 <= step.fd < MAX_FDS
    ensures Agree(Apply(t, TaskOf(step)), ApplySelect(s, t.channels, step)) <==> Agreeable(t, step)
  {
    var t', s' := Apply(t, TaskOf(step)), ApplySelect(s, t.channels, step);
    forall fd | 0 <= fd < MAX_FDS && fd != step.fd
      ensures s'.InterestIn(fd) == InterestOf(t', fd)
    {
      OthersAgree(t, s, step, fd);
    }
    OwnAgrees(t, s, step);
  }

  /** A whole run of tasks on both. */
  function RunBoth(t: Table, s: Sets, steps: seq<Step>): (Table, Sets)
    requires |t.slots| == |t.stamps|
    decreases |steps|
  {
    if steps == [] then (t, s)
    else RunBoth(Apply(t, TaskOf(steps[0])), ApplySelect(s, t.channels, steps[0]), steps[1..])
  }

  ghost predicate AgreeableRun(t: Table, steps: seq<Step>)
    requires |t.slots| == |t.stamps|
    decreases |steps|
  {
    steps == [] ||
    (0 <= steps[0].fd < MAX_FDS && Agreeable(t, steps[0])
     && AgreeableRun(Apply(t, TaskOf(steps[0])), steps[1..]))
  }

  /** Poll and select hold the same interest map after any run of such tasks. */
  lemma {:induction false} RunsAgree(t: Table, s: Sets, steps: seq<Step>)
    requires Inv(t) && SmallFds(t) && Agree(t, s) && AgreeableRun(t, steps)
    ensures var (t', s') := RunBoth(t, s, steps); Inv(t') && SmallFds(t') && Agree(t', s')
    decreases |steps|
  {
    if steps != [] {
      AgreeIff(t, s, steps[0]);
      ApplyKeepsInv(t, TaskOf(steps[0]));
      RunsAgree(Apply(t, TaskOf(steps[0])), ApplySelect(s, t.channels, steps[0]), steps[1..]);
    }
  }

  /** How the connections of the server use the table: one bit at a time, a modify after every change
      of a bit, and no task for a channel whose slot has been removed. */
  predicate Disciplined(t: Table, step: Step) {
    match step
    case Add(_, events) => OneBit(events)
    case Delete(fd, events, _) => InTable(t, fd) ==> events == InterestOf(t, fd)
    case Modify(fd, events) => OneBit(events) && (fd in t.channels ==> InTable(t, fd))
  }

  ghost predicate DisciplinedRun(t: Table, steps: seq<Step>)
    requires |t.slots| == |t.stamps|
    decreases |steps|
  {
    steps == [] ||
    (0 <= steps[0].fd < MAX_FDS && Disciplined(t, steps[0])
     && DisciplinedRun(Apply(t, TaskOf(steps[0])), steps[1..]))
  }

  const EMPTY_TABLE: Table := Table(seq(MAX_NODE, _ => FREE_SLOT), 0, {}, seq(MAX_NODE, _ => 0), 1)

  /** Under that discipline the two dispatchers are interchangeable from their start on. */
  lemma DisciplinedRunsAgree(steps: seq<Step>)
    requires DisciplinedRun(EMPTY_TABLE, steps)
    ensures var (t, s) := RunBoth(EMPTY_TABLE, Sets({}, {}), steps);
            Inv(t) && Agree(t, s)
  {
    DisciplineSuffices(EMPTY_TABLE, steps);
    RunsAgree(EMPTY_TABLE, Sets({}, {}), steps);
  }

  lemma {:induction false} DisciplineSuffices(t: Table, steps: seq<Step>)
    requires |t.slots| == |t.stamps| && DisciplinedRun(t, steps)
    ensures AgreeableRun(t, steps)
    decreases |steps|
  {
    if steps != [] {
      DisciplineSuffices(Apply(t, TaskOf(steps[0])), steps[1..]);
    }
  }
}
