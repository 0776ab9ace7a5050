/** The lives of descriptors: the tasks that connections and listening sockets give to the loop, in any
    interleaving, keep poll and select in agreement. */
module Lives {
  import opened PollTable
  import opened SelectTable
  import opened SelectScan

  const READ_ONLY: Interest := Interest(true, false)
  const WRITE_ONLY: Interest := Interest(false, true)

  /** `Abandoned`: deleted with bytes still buffered, so that the channel stays mapped for good. */
  datatype Phase = Absent | Writing | Reading | Abandoned

  predicate Fits(phase: Phase, step: Step) {
    match phase
    case Absent => step.Add? && (step.events == WRITE_ONLY || step.events == READ_ONLY)
    case Writing => (step.Modify? && step.events == READ_ONLY) || (step.Delete? && step.events == WRITE_ONLY)
    case Reading => (step.Modify? || step.Delete?) && step.events == READ_ONLY
    case Abandoned => false
  }

  function NextPhase(step: Step): Phase {
    match step
    case Add(_, events) => if events == WRITE_ONLY then Writing else Reading
    case Modify(_, _) => Reading
    case Delete(_, _, freed) => if freed then Absent else Abandoned
  }

  /** The steps of one descriptor, life after life, the last one perhaps not over. */
  predicate IsLife(phase: Phase, steps: seq<Step>)
    decreases |steps|
  {
    steps == [] || (Fits(phase, steps[0]) && IsLife(NextPhase(steps[0]), steps[1..]))
  }

  function PhaseAfter(phase: Phase, steps: seq<Step>): Phase {
    if steps == [] then phase else NextPhase(steps[|steps| - 1])
  }

  /** A life that has come to some phase goes on with what is a life from there. */
  lemma {:induction false} LifeGoesOn(phase: Phase, steps: seq<Step>, more: seq<Step>)
    requires IsLife(phase, steps) && IsLife(PhaseAfter(phase, steps), more)
    ensures IsLife(phase, steps + more)
    decreases |steps|
  {
    if steps == [] {
      assert steps + more == more;
    } else {
      assert (steps + more)[1..] == steps[1..] + more;
      assert steps[1..] != [] ==> steps[1..][|steps| - 2] == steps[|steps| - 1];
      LifeGoesOn(NextPhase(steps[0]), steps[1..], more);
    }
  }

  /** What an interleaving says of one descriptor. */
  function Project(steps: seq<Step>, fd: int): seq<Step> {
    if steps == [] then []
    else (if steps[0].fd == fd then [steps[0]] else []) + Project(steps[1..], fd)
  }

  lemma {:induction false} ProjectAll(steps: seq<Step>, fd: int)
    requires forall step <- steps :: step.fd == fd
    ensures Project(steps, fd) == steps
  {
    if steps != [] {
      assert steps[0] in steps;
      ProjectAll(steps[1..], fd);
      assert [steps[0]] + steps[1..] == steps;
    }
  }

  /** Where in its life a descriptor is, as the table and the channel map show it. */
  function PhaseIn(t: Table, fd: int): Phase {
    if InTable(t, fd) then if InterestOf(t, fd) == WRITE_ONLY then Writing else Reading
    else if fd in t.channels then Abandoned
    else Absent
  }

  ghost predicate Regular(t: Table) {
    && Inv(t) && SmallFds(t)
    && forall fd :: 0 <= fd < MAX_FDS && InTable(t, fd) ==>
                    InterestOf(t, fd) == WRITE_ONLY || InterestOf(t, fd) == READ_ONLY
  }

  /** A step that fits its descriptor's phase is disciplined and moves that phase on, and no other. */
  lemma FittingStep(t: Table, step: Step)
    requires Regular(t) && 0 <= step.fd < MAX_FDS && Fits(PhaseIn(t, step.fd), step)
    ensures Disciplined(t, step)
    ensures var t' := Apply(t, TaskOf(step));
            PhaseIn(t', step.fd) == NextPhase(step) && (InTable(t', step.fd) ==> InterestOf(t', step.fd) == step.events)
  {
    var task := TaskOf(step);
    var t' := Apply(t, task);
    ApplyKeepsInv(t, task);
    OwnInterest(t, task);
    assert InTable(t, step.fd) ==> step.fd in t.channels;
    match step
    case Add(fd, events) => assert InterestOf(t', fd) == events;
    case Modify(fd, events) => assert InterestOf(t', fd) == events;
    case Delete(fd, _, _) => RemoveSlotKeepsInv(t, fd);
  }

  lemma OtherPhase(t: Table, step: Step, other: int)
    requires Inv(t) && 0 <= step.fd && 0 <= other && other != step.fd
    ensures PhaseIn(Apply(t, TaskOf(step)), other) == PhaseIn(t, other)
    ensures InterestOf(Apply(t, TaskOf(step)), other) == InterestOf(t, other)
    ensures InTable(Apply(t, TaskOf(step)), other) <==> InTable(t, other)
  {
    OthersUntouched(t, TaskOf(step), other);
  }

  ghost predicate AllLives(t: Table, steps: seq<Step>) {
    && (forall step <- steps :: 0 <= step.fd < MAX_FDS)
    && forall fd :: 0 <= fd < MAX_FDS ==> IsLife(PhaseIn(t, fd), Project(steps, fd))
  }

  lemma StepOfLives(t: Table, steps: seq<Step>)
    requires Regular(t) && AllLives(t, steps) && steps != []
    ensures 0 <= steps[0].fd < MAX_FDS && Disciplined(t, steps[0])
    ensures var t' := Apply(t, TaskOf(steps[0])); Regular(t') && AllLives(t', steps[1..])
  {
    var step := steps[0];
    var t' := Apply(t, TaskOf(step));
    assert step in steps;
    assert Project(steps, step.fd) == [step] + Project(steps[1..], step.fd);
    assert IsLife(PhaseIn(t, step.fd), Project(steps, step.fd));
    FittingStep(t, step);
    ApplyKeepsInv(t, TaskOf(step));
    forall fd | 0 <= fd < MAX_FDS
      ensures IsLife(PhaseIn(t', fd), Project(steps[1..], fd))
      ensures InTable(t', fd) ==> InterestOf(t', fd) == WRITE_ONLY || InterestOf(t', fd) == READ_ONLY
    {
      if fd != step.fd {
        OtherPhase(t, step, fd);
        assert Project(steps, fd) == Project(steps[1..], fd);
      } else {
        assert ([step] + Project(steps[1..], fd))[1..] == Project(steps[1..], fd);
      }
    }
  }

  ghost predicate SmallSets(s: Sets) {
    forall fd :: fd in s.readSet || fd in s.writeSet ==> 0 <= fd < MAX_FDS
  }

  lemma {:induction false} LivesAreDisciplined(t: Table, s: Sets, steps: seq<Step>)
    requires Regular(t) && SmallSets(s) && AllLives(t, steps)
    ensures DisciplinedRun(t, steps)
    ensures var (t', s') := RunBoth(t, s, steps); Regular(t') && SmallSets(s')
    decreases |steps|
  {
    if steps != [] {
      StepOfLives(t, steps);
      LivesAreDisciplined(Apply(t, TaskOf(steps[0])), ApplySelect(s, t.channels, steps[0]), steps[1..]);
    }
  }

  /** Any interleaving of lives, one descriptor's lives one after the other, leaves poll and select with the
      same interest map, in which every descriptor waits for one event. */
  lemma InterleavedLivesAgree(steps: seq<Step>)
    requires forall step <- steps :: 0 <= step.fd < MAX_FDS
    requires forall fd :: 0 <= fd < MAX_FDS ==> IsLife(Absent, Project(steps, fd))
    ensures DisciplinedRun(EMPTY_TABLE, steps)
    ensures var (t, s) := RunBoth(EMPTY_TABLE, Sets({}, {}), steps);
            Regular(t) && Agree(t, s) && SmallSets(s)
  {
    LivesAreDisciplined(EMPTY_TABLE, Sets({}, {}), steps);
    DisciplinedRunsAgree(steps);
  }

  /** From such a state, what select returns meets only mapped channels, one event each. */
  lemma ReturnedOnce(t: Table, s: Sets, returned: Sets)
    requires Regular(t) && Agree(t, s) && SmallSets(s)
    requires returned.readSet <= s.readSet && returned.writeSet <= s.writeSet
    ensures returned.readSet !! returned.writeSet && returned.readSet + returned.writeSet <= t.channels
  {
    forall fd | fd in s.readSet || fd in s.writeSet
      ensures fd in t.channels && !(fd in s.readSet && fd in s.writeSet)
    {
      assert s.InterestIn(fd) == InterestOf(t, fd);
      assert InTable(t, fd);
    }
  }

  /** After any interleaving of lives the select scan, whatever select returns, is safe for callbacks that
      free nothing but their own channel. */
  lemma ServerScanIsSafe(steps: seq<Step>, returned: Sets, script: seq<seq<Task>>)
    requires forall step <- steps :: 0 <= step.fd < MAX_FDS
    requires forall fd :: 0 <= fd < MAX_FDS ==> IsLife(Absent, Project(steps, fd))
    requires var s := RunBoth(EMPTY_TABLE, Sets({}, {}), steps).1;
             returned.readSet <= s.readSet && returned.writeSet <= s.writeSet
    requires |script| == |Events(returned, 0)|
    requires forall k :: 0 <= k < |script| ==> FreesOwnOnly(Events(returned, 0)[k], script[k])
    ensures Safe(RunBoth(EMPTY_TABLE, Sets({}, {}), steps).0.channels, Events(returned, 0), script)
  {
    var (t, s) := RunBoth(EMPTY_TABLE, Sets({}, {}), steps);
    InterleavedLivesAgree(steps);
    ReturnedOnce(t, s, returned);
    OneBitScanIsSafe(t.channels, returned, script);
  }
}
