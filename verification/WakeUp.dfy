/** The task queue shared between threads: producers push under the lock and write to the pipe as a
    separate step; the loop polls, reads the pipe, runs callbacks and drains the queue. */
module WakeUp {

  datatype Thread = Thread(id: nat)
  type Task = int

  /** Bytes of one wake-up message, and of the buffer the loop reads them into. */
  const WAKE_BYTES: nat := 10
  const READ_BYTES: nat := 256

  /** `Polling` is inside `poll`; `Draining` is the drain that ends a turn of the loop. */
  datatype Phase = Polling | Dispatching | Draining

  /** `owing` are the threads that have pushed but not yet written; `depth` counts the drains the loop
      thread is inside; `readable` says that poll reported the pipe and it has not been read. */
  datatype State = State(
    queue: seq<Task>, pushed: seq<Task>, started: seq<Task>,
    owing: set<Thread>, pipe: nat, phase: Phase, depth: nat, readable: bool)

  const START: State := State([], [], [], {}, 0, Polling, 0, false)

  datatype Step =
    | Push(thread: Thread, task: Task)
    | Wake(thread: Thread)
    | PollReturns
    | ReadPipe
    | LoopPush(task: Task)
    | RunTask
    | InnerDrainEnds
    | DispatchEnds
    | TurnEnds

  predicate Enabled(s: State, step: Step) {
    match step
    case Push(thread, _) => thread !in s.owing
    case Wake(thread) => thread in s.owing
    case PollReturns => s.phase == Polling
    case ReadPipe => s.phase == Dispatching && s.readable
    case LoopPush(_) => s.phase != Polling
    case RunTask => s.depth > 0 && s.queue != []
    case InnerDrainEnds => s.queue == [] && s.depth > (if s.phase == Draining then 1 else 0)
    case DispatchEnds => s.phase == Dispatching && s.depth == 0 && !s.readable
    case TurnEnds => s.phase == Draining && s.depth == 1 && s.queue == []
  }

  function Min(a: nat, b: nat): nat {
    if a < b then a else b
  }

  function After(s: State, step: Step): State
    requires Enabled(s, step)
  {
    match step
    case Push(thread, task) =>
      s.(queue := s.queue + [task], pushed := s.pushed + [task], owing := s.owing + {thread})
    case Wake(thread) => s.(owing := s.owing - {thread}, pipe := s.pipe + WAKE_BYTES)
    // On a time-out or another descriptor's event as well; the pipe is reported if it has bytes.
    case PollReturns => s.(phase := Dispatching, readable := s.pipe > 0)
    case ReadPipe => s.(pipe := s.pipe - Min(s.pipe, READ_BYTES), readable := false)
    // `add_task` from the loop's own thread drains at once, inside whatever is running.
    case LoopPush(task) =>
      s.(queue := s.queue + [task], pushed := s.pushed + [task], depth := s.depth + 1)
    case RunTask => s.(queue := s.queue[1..], started := s.started + [s.queue[0]])
    case InnerDrainEnds => s.(depth := s.depth - 1)
    case DispatchEnds => s.(phase := Draining, depth := 1)
    case TurnEnds => s.(phase := Polling, depth := 0)
  }

  /** Tasks are started in the order they were pushed, each once; and a loop inside `poll` with work
      in its queue has, or is about to get, a byte to wake it. */
  ghost predicate Inv(s: State) {
    && s.pushed == s.started + s.queue
    && (s.phase == Polling && s.queue != [] ==> s.pipe > 0 || s.owing != {})
    && (s.phase == Polling ==> s.depth == 0 && !s.readable)
    && (s.phase == Draining ==> s.depth >= 1 && !s.readable)
    && (s.readable ==> s.pipe > 0)
  }

  predicate Runs(s: State, steps: seq<Step>)
    decreases |steps|
  {
    steps == [] || (Enabled(s, steps[0]) && Runs(After(s, steps[0]), steps[1..]))
  }

  function Final(s: State, steps: seq<Step>): State
    requires Runs(s, steps)
    decreases |steps|
  {
    if steps == [] then s else Final(After(s, steps[0]), steps[1..])
  }

  lemma {:induction false} RunKeepsInv(s: State, steps: seq<Step>)
    requires Inv(s) && Runs(s, steps)
    ensures Inv(Final(s, steps))
    decreases |steps|
  {
    if steps != [] {
      RunKeepsInv(After(s, steps[0]), steps[1..]);
    }
  }

  /** No lost wake-up, and first in first out, over every interleaving: if the loop is in `poll` with an
      empty pipe and no thread has its write to do, then everything pushed has been started. */
  lemma NoLostWakeUp(steps: seq<Step>)
    requires Runs(START, steps)
    ensures var s := Final(START, steps);
            && s.started <= s.pushed && s.pushed == s.started + s.queue
            && (s.phase == Polling && s.pipe == 0 && s.owing == {} ==> s.started == s.pushed)
            && (s.readable ==> s.pipe > 0)
  {
    RunKeepsInv(START, steps);
  }

  /** The tasks pushed by a run's steps, in order. */
  function PushedBy(steps: seq<Step>): seq<Task>
    decreases |steps|
  {
    if steps == [] then []
    else
      (match steps[0]
       case Push(_, task) => [task]
       case LoopPush(task) => [task]
       case _ => []) + PushedBy(steps[1..])
  }

  lemma {:induction false} PushedIsHistory(s: State, steps: seq<Step>)
    requires Runs(s, steps)
    ensures Final(s, steps).pushed == s.pushed + PushedBy(steps)
    decreases |steps|
  {
    if steps != [] {
      PushedIsHistory(After(s, steps[0]), steps[1..]);
    }
  }

  /** The loop's own steps from a reported pipe through one drain and back to `poll`. */
  function Schedule(s: State): seq<Step>
    requires Inv(s) && s.phase == Polling && s.pipe > 0
  {
    [PollReturns, ReadPipe, DispatchEnds] + seq(|s.queue|, _ => RunTask) + [TurnEnds]
  }

  lemma {:induction false} DrainRuns(s: State, n: nat)
    requires s.phase == Draining && s.depth == 1 && n <= |s.queue|
    ensures var steps := seq(n, _ => RunTask);
            Runs(s, steps)
            && Final(s, steps) == s.(queue := s.queue[n..], started := s.started + s.queue[..n])
    decreases n
  {
    if n > 0 {
      var steps := seq(n, _ => RunTask);
      DrainRuns(After(s, RunTask), n - 1);
      assert steps[1..] == seq(n - 1, _ => RunTask);
      assert s.queue[1..][n - 1..] == s.queue[n..];
      assert [s.queue[0]] + s.queue[1..][..n - 1] == s.queue[..n];
    }
  }

  lemma {:induction false} RunsInParts(s: State, a: seq<Step>, b: seq<Step>)
    requires Runs(s, a) && Runs(Final(s, a), b)
    ensures Runs(s, a + b) && Final(s, a + b) == Final(Final(s, a), b)
    decreases |a|
  {
    if a == [] {
      assert a + b == b;
    } else {
      assert (a + b)[1..] == a[1..] + b;
      RunsInParts(After(s, a[0]), a[1..], b);
    }
  }

  /** A woken loop can always start all that is queued and go back to `poll` with an empty queue, by its
      own steps alone. */
  lemma WokenLoopDrains(s: State)
    requires Inv(s) && s.phase == Polling && s.pipe > 0
    ensures Runs(s, Schedule(s))
    ensures var s' := Final(s, Schedule(s));
            && s'.phase == Polling && s'.queue == [] && s'.started == s'.pushed == s.pushed
            && s'.pipe == if s.pipe <= READ_BYTES then 0 else s.pipe - READ_BYTES
  {
    var n := |s.queue|;
    var entry := [PollReturns, ReadPipe, DispatchEnds];
    var s1 := After(s, PollReturns);
    var s2 := After(s1, ReadPipe);
    var s3 := After(s2, DispatchEnds);
    assert entry[1..] == [ReadPipe, DispatchEnds] && entry[1..][1..] == [DispatchEnds];
    assert Runs(s2, [DispatchEnds]) && Final(s2, [DispatchEnds]) == s3;
    assert Runs(s1, [ReadPipe, DispatchEnds]) && Final(s1, [ReadPipe, DispatchEnds]) == s3;
    assert Runs(s, entry) && Final(s, entry) == s3;
    DrainRuns(s3, n);
    var drain := seq(n, _ => RunTask);
    RunsInParts(s, entry, drain);
    var s4 := Final(s3, drain);
    assert s4.queue == [] && s4.started == s.started + s.queue;
    assert Runs(s4, [TurnEnds]);
    RunsInParts(s, entry + drain, [TurnEnds]);
  }

  // ----- everything can always be finished -----

  predicate Idle(s: State) {
    s.phase == Polling && s.queue == [] && s.owing == {} && s.pipe == 0
  }

  /** How far a turn of the loop is from its next read of the pipe. */
  function Rank(s: State): nat {
    match s.phase
    case Polling => 1
    case Draining => 2
    case Dispatching => if s.readable then 0 else 3
  }

  predicate Closer(s: State, s': State) {
    || |s'.owing| < |s.owing|
    || (|s'.owing| == |s.owing|
        && (|| s'.pipe < s.pipe
            || (s'.pipe == s.pipe
                && (|| |s'.queue| < |s.queue|
                    || (|s'.queue| == |s.queue|
                        && (Rank(s') < Rank(s) || (Rank(s') == Rank(s) && s'.depth < s.depth)))))))
  }

  predicate Pushes(step: Step) {
    step.Push? || step.LoopPush?
  }

  lemma SomeThread(threads: set<Thread>) returns (thread: Thread)
    requires threads != {}
    ensures thread in threads
  {
    thread :| thread in threads;
  }

  /** The system never gets stuck: unless it is idle, some step other than a push is possible and brings it
      closer to that. */
  lemma Progress(s: State) returns (step: Step)
    requires Inv(s) && !Idle(s)
    ensures Enabled(s, step) && !Pushes(step) && Closer(s, After(s, step))
  {
    if s.owing != {} {
      var thread := SomeThread(s.owing);
      step := Wake(thread);
      assert |s.owing - {thread}| == |s.owing| - 1;
    } else if s.depth > 0 && s.queue != [] {
      step := RunTask;
    } else {
      match s.phase
      case Polling => step := PollReturns;
      case Dispatching =>
        step := if s.depth > 0 then InnerDrainEnds else if s.readable then ReadPipe else DispatchEnds;
      case Draining =>
        step := if s.depth > 1 then InnerDrainEnds else TurnEnds;
    }
  }

  /** From every state that the invariant allows, so from every reachable one, the system can come to rest
      with everything pushed started and the pipe empty, without another push. */
  lemma {:induction false} ComesToRest(s: State) returns (steps: seq<Step>)
    requires Inv(s)
    ensures Runs(s, steps) && forall step <- steps :: !Pushes(step)
    ensures var s' := Final(s, steps); Idle(s') && s'.started == s'.pushed == s.pushed
    decreases |s.owing|, s.pipe, |s.queue|, Rank(s), s.depth
  {
    if Idle(s) {
      steps := [];
    } else {
      var step := Progress(s);
      var later := ComesToRest(After(s, step));
      steps := [step] + later;
      assert steps[1..] == later;
    }
  }

  /** Whoever pushes, in whatever state: the task can be started, behind all that was pushed before. */
  lemma PushedCanStart(s: State, thread: Thread, task: Task) returns (steps: seq<Step>)
    requires Inv(s) && thread !in s.owing
    ensures Runs(s, [Push(thread, task)] + steps)
    ensures Final(s, [Push(thread, task)] + steps).started == s.pushed + [task]
  {
    var push := Push(thread, task);
    steps := ComesToRest(After(s, push));
    assert ([push] + steps)[1..] == steps;
  }
}
