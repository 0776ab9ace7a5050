/** The poll dispatcher and the event loop it calls back into, updated in place. */
module EventLoop {
  import opened PollTable

  /** What the kernel would return for a descriptor. */
  type Readiness = int -> Interest

  /** The table as `poll` leaves it: slots up to `maxfd` get what was asked for and is ready. */
  function Polled(t: Table, ready: Readiness): Table {
    t.(slots := seq(|t.slots|, i requires 0 <= i < |t.slots| =>
         if i <= t.maxfd then PolledSlot(t.slots[i], ready) else t.slots[i]))
  }

  function PolledSlot(s: Slot, ready: Readiness): Slot {
    if s.fd < 0 then s.(revents := NOTHING)
    else s.(revents := Interest(s.events.read && ready(s.fd).read, s.events.write && ready(s.fd).write))
  }

  lemma PolledInv(t: Table, ready: Readiness)
    requires Inv(t)
    ensures Inv(Polled(t, ready))
  {
  }

  /** Poll reports for a registered descriptor exactly what it waits for and is ready. */
  lemma PolledExact(t: Table, ready: Readiness, i: nat, write: bool)
    requires Inv(t) && i < MAX_NODE
    ensures var s := t.slots[i];
            Reported(Polled(t, ready).slots[i], write)
            <==> s.fd != -1 && if write then s.events.write && ready(s.fd).write else s.events.read && ready(s.fd).read
  {
    assert t.slots[i].fd != -1 ==> i <= t.maxfd;
  }

  class PollDispatcher {
    const fds: array<Slot>
    var maxfd: nat
    ghost var stamps: seq<nat>
    ghost var clock: nat

    constructor ()
      ensures fresh(fds) && fds.Length == |stamps| == MAX_NODE && clock == 1 && maxfd == 0
      ensures forall i :: 0 <= i < MAX_NODE ==> fds[i] == FREE_SLOT && stamps[i] == 0
    {
      fds := new Slot[MAX_NODE](_ => FREE_SLOT);
      maxfd := 0;
      stamps := seq(MAX_NODE, _ => 0);
      clock := 1;
    }

    ghost function View(channels: set<int>): Table
      reads this, fds
    {
      Table(fds[..], maxfd, channels, stamps, clock)
    }

    method Find(fd: int) returns (i: nat)
      ensures i == FirstWith(fds[..], fd) && i <= fds.Length
    {
      i := 0;
      while i < fds.Length && fds[i].fd != fd
        invariant i <= fds.Length
        invariant FirstWith(fds[..], fd) == i + FirstWith(fds[..][i..], fd)
      {
        assert fds[..][i..][0] == fds[i] && fds[..][i..][1..] == fds[..][i + 1..];
        i := i + 1;
      }
      if i < fds.Length {
        assert fds[..][i..][0] == fds[i];
      }
    }

    method Add(fd: int, events: Interest, ghost channels: set<int>) returns (result: int)
      requires fds.Length == |stamps|
      modifies this`maxfd, this`stamps, this`clock, fds
      ensures View(channels) == AddSlot(old(View(channels)), fd, events)
      ensures result == if FirstWith(old(fds[..]), -1) < fds.Length then 0 else -1
    {
      var i := Find(-1);
      if i < fds.Length {
        fds[i] := fds[i].(fd := fd, events := events);
        maxfd := if i > maxfd then i else maxfd;
        stamps := stamps[i := clock];
        clock := clock + 1;
      }
      result := if i >= fds.Length then -1 else 0;
    }

    method Remove(fd: int, ghost channels: set<int>) returns (result: int)
      modifies fds
      ensures View(channels) == RemoveSlot(old(View(channels)), fd)
      ensures result == if FirstWith(old(fds[..]), fd) < fds.Length then 0 else -1
    {
      var i := Find(fd);
      if i < fds.Length {
        fds[i] := Slot(-1, NOTHING, NOTHING);
      }
      result := if i >= fds.Length then -1 else 0;
    }

    method Modify(fd: int, events: Interest, ghost channels: set<int>) returns (result: int)
      modifies fds
      ensures View(channels) == ModifySlot(old(View(channels)), fd, events)
      ensures result == if FirstWith(old(fds[..]), fd) < fds.Length then 0 else -1
    {
      var i := Find(fd);
      if i < fds.Length {
        fds[i] := fds[i].(events := events);
      }
      result := if i >= fds.Length then -1 else 0;
    }

    /** The system call, on the first `maxfd + 1` slots. */
    method Poll(ready: Readiness, ghost channels: set<int>)
      requires maxfd < fds.Length
      modifies fds
      ensures View(channels) == Polled(old(View(channels)), ready)
    {
      for i := 0 to maxfd + 1
        modifies fds
        invariant forall j :: 0 <= j < i ==> fds[j] == PolledSlot(old(fds[j]), ready)
        invariant forall j :: i <= j < fds.Length ==> fds[j] == old(fds[j])
      {
        fds[i] := PolledSlot(fds[i], ready);
      }
    }
  }

  /** One call back: the slot it came from, the descriptor and which of the two events. */
  datatype Activation = Activation(slot: nat, fd: int, write: bool)

  predicate Before(a: Activation, b: Activation) {
    a.slot < b.slot || (a.slot == b.slot && !a.write && b.write)
  }

  predicate Reported(s: Slot, write: bool) {
    s.fd != -1 && if write then s.revents.write else s.revents.read
  }

  /** Every reported event of a slot below `n` whose registration is still there has been activated. */
  ghost predicate Complete(polled: Table, now: Table, n: nat, log: seq<Activation>)
    requires Later(polled, now) && n <= MAX_NODE
  {
    forall j, w :: 0 <= j < n && Reported(polled.slots[j], w) && Kept(polled, now, j)
      ==> Activation(j, polled.slots[j].fd, w) in log
  }

  /** Every activation was reported by this poll for that slot and descriptor, and none comes twice. */
  ghost predicate Sound(polled: Table, log: seq<Activation>)
    requires |polled.slots| == MAX_NODE
  {
    && (forall k :: 0 <= k < |log| ==>
                    log[k].slot < MAX_NODE && polled.slots[log[k].slot].fd == log[k].fd
                    && Reported(polled.slots[log[k].slot], log[k].write))
    && (forall k, m :: 0 <= k < m < |log| ==> Before(log[k], log[m]))
  }

  lemma KeptBack(polled: Table, t: Table, t': Table, j: nat)
    requires Later(polled, t) && Later(t, t') && Later(polled, t')
    requires j < MAX_NODE && Kept(polled, t', j)
    ensures Kept(polled, t, j)
  {
  }

  lemma CompleteLater(polled: Table, t: Table, t': Table, n: nat, log: seq<Activation>, log': seq<Activation>)
    requires Later(polled, t) && Later(t, t') && Later(polled, t') && n <= MAX_NODE
    requires Complete(polled, t, n, log) && log <= log'
    ensures Complete(polled, t', n, log')
  {
    forall j, w | 0 <= j < n && Reported(polled.slots[j], w) && Kept(polled, t', j)
      ensures Activation(j, polled.slots[j].fd, w) in log'
    {
      KeptBack(polled, t, t', j);
      assert Activation(j, polled.slots[j].fd, w) in log;
    }
  }

  /** What visiting one event of slot `i` in state `t` adds to the log. */
  ghost predicate Visited(polled: Table, t: Table, i: nat, write: bool, log: seq<Activation>, log': seq<Activation>)
    requires |polled.slots| == |t.slots| == MAX_NODE && i < MAX_NODE
  {
    if Reported(t.slots[i], write) then
      && log' == log + [Activation(i, t.slots[i].fd, write)]
      && Reported(polled.slots[i], write) && polled.slots[i].fd == t.slots[i].fd
    else
      log' == log
  }

  lemma VisitedIsActivated(polled: Table, t: Table, t': Table, i: nat, write: bool,
                           log: seq<Activation>, log': seq<Activation>)
    requires Later(polled, t) && Later(t, t') && Later(polled, t') && i < MAX_NODE
    requires Visited(polled, t, i, write, log, log')
    requires Reported(polled.slots[i], write) && Kept(polled, t', i)
    ensures Activation(i, polled.slots[i].fd, write) in log'
  {
    KeptBack(polled, t, t', i);
    assert log'[|log'| - 1] == Activation(i, polled.slots[i].fd, write);
  }

  lemma VisitedSound(polled: Table, t: Table, i: nat, write: bool, log: seq<Activation>, log': seq<Activation>)
    requires |polled.slots| == |t.slots| == MAX_NODE && i < MAX_NODE
    requires Visited(polled, t, i, write, log, log') && Sound(polled, log)
    requires forall k :: 0 <= k < |log| ==> log[k].slot < i || (log[k].slot == i && write && !log[k].write)
    ensures Sound(polled, log') && log <= log'
    ensures forall k :: 0 <= k < |log'| ==> log'[k].slot < i || (log'[k].slot == i && (write || !log'[k].write))
  {
  }

  lemma SlotVisited(polled: Table, t0: Table, t1: Table, t2: Table, i: nat,
                    log0: seq<Activation>, log1: seq<Activation>, log2: seq<Activation>)
    requires Later(polled, t0) && Later(polled, t1) && Later(polled, t2)
    requires Later(t0, t1) && Later(t1, t2) && i < MAX_NODE
    requires Visited(polled, t0, i, false, log0, log1) && Visited(polled, t1, i, true, log1, log2)
    requires Complete(polled, t0, i, log0)
    ensures Complete(polled, t2, i + 1, log2)
  {
    LaterTrans(t0, t1, t2);
    CompleteLater(polled, t0, t2, i, log0, log2);
    forall w | Reported(polled.slots[i], w) && Kept(polled, t2, i)
      ensures Activation(i, polled.slots[i].fd, w) in log2
    {
      if w {
        VisitedIsActivated(polled, t1, t2, i, w, log1, log2);
      } else {
        VisitedIsActivated(polled, t0, t2, i, w, log0, log1);
        assert Activation(i, polled.slots[i].fd, w) in log1;
      }
    }
  }

  /** What each callback does to the loop: the tasks it makes run, in order. */
  type Script = seq<seq<Task>>

  /** The loop's table, the tasks it has started and those that wait. */
  datatype Moment = Moment(table: Table, started: seq<Task>, queue: seq<Task>)

  /** Between the two moments `tasks` were queued behind what waited. What has been started since is the front
      part of all that: the whole of it, unless nothing was queued and nothing started. The table is what it
      makes of the earlier one. */
  ghost predicate Ran(m: Moment, m': Moment, tasks: seq<Task>)
    requires |m.table.slots| == |m.table.stamps|
  {
    && m.started <= m'.started
    && Since(m, m') == Starting(m.queue, tasks) && m'.queue == Waiting(m.queue, tasks)
    && m'.table == ApplyAll(m.table, Since(m, m'))
  }

  function Since(m: Moment, m': Moment): seq<Task>
    requires m.started <= m'.started
  {
    m'.started[|m.started|..]
  }

  lemma SinceParts(m: Moment, mid: Moment, last: Moment)
    requires m.started <= mid.started <= last.started
    ensures Since(m, last) == Since(m, mid) + Since(mid, last)
  {
  }

  /** What starts when `tasks` come behind `queue`: nothing without a task, else all of it. */
  function Starting(queue: seq<Task>, tasks: seq<Task>): seq<Task> {
    if tasks == [] then [] else queue + tasks
  }

  function Waiting(queue: seq<Task>, tasks: seq<Task>): seq<Task> {
    if tasks == [] then queue else []
  }

  lemma StartingParts(queue: seq<Task>, a: seq<Task>, b: seq<Task>)
    ensures Starting(queue, a) + Starting(Waiting(queue, a), b) == Starting(queue, a + b)
    ensures Waiting(Waiting(queue, a), b) == Waiting(queue, a + b)
  {
    if a == [] {
      assert a + b == b;
    } else if b == [] {
      assert a + b == a;
    } else {
      assert queue + a + b == queue + (a + b);
    }
  }

  lemma RanOn(m: Moment, mid: Moment, last: Moment, a: seq<Task>, b: seq<Task>)
    requires |m.table.slots| == |m.table.stamps| && |mid.table.slots| == |mid.table.stamps|
    requires Ran(m, mid, a) && Ran(mid, last, b)
    ensures Ran(m, last, a + b)
  {
    SinceParts(m, mid, last);
    StartingParts(m.queue, a, b);
    ApplyAllAppend(m.table, Since(m, mid), Since(mid, last));
  }

  predicate ScriptOk(script: Script) {
    forall tasks <- script :: forall task <- tasks :: 0 <= task.fd
  }

  /** What the k-th callback of a turn makes run. */
  function CallbackTasks(script: Script, k: nat): seq<Task> {
    if k < |script| then script[k] else []
  }

  /** What the first n callbacks make run. */
  function AllTasks(script: Script, n: nat): seq<Task> {
    if n == 0 then [] else AllTasks(script, n - 1) + CallbackTasks(script, n - 1)
  }

  /** Every callback's tasks are there, in their place. */
  lemma {:induction false} EachCallbacksTasks(script: Script, n: nat, k: nat)
    requires k < n <= |script|
    ensures AllTasks(script, k) + script[k] <= AllTasks(script, n)
    decreases n
  {
    if k < n - 1 {
      EachCallbacksTasks(script, n - 1, k);
    }
  }

  class EventLoop {
    const dispatcher: PollDispatcher
    var channelMap: set<int>
    var taskQueue: seq<Task>
    var started: seq<Task>

    constructor ()
      ensures Valid() && taskQueue == started == [] && channelMap == {}
      ensures fresh(dispatcher) && fresh(dispatcher.fds)
    {
      dispatcher := new PollDispatcher();
      channelMap, taskQueue, started := {}, [], [];
    }

    ghost function View(): Table
      reads this, dispatcher, dispatcher.fds
    {
      dispatcher.View(channelMap)
    }

    ghost function Now(): Moment
      reads this, dispatcher, dispatcher.fds
    {
      Moment(View(), started, taskQueue)
    }

    ghost predicate Valid()
      reads this, dispatcher, dispatcher.fds
    {
      && Inv(View())
      && forall task <- taskQueue :: 0 <= task.fd
    }

    method Add(fd: int, events: Interest) returns (result: int)
      requires Valid() && 0 <= fd
      modifies this`channelMap, dispatcher`maxfd, dispatcher`stamps, dispatcher`clock, dispatcher.fds
      ensures Valid() && View() == Apply(old(View()), AddTask(fd, events))
      ensures result == if fd !in old(channelMap) && FirstWith(old(dispatcher.fds[..]), -1) < dispatcher.fds.Length
                        then 0 else -1
      ensures (fd !in old(channelMap) && fd < MAX_NODE
               && forall i :: 0 <= i < MAX_NODE ==> old(dispatcher.fds[i].fd) < MAX_NODE)
              ==> result == 0
    {
      ApplyKeepsInv(View(), AddTask(fd, events));
      if fd !in channelMap {
        if fd < MAX_NODE && forall i :: 0 <= i < MAX_NODE ==> dispatcher.fds[i].fd < MAX_NODE {
          FreeSlotExists(View(), fd);
        }
        channelMap := channelMap + {fd};
        result := dispatcher.Add(fd, events, channelMap);
        return;
      }
      result := -1;
    }

    /** The slot is cleared before the connection is destroyed; a connection with nothing buffered
        then frees its channel. */
    method Remove(fd: int, freed: bool) returns (result: int)
      requires Valid() && 0 <= fd
      modifies this`channelMap, dispatcher.fds
      ensures Valid() && View() == Apply(old(View()), DeleteTask(fd, freed))
      ensures result == if fd in old(channelMap) && FirstWith(old(dispatcher.fds[..]), fd) < dispatcher.fds.Length
                        then 0 else -1
    {
      ApplyKeepsInv(View(), DeleteTask(fd, freed));
      if fd !in channelMap {
        return -1;
      }
      result := dispatcher.Remove(fd, channelMap);
      if freed {
        FreeChannel(fd);
      }
    }

    method FreeChannel(fd: int)
      modifies this`channelMap
      ensures channelMap == old(channelMap) - {fd}
    {
      if fd in channelMap {
        channelMap := channelMap - {fd};
      }
    }

    method Modify(fd: int, events: Interest) returns (result: int)
      requires Valid() && 0 <= fd
      modifies dispatcher.fds
      ensures Valid() && View() == Apply(old(View()), ModifyTask(fd, events))
      ensures result == if fd in channelMap && FirstWith(old(dispatcher.fds[..]), fd) < dispatcher.fds.Length
                        then 0 else -1
    {
      ApplyKeepsInv(View(), ModifyTask(fd, events));
      if fd !in channelMap {
        return -1;
      }
      result := dispatcher.Modify(fd, events, channelMap);
    }

    method Execute(task: Task)
      requires Valid() && 0 <= task.fd
      modifies this`channelMap, dispatcher`maxfd, dispatcher`stamps, dispatcher`clock, dispatcher.fds
      ensures Valid() && View() == Apply(old(View()), task)
    {
      var result;
      match task
      case AddTask(fd, events) => result := Add(fd, events);
      case DeleteTask(fd, freed) => result := Remove(fd, freed);
      case ModifyTask(fd, events) => result := Modify(fd, events);
    }

    /** Takes the front task and runs it. */
    method RunFront()
      requires Valid() && taskQueue != []
      modifies this`channelMap, this`taskQueue, this`started
      modifies dispatcher`maxfd, dispatcher`stamps, dispatcher`clock, dispatcher.fds
      ensures Valid() && taskQueue == old(taskQueue)[1..] && started == old(started) + [old(taskQueue)[0]]
      ensures View() == Apply(old(View()), old(taskQueue)[0]) && Later(old(View()), View())
      ensures started + taskQueue == old(started) + old(taskQueue)
      ensures ApplyAll(View(), taskQueue) == ApplyAll(old(View()), old(taskQueue))
    {
      var task := taskQueue[0];
      taskQueue := taskQueue[1..];
      started := started + [task];
      ApplyIsLater(View(), task);
      Execute(task);
    }

    /** Drains the queue, front first. */
    method ProcessTaskQueue()
      requires Valid()
      modifies this`channelMap, this`taskQueue, this`started
      modifies dispatcher`maxfd, dispatcher`stamps, dispatcher`clock, dispatcher.fds
      ensures Valid() && taskQueue == [] && started == old(started) + old(taskQueue)
      ensures View() == ApplyAll(old(View()), old(taskQueue)) && Later(old(View()), View())
    {
      LaterRefl(View());
      while taskQueue != []
        invariant Valid()
        invariant started + taskQueue == old(started) + old(taskQueue)
        invariant ApplyAll(View(), taskQueue) == ApplyAll(old(View()), old(taskQueue))
        invariant Later(old(View()), View())
        decreases |taskQueue|
      {
        ghost var before := View();
        RunFront();
        LaterTrans(old(View()), before, View());
      }
    }

    /** From the loop's own thread a task is queued and the queue drained at once. */
    method RunTask(task: Task)
      requires Valid() && 0 <= task.fd
      modifies this`channelMap, this`taskQueue, this`started
      modifies dispatcher`maxfd, dispatcher`stamps, dispatcher`clock, dispatcher.fds
      ensures Valid() && taskQueue == [] && started == old(started) + old(taskQueue) + [task]
      ensures View() == ApplyAll(old(View()), old(taskQueue) + [task])
      ensures Later(old(View()), View()) && Ran(old(Now()), Now(), [task])
    {
      taskQueue := taskQueue + [task];
      ProcessTaskQueue();
      assert Since(old(Now()), Now()) == old(taskQueue) + [task];
    }

    /** One more task of a callback that began at `m`. */
    method RunNext(task: Task, ghost m: Moment, ghost before: seq<Task>)
      requires Valid() && 0 <= task.fd
      requires Later(m.table, View()) && Ran(m, Now(), before)
      modifies this`channelMap, this`taskQueue, this`started
      modifies dispatcher`maxfd, dispatcher`stamps, dispatcher`clock, dispatcher.fds
      ensures Valid() && Later(m.table, View()) && Ran(m, Now(), before + [task])
    {
      ghost var mid := Now();
      RunTask(task);
      RanOn(m, mid, Now(), before, [task]);
      LaterTrans(m.table, mid.table, View());
    }

    /** The callback of an activated descriptor, which makes the loop run its tasks. The channel must be in
        the map, and its registration the one that `poll` reported. */
    method EventActivate(a: Activation, tasks: seq<Task>, ghost polled: Table)
      requires Valid() && forall task <- tasks :: 0 <= task.fd
      requires a.fd in channelMap && a.slot < MAX_NODE
      requires Later(polled, View()) && Kept(polled, View(), a.slot)
      requires a.fd == polled.slots[a.slot].fd && Reported(polled.slots[a.slot], a.write)
      modifies this`channelMap, this`taskQueue, this`started
      modifies dispatcher`maxfd, dispatcher`stamps, dispatcher`clock, dispatcher.fds
      ensures Valid() && Later(old(View()), View())
      ensures Ran(old(Now()), Now(), tasks)
    {
      LaterRefl(View());
      for i := 0 to |tasks|
        invariant Valid() && Later(old(View()), View())
        invariant Ran(old(Now()), Now(), tasks[..i])
      {
        RunNext(tasks[i], old(Now()), tasks[..i]);
        assert tasks[..i + 1] == tasks[..i] + [tasks[i]];
      }
      assert tasks[..|tasks|] == tasks;
    }

    /** One event of one slot during the scan: activated if the slot still shows it. */
    method Visit(i: nat, write: bool, script: Script, log: seq<Activation>, ghost polled: Table)
      returns (log': seq<Activation>)
      requires Valid() && ScriptOk(script) && i < MAX_NODE
      requires Later(polled, View())
      modifies this`channelMap, this`taskQueue, this`started
      modifies dispatcher`maxfd, dispatcher`stamps, dispatcher`clock, dispatcher.fds
      ensures Valid() && Later(polled, View()) && Later(old(View()), View())
      ensures Visited(polled, old(View()), i, write, log, log')
      ensures Ran(old(Now()), Now(), if log' == log then [] else CallbackTasks(script, |log|))
    {
      log' := log;
      LaterRefl(View());
      ghost var before := View();
      var s := dispatcher.fds[i];
      if if write then s.revents.write else s.revents.read {
        assert before.slots[i] == s;
        var a := Activation(i, s.fd, write);
        var tasks := CallbackTasks(script, |log|);
        assert |log| < |script| ==> tasks in script;
        EventActivate(a, tasks, polled);
        LaterTrans(polled, before, View());
        log' := log + [a];
      }
    }

    /** The same in a turn that began at `start`. */
    method VisitOn(i: nat, write: bool, script: Script, log: seq<Activation>, ghost polled: Table, ghost start: Moment)
      returns (log': seq<Activation>)
      requires Valid() && ScriptOk(script) && i < MAX_NODE
      requires Later(polled, View()) && start.table == polled && Ran(start, Now(), AllTasks(script, |log|))
      modifies this`channelMap, this`taskQueue, this`started
      modifies dispatcher`maxfd, dispatcher`stamps, dispatcher`clock, dispatcher.fds
      ensures Valid() && Later(polled, View()) && Later(old(View()), View())
      ensures Visited(polled, old(View()), i, write, log, log')
      ensures Ran(start, Now(), AllTasks(script, |log'|))
    {
      ghost var mid := Now();
      log' := Visit(i, write, script, log, polled);
      var tasks := if |log'| == |log| then [] else CallbackTasks(script, |log|);
      RanOn(start, mid, Now(), AllTasks(script, |log|), tasks);
      assert AllTasks(script, |log|) + [] == AllTasks(script, |log|);
    }

    /** Both events of one slot, in the order of the scan. */
    method VisitSlot(i: nat, script: Script, log: seq<Activation>, ghost polled: Table, ghost start: Moment)
      returns (log': seq<Activation>)
      requires start.table == polled
      requires Valid() && ScriptOk(script) && i < MAX_NODE
      requires Later(polled, View()) && Complete(polled, View(), i, log) && Sound(polled, log)
      requires forall k :: 0 <= k < |log| ==> log[k].slot < i
      requires Ran(start, Now(), AllTasks(script, |log|))
      modifies this`channelMap, this`taskQueue, this`started
      modifies dispatcher`maxfd, dispatcher`stamps, dispatcher`clock, dispatcher.fds
      ensures Valid() && Later(polled, View()) && Complete(polled, View(), i + 1, log')
      ensures Sound(polled, log') && forall k :: 0 <= k < |log'| ==> log'[k].slot < i + 1
      ensures Ran(start, Now(), AllTasks(script, |log'|))
    {
      ghost var t0 := View();
      var log1 := VisitOn(i, false, script, log, polled, start);
      ghost var t1 := View();
      log' := VisitOn(i, true, script, log1, polled, start);
      VisitedSound(polled, t0, i, false, log, log1);
      VisitedSound(polled, t1, i, true, log1, log');
      SlotVisited(polled, t0, t1, View(), i, log, log1, log');
    }

    /** One turn of the scan. `script` says what each callback in turn makes run. Everything activated
        was reported by this poll and, when its callback ran, still registered and in the channel map
        (the precondition of `EventActivate`); nothing is activated twice; whatever is still registered at
        the end was not forgotten; and the tasks of the activations, in their order, have run behind what
        waited, from the table that poll left. */
    method Dispatch(ready: Readiness, script: Script) returns (log: seq<Activation>)
      requires Valid() && ScriptOk(script)
      modifies this`channelMap, this`taskQueue, this`started
      modifies dispatcher`maxfd, dispatcher`stamps, dispatcher`clock, dispatcher.fds
      ensures Valid() && Later(Polled(old(View()), ready), View())
      ensures Sound(Polled(old(View()), ready), log)
      ensures Complete(Polled(old(View()), ready), View(), MAX_NODE, log)
      ensures Ran(Moment(Polled(old(View()), ready), old(started), old(taskQueue)), Now(), AllTasks(script, |log|))
    {
      PolledInv(View(), ready);
      dispatcher.Poll(ready, channelMap);
      ghost var polled, start := View(), Now();
      LaterRefl(polled);
      log := [];
      var i := 0;
      while i <= dispatcher.maxfd
        invariant Valid() && Later(polled, View()) && i <= MAX_NODE
        invariant Complete(polled, View(), i, log) && Sound(polled, log)
        invariant forall k :: 0 <= k < |log| ==> log[k].slot < i
        invariant Ran(start, Now(), AllTasks(script, |log|))
        decreases MAX_NODE - i
      {
        log := VisitSlot(i, script, log, polled, start);
        i := i + 1;
      }
    }
  }

  function ApplyAll(t: Table, tasks: seq<Task>): (r: Table)
    requires |t.slots| == |t.stamps|
    ensures |r.slots| == |r.stamps|
    decreases |tasks|
  {
    if tasks == [] then t else ApplyAll(Apply(t, tasks[0]), tasks[1..])
  }

  lemma {:induction false} ApplyAllAppend(t: Table, a: seq<Task>, b: seq<Task>)
    requires |t.slots| == |t.stamps|
    ensures ApplyAll(t, a + b) == ApplyAll(ApplyAll(t, a), b)
    decreases |a|
  {
    if a == [] {
      assert a + b == b;
    } else {
      assert (a + b)[1..] == a[1..] + b;
      ApplyAllAppend(Apply(t, a[0]), a[1..], b);
    }
  }
}
