/** The scan of the select dispatcher works from copies of its two sets, so it can call back for a
    descriptor whose channel an earlier callback has freed. When exactly it does is stated here. */
module SelectScan {
  import opened PollTable
  import opened SelectTable

  datatype Event = Event(fd: int, write: bool)

  /** The callbacks of descriptors from `fd` on, read before write, that the copied sets call for. */
  function Events(copied: Sets, fd: nat): seq<Event>
    requires fd <= MAX_FDS
    decreases MAX_FDS - fd
  {
    if fd == MAX_FDS then []
    else
      (if fd in copied.readSet then [Event(fd, false)] else []) +
      ((if fd in copied.writeSet then [Event(fd, true)] else []) + Events(copied, fd + 1))
  }

  function ChannelsNext(channels: set<int>, task: Task): set<int> {
    match task
    case AddTask(fd, _) => channels + {fd}
    case DeleteTask(fd, freed) => if freed then channels - {fd} else channels
    case ModifyTask(_, _) => channels
  }

  function ChannelsAfter(channels: set<int>, tasks: seq<Task>): set<int> {
    if tasks == [] then channels
    else ChannelsNext(ChannelsAfter(channels, tasks[..|tasks| - 1]), tasks[|tasks| - 1])
  }

  /** These are the channels of the poll loop's table under the same task. */
  lemma SameChannels(t: Table, task: Task)
    requires |t.slots| == |t.stamps|
    ensures Apply(t, task).channels == ChannelsNext(t.channels, task)
  {
  }

  /** Every callback finds its channel, when the callback of the k-th event makes the k-th entry of
      `script` run. Otherwise the loop dereferences a channel that is not there. */
  predicate Safe(channels: set<int>, events: seq<Event>, script: seq<seq<Task>>)
    requires |script| == |events|
    decreases |events|
  {
    events == [] ||
    (events[0].fd in channels && Safe(ChannelsAfter(channels, script[0]), events[1..], script[1..]))
  }

  // ----- the loop -----

  class SelectLoop {
    var channelMap: set<int>

    constructor ()
      ensures channelMap == {}
    {
      channelMap := {};
    }

    /** What one callback makes the loop run, as far as the channel map goes. */
    method RunTasks(tasks: seq<Task>)
      modifies this
      ensures channelMap == ChannelsAfter(old(channelMap), tasks)
    {
      for i := 0 to |tasks|
        invariant channelMap == ChannelsAfter(old(channelMap), tasks[..i])
      {
        assert tasks[..i + 1][..i] == tasks[..i];
        match tasks[i]
        case AddTask(fd, _) => channelMap := channelMap + {fd};
        case DeleteTask(fd, freed) =>
          if freed {
            channelMap := channelMap - {fd};
          }
        case ModifyTask(_, _) =>
      }
      assert tasks[..|tasks|] == tasks;
    }

    /** One bit of one descriptor: its callback is the k-th if the bit is set. */
    method Visit(fd: int, ready: bool, script: seq<seq<Task>>, k: nat) returns (ok: bool, k': nat)
      requires ready ==> k < |script|
      modifies this
      ensures ok <==> ready ==> fd in old(channelMap)
      ensures k' == (if ok && ready then k + 1 else k)
      ensures channelMap == if ok && ready then ChannelsAfter(old(channelMap), script[k]) else old(channelMap)
    {
      ok, k' := true, k;
      if ready {
        if fd !in channelMap {
          return false, k;
        }
        RunTasks(script[k]);
        k' := k + 1;
      }
    }

    /** The same in a scan that began with the channels `start`; `later` are the events behind this one. */
    method VisitNext(event: Event, ready: bool, ghost later: seq<Event>, script: seq<seq<Task>>, k: nat,
                     ghost start: set<int>, ghost events: seq<Event>) returns (ok: bool, k': nat)
      requires At(start, channelMap, events, script, k, (if ready then [event] else []) + later)
      modifies this
      ensures if ok then At(start, channelMap, events, script, k', later)
              else StuckAt(start, channelMap, events, script, k')
    {
      OneVisit(channelMap, event, ready, later, script, k);
      assert ready ==> |([event] + later)| == |later| + 1 && ([event] + later)[0] == event;
      ok, k' := Visit(event.fd, ready, script, k);
      if ok && ready {
        FlatSnoc(script[..k], script[k]);
        assert script[..k + 1] == script[..k] + [script[k]];
        AfterBoth(start, Flat(script[..k]), script[k]);
        assert events[k + 1..] == events[k..][1..] == later;
      } else if ok {
        assert [] + later == later;
      }
    }

    /** Both bits of one descriptor, read before write. */
    method VisitBoth(fd: nat, returned: Sets, script: seq<seq<Task>>, k: nat,
                     ghost start: set<int>, ghost events: seq<Event>) returns (ok: bool, k': nat)
      requires fd < MAX_FDS && At(start, channelMap, events, script, k, Events(returned, fd))
      modifies this
      ensures if ok then At(start, channelMap, events, script, k', Events(returned, fd + 1))
              else StuckAt(start, channelMap, events, script, k')
    {
      ghost var later := Events(returned, fd + 1);
      ghost var writes := (if fd in returned.writeSet then [Event(fd, true)] else []) + later;
      ok, k' := VisitNext(Event(fd, false), fd in returned.readSet, writes, script, k, start, events);
      if ok {
        ok, k' := VisitNext(Event(fd, true), fd in returned.writeSet, later, script, k', start, events);
      }
    }

    /** All descriptors from `fd` on. */
    method VisitFrom(fd: nat, returned: Sets, script: seq<seq<Task>>, k: nat,
                     ghost start: set<int>, ghost events: seq<Event>) returns (ok: bool, k': nat)
      requires fd <= MAX_FDS && At(start, channelMap, events, script, k, Events(returned, fd))
      modifies this
      ensures if ok then At(start, channelMap, events, script, k', [])
              else StuckAt(start, channelMap, events, script, k')
    {
      ok, k' := true, k;
      var next := fd;
      while ok && next < MAX_FDS
        invariant next <= MAX_FDS
        invariant if ok then At(start, channelMap, events, script, k', Events(returned, next))
                  else StuckAt(start, channelMap, events, script, k')
      {
        ok, k' := VisitBoth(next, returned, script, k', start, events);
        next := next + 1;
      }
    }

    /** The scan over what select returned. `ok` is false when it comes to a descriptor without a
        channel, where the program would stop. The first `called` events have been called back for. */
    method Dispatch(returned: Sets, script: seq<seq<Task>>) returns (ok: bool, called: nat)
      requires |script| == |Events(returned, 0)|
      modifies this
      ensures ok <==> Safe(old(channelMap), Events(returned, 0), script)
      ensures called <= |script| && channelMap == ChannelsAfter(old(channelMap), Flat(script[..called]))
      ensures if ok then called == |script|
              else called < |script| && Events(returned, 0)[called].fd !in channelMap
    {
      ghost var start, events := channelMap, Events(returned, 0);
      AtStart(start, events, script);
      ok, called := VisitFrom(0, returned, script, 0, start, events);
    }
  }

  lemma AtStart(channels: set<int>, events: seq<Event>, script: seq<seq<Task>>)
    requires |script| == |events|
    ensures At(channels, channels, events, script, 0, events)
  {
    assert script[..0] == [] && script[0..] == script && events[0..] == events;
  }

  /** A scan that has come to the k-th event without stopping. */
  ghost predicate At(start: set<int>, channels: set<int>, events: seq<Event>, script: seq<seq<Task>>,
                     k: nat, later: seq<Event>) {
    && k <= |script| == |events| && events[k..] == later
    && channels == ChannelsAfter(start, Flat(script[..k]))
    && (Safe(start, events, script) <==> Safe(channels, later, script[k..]))
  }

  /** A scan that stops at the k-th event. */
  ghost predicate StuckAt(start: set<int>, channels: set<int>, events: seq<Event>, script: seq<seq<Task>>, k: nat) {
    && k < |script| == |events| && events[k].fd !in channels
    && channels == ChannelsAfter(start, Flat(script[..k]))
    && !Safe(start, events, script)
  }

  lemma OneVisit(channels: set<int>, event: Event, ready: bool, later: seq<Event>,
                 script: seq<seq<Task>>, k: nat)
    requires k <= |script| && |script[k..]| == |(if ready then [event] else []) + later|
    ensures Safe(channels, (if ready then [event] else []) + later, script[k..])
            <==> if ready then event.fd in channels
                               && Safe(ChannelsAfter(channels, script[k]), later, script[k + 1..])
                 else Safe(channels, later, script[k..])
  {
    if ready {
      assert ([event] + later)[1..] == later && script[k..][1..] == script[k + 1..];
    } else {
      assert [] + later == later;
    }
  }

  // ----- when the scan is safe -----

  /** Whether the last add or freeing delete of `fd`, if there is one, was an add; else whether it was
      there to begin with. */
  predicate StillThere(channels: set<int>, tasks: seq<Task>, fd: int) {
    if tasks == [] then fd in channels
    else
      match tasks[|tasks| - 1]
      case AddTask(other, _) => other == fd || StillThere(channels, tasks[..|tasks| - 1], fd)
      case DeleteTask(other, freed) => !(freed && other == fd) && StillThere(channels, tasks[..|tasks| - 1], fd)
      case ModifyTask(_, _) => StillThere(channels, tasks[..|tasks| - 1], fd)
  }

  function Flat(script: seq<seq<Task>>): seq<Task> {
    if script == [] then [] else script[0] + Flat(script[1..])
  }

  lemma {:induction false} FlatSnoc(script: seq<seq<Task>>, tasks: seq<Task>)
    ensures Flat(script + [tasks]) == Flat(script) + tasks
  {
    if script == [] {
      assert [tasks][1..] == [] && tasks + [] == tasks;
    } else {
      assert (script + [tasks])[1..] == script[1..] + [tasks];
      FlatSnoc(script[1..], tasks);
    }
  }

  lemma {:induction false} AfterIff(channels: set<int>, tasks: seq<Task>, fd: int)
    ensures fd in ChannelsAfter(channels, tasks) <==> StillThere(channels, tasks, fd)
  {
    if tasks != [] {
      AfterIff(channels, tasks[..|tasks| - 1], fd);
    }
  }

  lemma {:induction false} AfterBoth(channels: set<int>, a: seq<Task>, b: seq<Task>)
    ensures ChannelsAfter(channels, a + b) == ChannelsAfter(ChannelsAfter(channels, a), b)
    decreases |b|
  {
    if b == [] {
      assert a + b == a;
    } else {
      assert (a + b)[..|a + b| - 1] == a + b[..|b| - 1];
      AfterBoth(channels, a, b[..|b| - 1]);
    }
  }

  ghost predicate EachThere(channels: set<int>, events: seq<Event>, script: seq<seq<Task>>)
    requires |script| == |events|
  {
    forall k :: 0 <= k < |events| ==> StillThere(channels, Flat(script[..k]), events[k].fd)
  }

  lemma EachThereStep(channels: set<int>, events: seq<Event>, script: seq<seq<Task>>)
    requires |script| == |events| && events != []
    ensures EachThere(channels, events, script)
            <==> events[0].fd in channels
                 && EachThere(ChannelsAfter(channels, script[0]), events[1..], script[1..])
  {
    var next := ChannelsAfter(channels, script[0]);
    forall k | 0 < k < |events|
      ensures StillThere(channels, Flat(script[..k]), events[k].fd)
              <==> StillThere(next, Flat(script[1..][..k - 1]), events[1..][k - 1].fd)
    {
      assert script[..k][1..] == script[1..][..k - 1];
      AfterBoth(channels, script[0], Flat(script[1..][..k - 1]));
      AfterIff(channels, Flat(script[..k]), events[k].fd);
      AfterIff(next, Flat(script[1..][..k - 1]), events[k].fd);
    }
    assert StillThere(channels, Flat(script[..0]), events[0].fd) <==> events[0].fd in channels;
    if EachThere(next, events[1..], script[1..]) && events[0].fd in channels {
      forall k | 0 <= k < |events|
        ensures StillThere(channels, Flat(script[..k]), events[k].fd)
      {
        if k > 0 {
          assert StillThere(next, Flat(script[1..][..k - 1]), events[1..][k - 1].fd);
        }
      }
    }
    if EachThere(channels, events, script) {
      forall k | 0 <= k < |events[1..]|
        ensures StillThere(next, Flat(script[1..][..k]), events[1..][k].fd)
      {
        assert StillThere(channels, Flat(script[..k + 1]), events[k + 1].fd);
      }
    }
  }

  /** The scan is safe exactly when, for each of its events, whatever the earlier callbacks last did to the
      descriptor's channel was not to free it, and it was there if they did nothing to it. */
  lemma {:induction false} SafeIff(channels: set<int>, events: seq<Event>, script: seq<seq<Task>>)
    requires |script| == |events|
    ensures Safe(channels, events, script) <==> EachThere(channels, events, script)
    decreases |events|
  {
    if events != [] {
      SafeIff(ChannelsAfter(channels, script[0]), events[1..], script[1..]);
      EachThereStep(channels, events, script);
    }
  }

  // ----- the server's own callbacks -----

  /** The callback of an event frees at most the event's own channel. */
  predicate FreesOwnOnly(event: Event, tasks: seq<Task>) {
    forall task <- tasks :: task.DeleteTask? && task.freed ==> task.fd == event.fd
  }

  predicate Once(events: seq<Event>) {
    forall i, j :: 0 <= i < j < |events| ==> events[i].fd != events[j].fd
  }

  lemma {:induction false} OthersStay(channels: set<int>, event: Event, tasks: seq<Task>)
    requires FreesOwnOnly(event, tasks)
    ensures channels - {event.fd} <= ChannelsAfter(channels, tasks)
  {
    if tasks != [] {
      assert tasks[|tasks| - 1] in tasks;
      OthersStay(channels, event, tasks[..|tasks| - 1]);
    }
  }

  lemma {:induction false} OwnFreesAreSafe(channels: set<int>, events: seq<Event>, script: seq<seq<Task>>)
    requires |script| == |events| && Once(events)
    requires forall k :: 0 <= k < |events| ==> events[k].fd in channels && FreesOwnOnly(events[k], script[k])
    ensures Safe(channels, events, script)
    decreases |events|
  {
    if events != [] {
      OthersStay(channels, events[0], script[0]);
      OwnFreesAreSafe(ChannelsAfter(channels, script[0]), events[1..], script[1..]);
    }
  }

  lemma {:induction false} EventsOnce(copied: Sets, fd: nat)
    requires fd <= MAX_FDS && copied.readSet !! copied.writeSet
    ensures Once(Events(copied, fd))
    ensures forall e <- Events(copied, fd) ::
              fd <= e.fd && (if e.write then e.fd in copied.writeSet else e.fd in copied.readSet)
    decreases MAX_FDS - fd
  {
    if fd < MAX_FDS {
      EventsOnce(copied, fd + 1);
      var later := Events(copied, fd + 1);
      if fd in copied.readSet {
        FirstOnce(Event(fd, false), later);
        assert Events(copied, fd) == [Event(fd, false)] + later;
      } else if fd in copied.writeSet {
        FirstOnce(Event(fd, true), later);
        assert Events(copied, fd) == [Event(fd, true)] + later;
      } else {
        assert Events(copied, fd) == later;
      }
    }
  }

  predicate EventBefore(a: Event, b: Event) {
    a.fd < b.fd || (a.fd == b.fd && !a.write && b.write)
  }

  ghost predicate Ordered(events: seq<Event>) {
    forall i, j :: 0 <= i < j < |events| ==> EventBefore(events[i], events[j])
  }

  lemma InFront(event: Event, there: bool, later: seq<Event>)
    requires Ordered(later) && forall e <- later :: EventBefore(event, e)
    ensures Ordered((if there then [event] else []) + later)
    ensures forall e :: e in (if there then [event] else []) + later <==> (there && e == event) || e in later
  {
    assert forall i :: 0 <= i < |later| ==> later[i] in later;
  }

  /** The scan calls for exactly the bits that select returned, by descriptor and read before write. */
  lemma {:induction false} EventsExact(copied: Sets, fd: nat)
    requires fd <= MAX_FDS
    ensures forall e :: e in Events(copied, fd) <==>
                        fd <= e.fd < MAX_FDS && if e.write then e.fd in copied.writeSet else e.fd in copied.readSet
    ensures Ordered(Events(copied, fd))
    decreases MAX_FDS - fd
  {
    if fd < MAX_FDS {
      EventsExact(copied, fd + 1);
      var later := Events(copied, fd + 1);
      var writes := (if fd in copied.writeSet then [Event(fd, true)] else []) + later;
      assert forall i :: 0 <= i < |later| ==> later[i] in later;
      InFront(Event(fd, true), fd in copied.writeSet, later);
      InFront(Event(fd, false), fd in copied.readSet, writes);
    }
  }

  lemma FirstOnce(event: Event, later: seq<Event>)
    requires Once(later) && forall e <- later :: e.fd != event.fd
    ensures Once([event] + later)
  {
    assert forall i :: 0 <= i < |later| ==> later[i] in later;
  }

  /** With one interest bit a descriptor and callbacks that free nothing but their own channel, the scan
      over whatever select returned is safe. */
  lemma OneBitScanIsSafe(channels: set<int>, returned: Sets, script: seq<seq<Task>>)
    requires returned.readSet !! returned.writeSet && returned.readSet + returned.writeSet <= channels
    requires |script| == |Events(returned, 0)|
    requires forall k :: 0 <= k < |script| ==> FreesOwnOnly(Events(returned, 0)[k], script[k])
    ensures Safe(channels, Events(returned, 0), script)
  {
    EventsOnce(returned, 0);
    var events := Events(returned, 0);
    assert forall k :: 0 <= k < |events| ==> events[k] in events;
    OwnFreesAreSafe(channels, events, script);
  }

  lemma {:induction false} NoEventsBefore(copied: Sets, fd: nat, next: nat)
    requires fd <= next <= MAX_FDS
    requires forall i :: fd <= i < next ==> i !in copied.readSet && i !in copied.writeSet
    ensures Events(copied, fd) == Events(copied, next)
    decreases next - fd
  {
    if fd < next {
      NoEventsBefore(copied, fd + 1, next);
    }
  }

  lemma TwoReads(a: nat, b: nat)
    requires a < b < MAX_FDS
    ensures Events(Sets({a, b}, {}), 0) == [Event(a, false), Event(b, false)]
  {
    var copied := Sets({a, b}, {});
    NoEventsBefore(copied, 0, a);
    NoEventsBefore(copied, a + 1, b);
    NoEventsBefore(copied, b + 1, MAX_FDS);
  }

  /** Two readable descriptors, the first of whose callbacks frees the second: the scan comes to a channel
      that is not there. Poll, which looks at its table again, does not call back for it. */
  lemma FreeingAnotherIsUnsafe(a: nat, b: nat, rest: seq<Task>)
    requires a < b < MAX_FDS
    ensures var events := Events(Sets({a, b}, {}), 0);
            |events| == 2 && !Safe({a, b}, events, [[DeleteTask(b, true)], rest])
  {
    TwoReads(a, b);
    var script := [[DeleteTask(b, true)], rest];
    SafeIff({a, b}, [Event(a, false), Event(b, false)], script);
    assert script[..1][1..] == [];
    assert Flat(script[..1]) == [DeleteTask(b, true)];
  }
}
