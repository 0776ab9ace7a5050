/** The poll dispatcher's slot table together with the loop's channel map, as values. Each registration
    of a slot carries a stamp, which the program does not have, to tell it from earlier ones. */
module PollTable {

  /** Read and write bits, of a channel's events, of a slot's events or of its returned events. */
  datatype Interest = Interest(read: bool, write: bool)

  const NOTHING: Interest := Interest(false, false)

  datatype Slot = Slot(fd: int, events: Interest, revents: Interest)

  const FREE_SLOT: Slot := Slot(-1, NOTHING, NOTHING)

  const MAX_NODE: nat := 1024

  /** The first slot with the given descriptor, or the table's length; -1 marks a free slot. */
  function FirstWith(s: seq<Slot>, fd: int): (i: nat)
    ensures i <= |s| && (i < |s| ==> s[i].fd == fd)
    ensures forall j :: 0 <= j < i ==> s[j].fd != fd
  {
    if s == [] then 0
    else if s[0].fd == fd then 0
    else
      var k := FirstWith(s[1..], fd);
      assert forall j :: 1 <= j < k + 1 ==> s[j].fd == s[1..][j - 1].fd;
      k + 1
  }

  datatype Table = Table(slots: seq<Slot>, maxfd: nat, channels: set<int>, stamps: seq<nat>, clock: nat)

  /** A task of the loop's queue with what its channel says when the task runs. `freed` tells whether
      the destroyed connection had nothing left to read or write, and so gives up its channel. */
  datatype Task =
    | AddTask(fd: int, events: Interest)
    | DeleteTask(fd: int, freed: bool)
    | ModifyTask(fd: int, events: Interest)

  function AddSlot(t: Table, fd: int, events: Interest): Table
    requires |t.slots| == |t.stamps|
  {
    var i := FirstWith(t.slots, -1);
    if i == |t.slots| then t
    else t.(slots := t.slots[i := t.slots[i].(fd := fd, events := events)],
            maxfd := if i > t.maxfd then i else t.maxfd,
            stamps := t.stamps[i := t.clock], clock := t.clock + 1)
  }

  function RemoveSlot(t: Table, fd: int): Table {
    var i := FirstWith(t.slots, fd);
    if i == |t.slots| then t else t.(slots := t.slots[i := FREE_SLOT])
  }

  function ModifySlot(t: Table, fd: int, events: Interest): Table {
    var i := FirstWith(t.slots, fd);
    if i == |t.slots| then t else t.(slots := t.slots[i := t.slots[i].(events := events)])
  }

  /** One task, guarded by the channel map as in the loop. */
  function Apply(t: Table, task: Task): Table
    requires |t.slots| == |t.stamps|
  {
    match task
    case AddTask(fd, events) =>
      if fd in t.channels then t else AddSlot(t.(channels := t.channels + {fd}), fd, events)
    case DeleteTask(fd, freed) =>
      if fd !in t.channels then t
      else
        var t' := RemoveSlot(t, fd);
        if freed then t'.(channels := t'.channels - {fd}) else t'
    case ModifyTask(fd, events) =>
      if fd !in t.channels then t else ModifySlot(t, fd, events)
  }

  /** Descriptors are not negative, and a channel that is freed has left the table first. */
  ghost predicate Inv(t: Table) {
    && |t.slots| == |t.stamps| == MAX_NODE && t.maxfd < MAX_NODE
    && (forall i :: 0 <= i < MAX_NODE ==> t.stamps[i] < t.clock)
    && (forall i :: 0 <= i < MAX_NODE && t.slots[i].fd == -1 ==> t.slots[i].revents == NOTHING)
    && (forall i :: 0 <= i < MAX_NODE && t.slots[i].fd != -1 ==>
                    0 <= t.slots[i].fd && t.slots[i].fd in t.channels && i <= t.maxfd)
    && (forall i, j :: 0 <= i < j < MAX_NODE && t.slots[i].fd != -1 ==> t.slots[i].fd != t.slots[j].fd)
  }

  /** Nothing but tasks happened between the two: whatever registration of `t` a slot still has is
      unchanged and kept what poll returned for it, and a newer one has nothing returned. */
  ghost predicate Later(t: Table, t': Table) {
    && Inv(t) && Inv(t') && t.clock <= t'.clock
    && (forall i :: 0 <= i < MAX_NODE && t'.slots[i].fd != -1 && t'.stamps[i] < t.clock ==> Kept(t, t', i))
    && (forall i :: 0 <= i < MAX_NODE && t'.stamps[i] >= t.clock ==> t'.slots[i].revents == NOTHING)
  }

  /** Slot `i` still holds the same registration, with the same returned events. */
  ghost predicate Kept(t: Table, t': Table, i: nat)
    requires |t.slots| == |t.stamps| == |t'.slots| == |t'.stamps| == MAX_NODE && i < MAX_NODE
  {
    && t'.slots[i].fd == t.slots[i].fd != -1
    && t'.stamps[i] == t.stamps[i]
    && t'.slots[i].revents == t.slots[i].revents
  }

  lemma AddSlotKeepsInv(t: Table, fd: int, events: Interest)
    requires Inv(t) && 0 <= fd && fd !in t.channels
    ensures Inv(AddSlot(t.(channels := t.channels + {fd}), fd, events))
  {
  }

  lemma RemoveSlotKeepsInv(t: Table, fd: int)
    requires Inv(t) && 0 <= fd
    ensures Inv(RemoveSlot(t, fd))
    ensures forall i :: 0 <= i < MAX_NODE ==> RemoveSlot(t, fd).slots[i].fd != fd
  {
  }

  lemma ModifySlotKeepsInv(t: Table, fd: int, events: Interest)
    requires Inv(t) && 0 <= fd
    ensures Inv(ModifySlot(t, fd, events))
  {
  }

  lemma ApplyKeepsInv(t: Table, task: Task)
    requires Inv(t) && 0 <= task.fd
    ensures Inv(Apply(t, task))
  {
    match task
    case AddTask(fd, events) =>
      if fd !in t.channels {
        AddSlotKeepsInv(t, fd, events);
      }
    case DeleteTask(fd, freed) => RemoveSlotKeepsInv(t, fd);
    case ModifyTask(fd, events) => ModifySlotKeepsInv(t, fd, events);
  }

  lemma ApplyIsLater(t: Table, task: Task)
    requires Inv(t) && 0 <= task.fd
    ensures Later(t, Apply(t, task))
  {
    ApplyKeepsInv(t, task);
  }

  lemma LaterRefl(t: Table)
    requires Inv(t)
    ensures Later(t, t)
  {
  }

  lemma LaterTrans(t: Table, t': Table, t'': Table)
    requires Later(t, t') && Later(t', t'')
    ensures Later(t, t'')
  {
  }

  // ----- there is always a free slot -----

  lemma {:induction false} Pigeonhole(s: seq<int>, holes: set<int>)
    requires forall i :: 0 <= i < |s| ==> s[i] in holes
    requires forall i, j :: 0 <= i < j < |s| ==> s[i] != s[j]
    ensures |s| <= |holes|
  {
    if s != [] {
      var last := s[|s| - 1];
      assert forall i :: 0 <= i < |s| - 1 ==> s[i] != last;
      Pigeonhole(s[..|s| - 1], holes - {last});
    }
  }

  function Below(n: nat): (r: set<int>)
    ensures |r| == n && forall x :: x in r <==> 0 <= x < n
  {
    if n == 0 then {} else Below(n - 1) + {n - 1}
  }

  /** A table of n slots is never full of distinct descriptors below n that miss one of them. */
  lemma SomeSlotFree(s: seq<Slot>, fd: int)
    requires 0 <= fd < |s|
    requires forall i :: 0 <= i < |s| && s[i].fd != -1 ==> 0 <= s[i].fd < |s| && s[i].fd != fd
    requires forall i, j :: 0 <= i < j < |s| && s[i].fd != -1 ==> s[i].fd != s[j].fd
    ensures exists i :: 0 <= i < |s| && s[i].fd == -1
  {
    if forall i :: 0 <= i < |s| ==> s[i].fd != -1 {
      var fds := seq(|s|, i requires 0 <= i < |s| => s[i].fd);
      Pigeonhole(fds, Below(|s|) - {fd});
      assert false;
    }
  }

  /** With descriptors below the table's size, the slot that `add` looks for exists: there are as many
      slots as descriptors, and the one to be added is in none. */
  lemma FreeSlotExists(t: Table, fd: int)
    requires Inv(t) && 0 <= fd < MAX_NODE
    requires forall i :: 0 <= i < MAX_NODE ==> t.slots[i].fd < MAX_NODE && t.slots[i].fd != fd
    ensures FirstWith(t.slots, -1) < MAX_NODE
  {
    SomeSlotFree(t.slots, fd);
  }
}
