/** Matchmaking over whole runs: one open room at a time, a sharp partition when nobody leaves an
    open room, and one game for every third join. */
module Matchmaking {
  import opened RoomModel
  import opened RoomListModel
  import opened Lobby
  import opened LobbyInvariant
  import opened LobbySafety
  import opened Scores

  // ----- one open room -----

  ghost predicate OneOpen(s: Store) {
    forall a: Name, b: Name :: s.Search(a) && s.Search(b) ==> a == b
  }

  predicate AutoOnly(req: Request) {
    req.AddRoom? ==> req.auto
  }

  lemma LeaveRoomKeepsOpen(s: Store, room: Name, user: Name)
    ensures LeaveRoom(s, room, user).single == s.single && LeaveRoom(s, room, user).double == s.double
  {
  }

  /** Leaving, by request or at the start of a join, never touches the two open sets. */
  lemma DepartKeepsOpen(l: Lobby, user: Name)
    ensures Depart(l, user).store.single == l.store.single
    ensures Depart(l, user).store.double == l.store.double
    ensures forall r: Name :: Depart(l, user).store.Search(r) <==> l.store.Search(r)
  {
    LeaveRoomKeepsOpen(l.store, l.store.PlayerRoom(user), user);
  }

  /** A join changes the openness of the joined room alone. */
  lemma JoinOpens(s: Store, room: Name, user: Name, score: int)
    requires JoinRoom(s, room, user).Joined?
    ensures var s' := JoinRoom(s, room, user).store.ZAdd(room, user, score);
            forall r: Name :: r != room ==> (s'.Search(r) <==> s.Search(r))
  {
  }

  lemma CandidateOpen(s: Store, room: Name)
    requires Candidate(s, room)
    ensures s.Search(room) || forall r: Name :: !s.Search(r)
  {
  }

  lemma StepKeepsOneOpen(l: Lobby, req: Request)
    requires Inv(l) && Legal(l, req) && Next(l, req).Done?
    requires OneOpen(l.store) && AutoOnly(req)
    ensures OneOpen(Next(l, req).lobby.store)
  {
    if req.AddRoom? {
      DepartKeepsOpen(l, req.user);
      var s := Depart(l, req.user).store;
      assert OneOpen(s);
      var score := AddRoomStore(l, true, req.user, req.conn, req.room);
      CandidateOpen(s, req.room);
      if JoinRoom(s, req.room, req.user).Joined? {
        JoinOpens(s, req.room, req.user, score);
      }
    } else {
      assert forall r: Name :: Next(l, req).lobby.store.Search(r) <==> l.store.Search(r);
    }
  }

  /** If every join leaves the choice of the room to the server, at most one room is open at any
      time, whoever leaves whatever. */
  lemma AutoJoinsKeepOneOpen(scores: map<Name, int>, states: seq<Lobby>, reqs: seq<Request>, n: nat)
    requires Run(states, reqs) && states[0] == Initial(scores) && n < |states|
    requires forall k :: 0 <= k < |reqs| ==> AutoOnly(reqs[k])
    ensures OneOpen(states[n].store)
  {
    for i := 0 to n
      invariant OneOpen(states[i].store)
    {
      assert Goes(states[i], reqs[i], states[i + 1]);
      ReachableInv(scores, states, reqs, i);
      StepKeepsOneOpen(states[i], reqs[i]);
    }
  }

  // ----- the sharp partition -----

  /** The set that lists a room tells its size, and lists it alone; unlisted rooms are empty. */
  ghost predicate SharpRoom(s: Store, room: Name) {
    var n := s.Count(room);
    && (room in s.single ==> n == 1 && room !in s.double && room !in s.triple && room !in s.invalid)
    && (room in s.double ==> n == 2 && room !in s.triple && room !in s.invalid)
    && (room in s.triple ==> n == 3 && room !in s.invalid)
    && (room in s.invalid ==> 1 <= n <= 3)
    && (n > 0 ==> s.Listed(room))
  }

  ghost predicate Sharp(s: Store) {
    forall room: Name :: SharpRoom(s, room)
  }

  /** The user is not seated in the room, or the room has been full. */
  predicate MayLeave(s: Store, room: Name, user: Name) {
    user in s.Roster(room) ==> Closed(s, room)
  }

  predicate Polite(l: Lobby, req: Request) {
    match req
    case Leave(user, room) => MayLeave(l.store, room, user)
    case AddRoom(_, user, _, _) => MayLeave(l.store, l.store.PlayerRoom(user), user)
    case _ => true
  }

  lemma LeaveKeepsSharp(s: Store, left: Name, user: Name)
    requires Sharp(s) && MayLeave(s, left, user)
    ensures Sharp(LeaveRoom(s, left, user))
    ensures forall r: Name :: s.Search(r) ==> LeaveRoom(s, left, user).Roster(r) == s.Roster(r)
  {
    LeaveRoomRosters(s, left, user);
    RemoveSize(s.Roster(left), user);
    EmptySize(s.Roster(left));
    forall r: Name
      ensures SharpRoom(LeaveRoom(s, left, user), r)
      ensures s.Search(r) ==> LeaveRoom(s, left, user).Roster(r) == s.Roster(r)
    {
      assert SharpRoom(s, r);
    }
  }

  /** A member who leaves an open room spoils it: its set no longer tells its size. */
  lemma LeaveSpoilsSharp(s: Store, left: Name, user: Name)
    requires SharpRoom(s, left) && !MayLeave(s, left, user)
    ensures var s' := LeaveRoom(s, left, user);
            && !SharpRoom(s', left) && s'.Count(left) == s.Count(left) - 1
            && s'.single == s.single && s'.double == s.double && s.Search(left)
            && s'.triple == s.triple && s'.invalid == s.invalid - if s.Count(left) == 1 then {left} else {}
  {
    LeaveRoomRosters(s, left, user);
    RemoveSize(s.Roster(left), user);
    EmptySize(s.Roster(left));
  }

  /** A leave keeps the sharp partition exactly when it takes no member out of an open room. */
  lemma LeaveKeepsSharpIff(s: Store, left: Name, user: Name)
    requires Sharp(s)
    ensures Sharp(LeaveRoom(s, left, user)) <==> MayLeave(s, left, user)
  {
    if MayLeave(s, left, user) {
      LeaveKeepsSharp(s, left, user);
    } else {
      assert SharpRoom(s, left);
      LeaveSpoilsSharp(s, left, user);
    }
  }

  lemma DepartKeepsSharp(l: Lobby, user: Name)
    requires Sharp(l.store) && MayLeave(l.store, l.store.PlayerRoom(user), user)
    ensures Sharp(Depart(l, user).store)
    ensures forall r: Name :: l.store.Search(r) ==> Depart(l, user).store.Roster(r) == l.store.Roster(r)
  {
    if l.store.PlayerRoom(user) != "" {
      LeaveKeepsSharp(l.store, l.store.PlayerRoom(user), user);
    }
  }

  lemma JoinKeepsSharp(s: Store, room: Name, user: Name, score: int)
    requires Sharp(s) && JoinRoom(s, room, user).Joined? && user !in s.Roster(room)
    ensures Sharp(JoinRoom(s, room, user).store.ZAdd(room, user, score))
  {
    JoinRosters(s, room, user, score);
    InsertSize(s.Roster(room), user, score);
    forall r: Name
      ensures SharpRoom(JoinRoom(s, room, user).store.ZAdd(room, user, score), r)
    {
      assert SharpRoom(s, r);
    }
  }

  lemma ScoreKeepsSharp(s: Store, room: Name, user: Name, score: int)
    requires Sharp(s) && user in s.Roster(room)
    ensures Sharp(s.ZAdd(room, user, score))
    ensures forall r: Name :: s.ZAdd(room, user, score).Count(r) == s.Count(r)
  {
    InsertSize(s.Roster(room), user, score);
    forall r: Name
      ensures SharpRoom(s.ZAdd(room, user, score), r)
    {
      assert SharpRoom(s, r);
    }
  }

  /** The one way to leave an open room and keep the partition: the only member of a single room joins it
      again. */
  predicate Rejoins(l: Lobby, user: Name, room: Name) {
    room == l.store.PlayerRoom(user) && user in l.store.Roster(room) && room in l.store.single
  }

  lemma RejoinKeepsSharp(s: Store, room: Name, user: Name, score: int)
    requires Sharp(s) && user in s.Roster(room) && room in s.single
    ensures var d := LeaveRoom(s, room, user);
            JoinRoom(d, room, user).Joined? && Sharp(JoinRoom(d, room, user).store.ZAdd(room, user, score))
  {
    assert SharpRoom(s, room);
    LeaveSpoilsSharp(s, room, user);
    LeaveRoomRosters(s, room, user);
    var d := LeaveRoom(s, room, user);
    JoinRosters(d, room, user, score);
    EmptySize(d.Roster(room));
    InsertSize(d.Roster(room), user, score);
    forall r: Name
      ensures SharpRoom(JoinRoom(d, room, user).store.ZAdd(room, user, score), r)
    {
      assert SharpRoom(s, r);
    }
  }

  /** Any other join after leaving an open room leaves that room, or makes it a triple of two. */
  lemma SpoiltStaysSpoilt(s: Store, left: Name, user: Name, room: Name, score: int)
    requires SharpRoom(s, left) && !MayLeave(s, left, user) && !(room == left && left in s.single)
    ensures var d := LeaveRoom(s, left, user);
            JoinRoom(d, room, user).Joined? ==>
              !SharpRoom(JoinRoom(d, room, user).store.ZAdd(room, user, score), left)
  {
    LeaveSpoilsSharp(s, left, user);
    LeaveRoomRosters(s, left, user);
    var d := LeaveRoom(s, left, user);
    if JoinRoom(d, room, user).Joined? {
      JoinRosters(d, room, user, score);
      InsertSize(d.Roster(room), user, score);
    }
  }

  lemma AddRoomKeepsSharpIff(l: Lobby, auto: bool, user: Name, conn: Conn, room: Name)
    requires Inv(l) && Legal(l, AddRoom(auto, user, conn, room)) && Sharp(l.store)
    requires HandleAddRoom(l, auto, user, conn, room).Done?
    ensures Sharp(HandleAddRoom(l, auto, user, conn, room).lobby.store)
            <==> MayLeave(l.store, l.store.PlayerRoom(user), user) || Rejoins(l, user, room)
  {
    var d := Depart(l, user);
    var left := l.store.PlayerRoom(user);
    var score := AddRoomStore(l, auto, user, conn, room);
    DepartKeepsInv(l, user);
    if MayLeave(l.store, left, user) {
      DepartKeepsSharp(l, user);
      if JoinRoom(d.store, room, user).Joined? {
        JoinKeepsSharp(d.store, room, user, score);
      }
    } else {
      assert SharpRoom(l.store, left) && PlaceOk(l, left);
      LeaveSpoilsSharp(l.store, left, user);
      if Rejoins(l, user, room) {
        RejoinKeepsSharp(l.store, room, user, score);
      } else {
        SpoiltStaysSpoilt(l.store, left, user, room, score);
      }
    }
  }

  /** Exactly when a step keeps the sharp partition. */
  predicate KeepsSharp(l: Lobby, req: Request) {
    match req
    case AddRoom(_, user, _, room) =>
      MayLeave(l.store, l.store.PlayerRoom(user), user) || Rejoins(l, user, room)
    case Leave(user, room) => MayLeave(l.store, room, user)
    case _ => true
  }

  lemma StepKeepsSharpIff(l: Lobby, req: Request)
    requires Inv(l) && Legal(l, req) && Next(l, req).Done? && Sharp(l.store)
    ensures Sharp(Next(l, req).lobby.store) <==> KeepsSharp(l, req)
  {
    match req
    case AddRoom(auto, user, conn, room) => AddRoomKeepsSharpIff(l, auto, user, conn, room);
    case Leave(user, room) => LeaveKeepsSharpIff(l.store, room, user);
    case GameOver(user, room, text) => ScoreKeepsSharp(l.store, room, user, Stoi(text).value);
    case _ =>
  }

  lemma SharpSoFar(scores: map<Name, int>, states: seq<Lobby>, reqs: seq<Request>, n: nat)
    requires Run(states, reqs) && states[0] == Initial(scores) && n < |states|
    requires forall k :: 0 <= k < |reqs| ==> KeepsSharp(states[k], reqs[k])
    ensures Sharp(states[n].store)
  {
    for i := 0 to n
      invariant Sharp(states[i].store)
    {
      assert Goes(states[i], reqs[i], states[i + 1]);
      ReachableInv(scores, states, reqs, i);
      StepKeepsSharpIff(states[i], reqs[i]);
    }
  }

  /** On a run from an empty lobby the four sets partition the occupied rooms and name their sizes in every
      state exactly when no step takes a member out of an open room, a rejoining single one excepted. */
  lemma SharpRunIff(scores: map<Name, int>, states: seq<Lobby>, reqs: seq<Request>)
    requires Run(states, reqs) && states[0] == Initial(scores)
    ensures (forall n :: 0 <= n < |states| ==> Sharp(states[n].store))
            <==> (forall k :: 0 <= k < |reqs| ==> KeepsSharp(states[k], reqs[k]))
  {
    if forall k :: 0 <= k < |reqs| ==> KeepsSharp(states[k], reqs[k]) {
      forall n | 0 <= n < |states|
        ensures Sharp(states[n].store)
      {
        SharpSoFar(scores, states, reqs, n);
      }
    }
    if forall n :: 0 <= n < |states| ==> Sharp(states[n].store) {
      forall k | 0 <= k < |reqs|
        ensures KeepsSharp(states[k], reqs[k])
      {
        assert Goes(states[k], reqs[k], states[k + 1]) && Sharp(states[k + 1].store);
        ReachableInv(scores, states, reqs, k);
        StepKeepsSharpIff(states[k], reqs[k]);
      }
    }
  }

  /** With a sharp partition a join without a name goes to a fullest open room. */
  lemma FullestFirst(l: Lobby, user: Name, conn: Conn, room: Name, other: Name)
    requires Sharp(Depart(l, user).store) && Picked(l, AddRoom(true, user, conn, room))
    requires Depart(l, user).store.Search(other)
    ensures var s := Depart(l, user).store; s.Search(room) && s.Count(other) <= s.Count(room)
  {
    var s := Depart(l, user).store;
    assert SharpRoom(s, room) && SharpRoom(s, other);
  }

  // ----- the list of connections follows Redis -----

  predicate NoContinue(req: Request) {
    !req.Continue?
  }

  ghost predicate Synced(l: Lobby) {
    forall room: Name :: SyncedAt(l, room)
  }

  ghost predicate SyncedAt(l: Lobby, room: Name) {
    GetPlayers(l.list, room).Keys == l.store.Roster(room).Keys
  }

  lemma LeaveKeepsSynced(l: Lobby, left: Name, user: Name)
    requires Inv(l) && Synced(l)
    ensures Synced(LeaveBoth(l, left, user))
  {
    LeaveRoomRosters(l.store, left, user);
    assert PlaceOk(l, left);
    forall room: Name
      ensures SyncedAt(LeaveBoth(l, left, user), room)
    {
      assert SyncedAt(l, room);
      RemovedKeys(l.list, left, user, room);
    }
  }

  lemma RegisterKeepsSynced(d: Lobby, l': Lobby, room: Name, user: Name, conn: Conn, score: int)
    requires Synced(d) && JoinRoom(d.store, room, user).Joined?
    requires l'.store == JoinRoom(d.store, room, user).store.ZAdd(room, user, score)
    requires l'.list == AddUser(d.list, room, user, conn)
    ensures Synced(l')
  {
    JoinRosters(d.store, room, user, score);
    forall r: Name
      ensures SyncedAt(l', r)
    {
      assert SyncedAt(d, r);
    }
  }

  lemma StepKeepsSynced(l: Lobby, req: Request)
    requires Inv(l) && Legal(l, req) && Next(l, req).Done?
    requires Synced(l) && NoContinue(req)
    ensures Synced(Next(l, req).lobby)
  {
    match req
    case AddRoom(auto, user, conn, room) =>
      if l.store.PlayerRoom(user) != "" {
        LeaveKeepsSynced(l, l.store.PlayerRoom(user), user);
      }
      var score := AddRoomStore(l, auto, user, conn, room);
      var l' := Next(l, req).lobby;
      if JoinRoom(Depart(l, user).store, room, user).Joined? {
        RegisterKeepsSynced(Depart(l, user), l', room, user, conn, score);
      }
    case Leave(user, room) => LeaveKeepsSynced(l, room, user);
    case GameOver(user, room, text) =>
      var l' := Next(l, req).lobby;
      forall r: Name
        ensures SyncedAt(l', r)
      {
        assert SyncedAt(l, r);
      }
    case _ =>
  }

  /** On runs without CONTINUE the connections listed for a room are those of its members. */
  lemma ListFollowsRedis(scores: map<Name, int>, states: seq<Lobby>, reqs: seq<Request>, n: nat)
    requires Run(states, reqs) && states[0] == Initial(scores) && n < |states|
    requires forall k :: 0 <= k < |reqs| ==> NoContinue(reqs[k])
    ensures Synced(states[n])
  {
    for i := 0 to n
      invariant Synced(states[i])
    {
      assert Goes(states[i], reqs[i], states[i + 1]);
      ReachableInv(scores, states, reqs, i);
      StepKeepsSynced(states[i], reqs[i]);
    }
  }

  /** In a state without CONTINUE, a bid or a played hand of a member goes to exactly the others. */
  lemma ForwardReachesOthers(l: Lobby, room: Name, user: Name, move: Move)
    requires Synced(l) && user in l.store.Roster(room)
    ensures var o := Next(l, Forward(user, room, move));
            o == Done(l, Effect(o.effect.notified, false, Forwarded(move)))
            && o.effect.notified.Keys == l.store.Roster(room).Keys - {user}
  {
    assert SyncedAt(l, room);
    var players := GetPlayers(l.list, room);
    if |players| <= 1 {
      assert players.Keys == {user} by {
        FullSubset({user}, players.Keys);
      }
    }
  }

  // ----- one game for every third join -----

  /** How many of the first n requests are joins, and how many of them started a game. */
  function Joins(reqs: seq<Request>, n: nat): nat
    requires n <= |reqs|
  {
    if n == 0 then 0 else Joins(reqs, n - 1) + if reqs[n - 1].AddRoom? then 1 else 0
  }

  function Started(states: seq<Lobby>, reqs: seq<Request>, n: nat): nat
    requires n <= |reqs| <= |states|
  {
    if n == 0 then 0
    else Started(states, reqs, n - 1) + if Starts(states[n - 1], reqs[n - 1]) then 1 else 0
  }

  /** The players waiting for a game: those of the open room, if there is one. */
  ghost predicate Waiting(s: Store, n: nat) {
    if n == 0 then forall room: Name :: !s.Search(room)
    else exists room: Name :: s.Search(room) && s.Count(room) == n
  }

  lemma SharpJoin(s: Store, room: Name, user: Name, score: int)
    requires SharpRoom(s, room) && user !in s.Roster(room)
    requires JoinRoom(s, room, user).Joined?
    ensures var s' := JoinRoom(s, room, user).store.ZAdd(room, user, score);
            && s'.Count(room) == s.Count(room) + 1
            && (s'.Search(room) <==> s'.Count(room) < 3)
  {
    InsertSize(s.Roster(room), user, score);
  }

  /** The seat that the next join takes: the open room's next one, or the first of a new room. */
  lemma NextSeat(s: Store, room: Name, user: Name, score: int, n: nat)
    requires Sharp(s) && OneOpen(s) && Waiting(s, n) && n < 3
    requires Candidate(s, room) && (s.double == {} && s.single == {} ==> !s.Exists(room))
    requires user !in s.Roster(room)
    requires JoinRoom(s, room, user).Joined?
    ensures var s' := JoinRoom(s, room, user).store.ZAdd(room, user, score);
            s'.Count(room) == n + 1 && Waiting(s', (n + 1) % 3)
  {
    assert SharpRoom(s, room);
    CandidateOpen(s, room);
    assert s.Count(room) == n by {
      if n > 0 {
        assert s.Search(room);
      } else {
        assert !s.Search(room);
      }
    }
    SharpJoin(s, room, user, score);
    JoinOpens(s, room, user, score);
    WaitingAfter(s, JoinRoom(s, room, user).store.ZAdd(room, user, score), room, n + 1);
  }

  lemma WaitingAfter(s: Store, s': Store, room: Name, n: nat)
    requires 0 < n <= 3 && s'.Count(room) == n && (s'.Search(room) <==> n < 3)
    requires forall r: Name :: r != room ==> (s'.Search(r) <==> s.Search(r))
    requires forall r: Name :: s.Search(r) ==> r == room
    ensures Waiting(s', n % 3)
  {
  }

  ghost predicate Tally(l: Lobby, joins: nat, starts: nat) {
    && Inv(l) && Sharp(l.store) && OneOpen(l.store) && Synced(l)
    && starts == joins / 3 && Waiting(l.store, joins % 3)
  }

  lemma DepartKeepsWaiting(l: Lobby, user: Name, n: nat)
    requires Sharp(l.store) && MayLeave(l.store, l.store.PlayerRoom(user), user)
    requires OneOpen(l.store) && Waiting(l.store, n)
    ensures OneOpen(Depart(l, user).store) && Waiting(Depart(l, user).store, n)
  {
    DepartKeepsSharp(l, user);
    DepartKeepsOpen(l, user);
    var s' := Depart(l, user).store;
    if n != 0 {
      var room: Name :| l.store.Search(room) && l.store.Count(room) == n;
      assert s'.Search(room) && s'.Count(room) == n;
    }
  }

  lemma JoinStarts(l: Lobby, user: Name, conn: Conn, room: Name)
    requires Inv(l) && Synced(l)
    requires Legal(l, AddRoom(true, user, conn, room))
    requires HandleAddRoom(l, true, user, conn, room).Done?
    ensures var o := HandleAddRoom(l, true, user, conn, room);
            o.effect.started <==> o.lobby.store.Count(room) == 3
  {
    var l' := HandleAddRoom(l, true, user, conn, room).lobby;
    StepKeepsSynced(l, AddRoom(true, user, conn, room));
    assert SyncedAt(l', room);
    assert |GetPlayers(l'.list, room).Keys| == |l'.store.Roster(room).Keys|;
    assert |GetPlayers(l'.list, room)| == |GetPlayers(l'.list, room).Keys|;
    assert |l'.store.Roster(room)| == |l'.store.Roster(room).Keys|;
  }

  lemma SeatedStore(l: Lobby, user: Name, conn: Conn, room: Name, n: nat)
    requires Inv(l) && Sharp(l.store) && OneOpen(l.store) && Waiting(l.store, n) && n < 3
    requires var req := AddRoom(true, user, conn, room);
             Legal(l, req) && Next(l, req).Done? && Polite(l, req)
    ensures var s' := HandleAddRoom(l, true, user, conn, room).lobby.store;
            s'.Count(room) == n + 1 && Waiting(s', (n + 1) % 3)
  {
    var d := Depart(l, user);
    DepartKeepsInv(l, user);
    DepartKeepsSharp(l, user);
    DepartKeepsWaiting(l, user, n);
    var score := AddRoomStore(l, true, user, conn, room);
    NextSeat(d.store, room, user, score, n);
  }

  lemma ThirdArithmetic(joins: nat)
    ensures (joins + 1) % 3 == (joins % 3 + 1) % 3
    ensures (joins + 1) / 3 == joins / 3 + if joins % 3 == 2 then 1 else 0
  {
  }

  lemma StepKeepsTally(l: Lobby, req: Request, joins: nat)
    requires Tally(l, joins, joins / 3)
    requires Legal(l, req) && Next(l, req).Done?
    requires AutoOnly(req) && Polite(l, req) && NoContinue(req)
    ensures var joins' := if req.AddRoom? then joins + 1 else joins;
            var starts' := joins / 3 + if Starts(l, req) then 1 else 0;
            Tally(Next(l, req).lobby, joins', starts')
  {
    StepKeepsInv(l, req);
    StepKeepsSharpIff(l, req);
    StepKeepsOneOpen(l, req);
    StepKeepsSynced(l, req);
    var s' := Next(l, req).lobby.store;
    match req
    case AddRoom(_, user, conn, room) =>
      SeatedStore(l, user, conn, room, joins % 3);
      JoinStarts(l, user, conn, room);
      ThirdArithmetic(joins);
    case Leave(user, room) =>
      LeaveKeepsSharp(l.store, room, user);
      assert forall r: Name :: s'.Search(r) <==> l.store.Search(r);
    case GameOver(user, room, text) =>
      ScoreKeepsSharp(l.store, room, user, Stoi(text).value);
      assert forall r: Name :: s'.Search(r) <==> l.store.Search(r);
    case _ =>
  }

  /** When all joins leave the room to the server, nobody leaves an open room and CONTINUE is not
      used: after k joins exactly k / 3 games were started, and the k % 3 players left over sit
      together in the one open room. */
  lemma EveryThirdJoinStarts(scores: map<Name, int>, states: seq<Lobby>, reqs: seq<Request>, n: nat)
    requires Run(states, reqs) && states[0] == Initial(scores) && n < |states|
    requires forall k :: 0 <= k < |reqs| ==>
                         AutoOnly(reqs[k]) && NoContinue(reqs[k]) && Polite(states[k], reqs[k])
    ensures Tally(states[n], Joins(reqs, n), Started(states, reqs, n))
  {
    InitialInv(scores);
    for i := 0 to n
      invariant Tally(states[i], Joins(reqs, i), Started(states, reqs, i))
    {
      assert Goes(states[i], reqs[i], states[i + 1]);
      StepKeepsTally(states[i], reqs[i], Joins(reqs, i));
    }
  }
}
