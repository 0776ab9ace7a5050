/** CONTINUE rounds in a full room whose three members stay, whatever else goes on in the lobby: a game
    starts exactly when all three have asked since the last start, in any order and with any repeats. */
module ContinueRounds {
  import opened RoomModel
  import opened RoomListModel
  import opened Lobby
  import opened LobbyInvariant
  import opened LobbySafety

  predicate Asks(req: Request, room: Name) {
    req.Continue? && req.room == room
  }

  /** A run of any requests, from a state in which the room's three members are listed, during which the
      room keeps these members. */
  ghost predicate Rounds(states: seq<Lobby>, reqs: seq<Request>, room: Name) {
    && Run(states, reqs) && Inv(states[0])
    && |states[0].store.Roster(room)| == 3
    && GetPlayers(states[0].list, room).Keys == states[0].store.Roster(room).Keys
    && forall k :: 0 <= k < |states| ==> SameMembers(states[0], states[k], room)
  }

  ghost predicate SameMembers(l: Lobby, l': Lobby, room: Name) {
    l'.store.Roster(room).Keys == l.store.Roster(room).Keys
  }

  /** The users who asked for this room from position i up to position j. */
  function Users(reqs: seq<Request>, room: Name, i: nat, j: nat): set<Name>
    requires i <= j <= |reqs|
  {
    set k | i <= k < j && Asks(reqs[k], room) :: reqs[k].user
  }

  predicate StartsHere(l: Lobby, req: Request, room: Name) {
    Asks(req, room) && Starts(l, req)
  }

  /** The position just after the last request before n that started a game in this room; 0 when none
      has. */
  function SinceStart(states: seq<Lobby>, reqs: seq<Request>, room: Name, n: nat): (k: nat)
    requires n <= |reqs| <= |states|
    ensures k <= n
  {
    if n == 0 then 0
    else if StartsHere(states[n - 1], reqs[n - 1], room) then n
    else SinceStart(states, reqs, room, n - 1)
  }

  function Listed(l: Lobby, room: Name): set<Name> {
    GetPlayers(l.list, room).Keys
  }

  /** The list holds the three members until one of them asks, and then those who have asked since the last
      start. */
  ghost predicate Collected(states: seq<Lobby>, reqs: seq<Request>, room: Name, n: nat)
    requires Rounds(states, reqs, room) && n <= |reqs|
  {
    var asked := Users(reqs, room, SinceStart(states, reqs, room, n), n);
    && Inv(states[n])
    && if asked == {} then Listed(states[n], room) == states[0].store.Roster(room).Keys
       else Listed(states[n], room) == asked && |asked| != 3 && asked <= states[0].store.Roster(room).Keys
  }

  lemma UsersSnoc(reqs: seq<Request>, room: Name, i: nat, j: nat)
    requires i <= j < |reqs|
    ensures Users(reqs, room, i, j + 1)
            == Users(reqs, room, i, j) + if Asks(reqs[j], room) then {reqs[j].user} else {}
  {
  }

  lemma UsersNone(reqs: seq<Request>, room: Name, i: nat)
    requires i <= |reqs|
    ensures Users(reqs, room, i, i) == {}
  {
  }

  // ----- what one request does to the list of the room -----

  lemma RestartKeys(m: RoomMap, user: Name, conn: Conn, room: Name)
    ensures GetPlayers(RestartList(m, user, conn, room), room).Keys
            == (if |GetPlayers(m, room)| == 3 then {} else GetPlayers(m, room).Keys) + {user}
  {
  }

  lemma AskStep(l: Lobby, req: Request, l': Lobby, room: Name)
    requires Asks(req, room) && Goes(l, req, l')
    ensures req.user in l.store.Roster(room)
    ensures Listed(l', room) == (if |Listed(l, room)| == 3 then {} else Listed(l, room)) + {req.user}
    ensures Starts(l, req) <==> |Listed(l', room)| == 3
  {
    RestartKeys(l.list, req.user, req.conn, room);
    assert |GetPlayers(l.list, room)| == |Listed(l, room)|;
    assert |GetPlayers(l'.list, room)| == |Listed(l', room)|;
  }

  lemma LeaveListed(l: Lobby, left: Name, user: Name, room: Name)
    requires Inv(l)
    ensures Listed(LeaveBoth(l, left, user), room) == Listed(l, room) - if room == left then {user} else {}
    ensures LeaveBoth(l, left, user).store.Roster(room)
            == if room == left then l.store.Roster(room) - {user} else l.store.Roster(room)
  {
    assert PlaceOk(l, left);
    assert left in l.list ==> l.list[left] != map[];
    RemovedKeys(l.list, left, user, room);
    LeaveRoomRosters(l.store, left, user);
  }

  /** A leave from a room that keeps its members does not touch its list. */
  lemma LeaveKeepsListed(l: Lobby, left: Name, user: Name, room: Name)
    requires Inv(l) && SameMembers(l, LeaveBoth(l, left, user), room)
    ensures Listed(LeaveBoth(l, left, user), room) == Listed(l, room)
  {
    LeaveListed(l, left, user, room);
    assert PlaceOk(l, room);
  }

  lemma FullIsClosed(l: Lobby, room: Name)
    requires PlaceOk(l, room) && l.store.Count(room) == 3
    ensures Closed(l.store, room) && room !in l.store.single && room !in l.store.double
  {
  }

  /** A member of a full room who departs cannot come back in the same request. */
  lemma NoWayBack(l: Lobby, user: Name, room: Name)
    requires Inv(l) && l.store.Count(room) == 3 && user in l.store.Roster(room)
    ensures user !in Depart(l, user).store.Roster(room)
    ensures !JoinRoom(Depart(l, user).store, room, user).Joined?
  {
    assert PlaceOk(l, room);
    FullIsClosed(l, room);
    DepartKeepsInv(l, user);
    LeaveDrains(l.store, room, user, room);
    LeaveListed(l, room, user, room);
    RemoveSize(l.store.Roster(room), user);
    assert PlaceOk(Depart(l, user), room);
  }

  lemma AddUserElsewhere(m: RoomMap, target: Name, user: Name, conn: Conn, room: Name)
    ensures target != room ==> GetPlayers(AddUser(m, target, user, conn), room) == GetPlayers(m, room)
  {
  }

  lemma MemberIsGone(l: Lobby, auto: bool, user: Name, conn: Conn, target: Name, room: Name)
    requires Inv(l) && Legal(l, AddRoom(auto, user, conn, target)) && l.store.Count(room) == 3
    requires HandleAddRoom(l, auto, user, conn, target).Done? && user in l.store.Roster(room)
    ensures user !in HandleAddRoom(l, auto, user, conn, target).lobby.store.Roster(room)
  {
    NoWayBack(l, user, room);
    var score := AddRoomStore(l, auto, user, conn, target);
    if JoinRoom(Depart(l, user).store, target, user).Joined? {
      JoinRosters(Depart(l, user).store, target, user, score);
    }
  }

  lemma OutsiderDeparts(l: Lobby, user: Name, room: Name)
    requires Inv(l) && user !in l.store.Roster(room)
    ensures Listed(Depart(l, user), room) == Listed(l, room)
    ensures Depart(l, user).store.Roster(room) == l.store.Roster(room)
  {
    var left := l.store.PlayerRoom(user);
    if left != "" {
      LeaveListed(l, left, user, room);
      NotThere(l.store.Roster(room), user);
      assert PlaceOk(l, room);
      NotListed(l, user, room);
    }
  }

  lemma NotThere(m: map<Name, int>, user: Name)
    requires user !in m
    ensures m - {user} == m && m - {} == m
  {
  }

  lemma NotListed(l: Lobby, user: Name, room: Name)
    requires PlaceOk(l, room) && user !in l.store.Roster(room)
    ensures user !in Listed(l, room)
  {
  }

  /** A join that leaves a full room its members does not touch its list and does not start its game. */
  lemma AddRoomKeepsListed(l: Lobby, auto: bool, user: Name, conn: Conn, target: Name, room: Name)
    requires Inv(l) && Legal(l, AddRoom(auto, user, conn, target)) && l.store.Count(room) == 3
    requires HandleAddRoom(l, auto, user, conn, target).Done?
    requires SameMembers(l, HandleAddRoom(l, auto, user, conn, target).lobby, room)
    ensures Listed(HandleAddRoom(l, auto, user, conn, target).lobby, room) == Listed(l, room)
    ensures target == room ==> !HandleAddRoom(l, auto, user, conn, target).effect.started
  {
    if user in l.store.Roster(room) {
      MemberIsGone(l, auto, user, conn, target, room);
      assert false;
    } else {
      var d := Depart(l, user);
      OutsiderDeparts(l, user, room);
      NobodyTold(l, user);
      var score := AddRoomStore(l, auto, user, conn, target);
      AddUserElsewhere(d.list, target, user, conn, room);
    }
  }

  /** A request of any kind other than CONTINUE for the room, in which the full room keeps its members, does
      not touch the room's list and starts no game in it. */
  lemma OtherStep(l: Lobby, req: Request, l': Lobby, room: Name)
    requires Inv(l) && Goes(l, req, l') && !Asks(req, room)
    requires l.store.Count(room) == 3 && SameMembers(l, l', room)
    ensures Listed(l', room) == Listed(l, room)
    ensures req.room == room ==> !Starts(l, req)
  {
    match req
    case AddRoom(auto, user, conn, target) =>
      AddRoomKeepsListed(l, auto, user, conn, target, room);
    case Leave(user, left) => LeaveKeepsListed(l, left, user, room);
    case Continue(user, conn, other) => RestartElsewhere(l.list, user, conn, other, room);
    case _ =>
  }

  lemma NobodyTold(l: Lobby, user: Name)
    requires Inv(l)
    ensures GetPlayers(Depart(l, user).list, "") == map[]
  {
    DepartKeepsInv(l, user);
    NobodyInNamelessRoom(Depart(l, user));
  }

  lemma RestartElsewhere(m: RoomMap, user: Name, conn: Conn, other: Name, room: Name)
    requires other != room
    ensures GetPlayers(RestartList(m, user, conn, other), room) == GetPlayers(m, room)
  {
  }

  // ----- rounds -----

  lemma NothingCollected(states: seq<Lobby>, reqs: seq<Request>, room: Name)
    requires Rounds(states, reqs, room)
    ensures Collected(states, reqs, room, 0)
  {
    UsersNone(reqs, room, 0);
  }

  lemma AskCollects(states: seq<Lobby>, reqs: seq<Request>, room: Name, n: nat)
    requires Rounds(states, reqs, room) && n < |reqs| && Collected(states, reqs, room, n)
    requires Asks(reqs[n], room)
    ensures var asked := Users(reqs, room, SinceStart(states, reqs, room, n), n + 1);
            && asked != {} && asked <= states[0].store.Roster(room).Keys
            && Listed(states[n + 1], room) == asked
            && (Starts(states[n], reqs[n]) <==> |asked| == 3)
  {
    assert Goes(states[n], reqs[n], states[n + 1]);
    assert SameMembers(states[0], states[n], room);
    AskStep(states[n], reqs[n], states[n + 1], room);
    UsersSnoc(reqs, room, SinceStart(states, reqs, room, n), n);
    assert |states[0].store.Roster(room).Keys| == |states[0].store.Roster(room)|;
  }

  lemma StepCollects(states: seq<Lobby>, reqs: seq<Request>, room: Name, n: nat)
    requires Rounds(states, reqs, room) && n < |reqs| && Collected(states, reqs, room, n)
    ensures Collected(states, reqs, room, n + 1)
  {
    var since := SinceStart(states, reqs, room, n);
    var members := states[0].store.Roster(room).Keys;
    assert |members| == |states[0].store.Roster(room)|;
    assert Goes(states[n], reqs[n], states[n + 1]);
    StepKeepsInv(states[n], reqs[n]);
    UsersSnoc(reqs, room, since, n);
    UsersNone(reqs, room, n + 1);
    if Asks(reqs[n], room) {
      AskCollects(states, reqs, room, n);
      if Starts(states[n], reqs[n]) {
        FullSubset(Listed(states[n + 1], room), members);
      }
    } else {
      assert SameMembers(states[0], states[n], room) && SameMembers(states[0], states[n + 1], room);
      assert |states[n].store.Roster(room).Keys| == states[n].store.Count(room);
      OtherStep(states[n], reqs[n], states[n + 1], room);
    }
  }

  lemma RoundCollects(states: seq<Lobby>, reqs: seq<Request>, room: Name, n: nat)
    requires Rounds(states, reqs, room) && n <= |reqs|
    ensures Collected(states, reqs, room, n)
  {
    NothingCollected(states, reqs, room);
    for i := 0 to n
      invariant Collected(states, reqs, room, i)
    {
      StepCollects(states, reqs, room, i);
    }
  }

  /** A CONTINUE for the room starts a game exactly when those who have asked since the previous start, its
      sender included, are all three members. */
  lemma StartsWhenAllContinued(states: seq<Lobby>, reqs: seq<Request>, room: Name, n: nat)
    requires Rounds(states, reqs, room) && n < |reqs| && Asks(reqs[n], room)
    ensures Starts(states[n], reqs[n])
            <==> Users(reqs, room, SinceStart(states, reqs, room, n), n + 1)
                 == states[0].store.Roster(room).Keys
  {
    RoundCollects(states, reqs, room, n);
    AskCollects(states, reqs, room, n);
    var members := states[0].store.Roster(room).Keys;
    assert |members| == |states[0].store.Roster(room)|;
    if Starts(states[n], reqs[n]) {
      FullSubset(Users(reqs, room, SinceStart(states, reqs, room, n), n + 1), members);
    }
  }

  /** No other request starts a game in the room. */
  lemma OnlyContinueStarts(states: seq<Lobby>, reqs: seq<Request>, room: Name, n: nat)
    requires Rounds(states, reqs, room) && n < |reqs| && reqs[n].room == room && Starts(states[n], reqs[n])
    ensures Asks(reqs[n], room)
  {
    RoundCollects(states, reqs, room, n);
    assert Goes(states[n], reqs[n], states[n + 1]);
    assert SameMembers(states[0], states[n], room) && SameMembers(states[0], states[n + 1], room);
    assert |states[n].store.Roster(room).Keys| == states[n].store.Count(room);
    if !Asks(reqs[n], room) {
      OtherStep(states[n], reqs[n], states[n + 1], room);
    }
  }
}
