/** The inductive invariant of the lobby and the exact conditions under which a request keeps it. */
module LobbyInvariant {
  import opened RoomModel
  import opened RoomListModel
  import opened Lobby
  import opened Scores

  /** How the four sets and the member count of one room fit together. `LeaveRoom` never cleans
      `single` or `double`, so both are upper bounds only and may overlap. */
  ghost predicate RoomOk(s: Store, room: Name) {
    var n := s.Count(room);
    && (room in s.single ==> n <= 1)
    && (room in s.double ==> n <= 2)
    && (room in s.triple ==> 2 <= n <= 3 && room !in s.single && room !in s.double && room !in s.invalid)
    && (room in s.invalid ==> 1 <= n <= 3 && room !in s.single && room !in s.double && room !in s.triple)
    && (n > 0 ==> s.Listed(room))
  }

  /** Every member's recorded room is this one, and their score is the database's. */
  ghost predicate MembersOk(l: Lobby, room: Name) {
    forall u <- l.store.Roster(room) ::
      && u in l.store.players && l.store.players[u] == room
      && u in l.scores && l.scores[u] == l.store.Roster(room)[u]
  }

  /** The in-memory list holds only members and never an empty room. */
  ghost predicate ListOk(l: Lobby, room: Name) {
    room in l.list ==> l.list[room] != map[] && l.list[room].Keys <= l.store.Roster(room).Keys
  }

  ghost predicate PlaceOk(l: Lobby, room: Name) {
    RoomOk(l.store, room) && MembersOk(l, room) && ListOk(l, room)
  }

  ghost predicate Inv(l: Lobby) {
    && (forall room: Name :: PlaceOk(l, room))
    && (forall u <- l.store.players :: l.store.players[u] != "")
    && !l.store.Listed("")
  }

  lemma RoomsOk(l: Lobby)
    requires Inv(l)
    ensures forall r: Name :: RoomOk(l.store, r)
  {
    forall r: Name
      ensures RoomOk(l.store, r)
    {
      assert PlaceOk(l, r);
    }
  }

  lemma RemoveSize<K, V>(m: map<K, V>, k: K)
    ensures k in m ==> |m - {k}| == |m| - 1
    ensures k !in m ==> m - {k} == m
  {
    assert (m - {k}).Keys == m.Keys - {k};
  }

  lemma InsertSize<K, V>(m: map<K, V>, k: K, v: V)
    ensures |m[k := v]| == if k in m then |m| else |m| + 1
    ensures |m[k := v]| >= 1
  {
    assert m[k := v].Keys == m.Keys + {k};
  }

  lemma EmptySize<K, V>(m: map<K, V>)
    ensures |m| == 0 <==> m == map[]
  {
    if |m| == 0 {
      assert m.Keys == {};
    }
  }

  lemma InitialInv(scores: map<Name, int>)
    ensures Inv(Initial(scores))
  {
  }

  // ----- leaving -----

  lemma LeaveRoomRosters(s: Store, room: Name, user: Name)
    ensures forall r: Name :: LeaveRoom(s, room, user).Roster(r)
                              == if r == room then s.Roster(r) - {user} else s.Roster(r)
  {
    EmptySize(s.Roster(room) - {user});
  }

  lemma LeaveKeepsRooms(s: Store, room: Name, user: Name)
    requires forall r: Name :: RoomOk(s, r)
    ensures forall r: Name :: RoomOk(LeaveRoom(s, room, user), r)
  {
    LeaveRoomRosters(s, room, user);
    RemoveSize(s.Roster(room), user);
    forall r: Name
      ensures RoomOk(LeaveRoom(s, room, user), r)
    {
      assert RoomOk(s, r);
    }
  }

  lemma RemovePlayerKeepsList(l: Lobby, room: Name, user: Name, r: Name)
    requires ListOk(l, r)
    ensures ListOk(LeaveBoth(l, room, user), r)
  {
    LeaveRoomRosters(l.store, room, user);
    if room in l.list {
      RemoveSize(l.list[room], user);
      EmptySize(l.list[room] - {user});
      EmptySize(l.list[room]);
    }
  }

  lemma RemovedKeys(m: RoomMap, left: Name, user: Name, room: Name)
    requires left in m ==> m[left] != map[]
    ensures GetPlayers(RemovePlayer(m, left, user), room).Keys
            == GetPlayers(m, room).Keys - if room == left then {user} else {}
  {
    if left in m {
      RemoveSize(m[left], user);
      EmptySize(m[left] - {user});
      EmptySize(m[left]);
    }
  }

  lemma LeaveKeepsInv(l: Lobby, room: Name, user: Name)
    requires Inv(l)
    ensures Inv(LeaveBoth(l, room, user))
  {
    var l' := LeaveBoth(l, room, user);
    RoomsOk(l);
    LeaveKeepsRooms(l.store, room, user);
    LeaveRoomRosters(l.store, room, user);
    forall r: Name
      ensures PlaceOk(l', r)
    {
      assert PlaceOk(l, r);
      RemovePlayerKeepsList(l, room, user, r);
    }
  }

  ghost predicate Nowhere(l: Lobby, user: Name) {
    forall r: Name :: user !in l.store.Roster(r)
  }

  /** After the departure that every join starts with, the user is a member of no room. */
  lemma DepartKeepsInv(l: Lobby, user: Name)
    requires Inv(l)
    ensures Inv(Depart(l, user)) && Nowhere(Depart(l, user), user)
    ensures Depart(l, user).scores == l.scores
  {
    var room := l.store.PlayerRoom(user);
    forall r: Name
      ensures user in l.store.Roster(r) ==> r == room && room != ""
    {
      assert PlaceOk(l, r);
    }
    if room != "" {
      LeaveKeepsInv(l, room, user);
      LeaveRoomRosters(l.store, room, user);
    }
  }

  // ----- joining -----

  lemma PromoteRosters(s: Store, room: Name)
    requires Promote(s, room).Joined?
    ensures Promote(s, room).store.members == s.members && Promote(s, room).store.players == s.players
  {
  }

  lemma JoinRosters(s: Store, room: Name, user: Name, score: int)
    requires JoinRoom(s, room, user).Joined?
    ensures var s' := JoinRoom(s, room, user).store.ZAdd(room, user, score);
            && (forall r: Name :: s'.Roster(r) == if r == room then s.Roster(r)[user := score] else s.Roster(r))
            && s'.players == s.players[user := room]
  {
    PromoteRosters(s, room);
  }

  lemma JoinKeepsRooms(s: Store, room: Name, user: Name, score: int)
    requires forall r: Name :: RoomOk(s, r)
    requires JoinRoom(s, room, user).Joined? && user !in s.Roster(room)
    ensures forall r: Name :: RoomOk(JoinRoom(s, room, user).store.ZAdd(room, user, score), r)
  {
    var s' := JoinRoom(s, room, user).store.ZAdd(room, user, score);
    JoinRosters(s, room, user, score);
    InsertSize(s.Roster(room), user, score);
    forall r: Name
      ensures RoomOk(s', r)
    {
      assert RoomOk(s, r);
    }
  }

  /** Writing one member's score keeps the member facts of a room, if record and score agree. */
  lemma WriteKeepsMembers(l: Lobby, l': Lobby, room: Name, user: Name, score: int, r: Name)
    requires MembersOk(l, r)
    requires l'.store.Roster(r) == if r == room then l.store.Roster(r)[user := score] else l.store.Roster(r)
    requires l'.store.players == l.store.players[user := room]
    requires user in l'.scores && l'.scores == l.scores[user := score]
    requires r != room ==> user !in l.store.Roster(r)
    ensures MembersOk(l', r)
  {
  }

  lemma AddUserKeepsList(l: Lobby, l': Lobby, room: Name, user: Name, score: int, conn: Conn, r: Name)
    requires ListOk(l, r)
    requires l'.store.Roster(r) == if r == room then l.store.Roster(r)[user := score] else l.store.Roster(r)
    requires l'.list == AddUser(l.list, room, user, conn)
    ensures ListOk(l', r)
  {
    if r == room {
      assert user in l'.list[r];
    }
  }

  lemma JoinLists(s: Store, room: Name, user: Name, other: Name)
    requires JoinRoom(s, room, user).Joined? && other != room
    ensures JoinRoom(s, room, user).store.Listed(other) <==> s.Listed(other)
  {
  }

  lemma JoinKeepsInv(d: Lobby, carried: int, user: Name, conn: Conn, room: Name)
    requires Inv(d) && Nowhere(d, user) && room != ""
    requires JoinRoom(d.store, room, user).Joined?
    requires carried != 0 ==> user in d.scores && d.scores[user] == carried
    requires var l := d.(store := JoinRoom(d.store, room, user).store);
             Register(l, carried, user, conn, room).Done?
    ensures var l := d.(store := JoinRoom(d.store, room, user).store);
            Inv(Register(l, carried, user, conn, room).lobby)
  {
    var l := d.(store := JoinRoom(d.store, room, user).store);
    var l' := Register(l, carried, user, conn, room).lobby;
    var score := d.scores[user];
    assert l'.store == l.store.ZAdd(room, user, score);
    RoomsOk(d);
    JoinRosters(d.store, room, user, score);
    JoinKeepsRooms(d.store, room, user, score);
    assert !l'.store.Listed("") by {
      JoinLists(d.store, room, user, "");
    }
    forall r: Name
      ensures PlaceOk(l', r)
    {
      assert PlaceOk(d, r);
      SeatKeepsPlace(d, l', room, user, score, conn, r);
    }
  }

  lemma SeatKeepsPlace(d: Lobby, l': Lobby, room: Name, user: Name, score: int, conn: Conn, r: Name)
    requires PlaceOk(d, r) && RoomOk(l'.store, r) && user !in d.store.Roster(r)
    requires l'.store.Roster(r) == if r == room then d.store.Roster(r)[user := score] else d.store.Roster(r)
    requires l'.store.players == d.store.players[user := room]
    requires user in d.scores && d.scores[user] == score && l'.scores == d.scores
    requires l'.list == AddUser(d.list, room, user, conn)
    ensures PlaceOk(l', r)
  {
    assert d.scores == d.scores[user := score];
    WriteKeepsMembers(d, l', room, user, score, r);
    AddUserKeepsList(d, l', room, user, score, conn, r);
  }

  lemma CarriedScore(l: Lobby, user: Name)
    requires Inv(l)
    ensures var carried := l.store.PlayerScore(l.store.PlayerRoom(user), user);
            carried != 0 ==> user in l.scores && l.scores[user] == carried
  {
    assert PlaceOk(l, l.store.PlayerRoom(user));
  }

  // ----- one step -----

  /** A pick that the code can make is a room the join admits, unless the name was drawn at random
      and happens to belong to an occupied room. */
  lemma CandidateJoins(s: Store, room: Name, user: Name)
    requires forall r: Name :: RoomOk(s, r)
    requires Candidate(s, room)
    ensures JoinRoom(s, room, user).Joined? <==> s.double != {} || s.single != {} || !s.Exists(room)
  {
    assert RoomOk(s, room);
  }

  lemma AddRoomKeepsInv(l: Lobby, auto: bool, user: Name, conn: Conn, room: Name)
    requires Inv(l) && Legal(l, AddRoom(auto, user, conn, room))
    requires HandleAddRoom(l, auto, user, conn, room).Done?
    ensures Inv(HandleAddRoom(l, auto, user, conn, room).lobby)
  {
    var d := Depart(l, user);
    DepartKeepsInv(l, user);
    CarriedScore(l, user);
    var carried := l.store.PlayerScore(l.store.PlayerRoom(user), user);
    RoomsOk(d);
    if auto {
      CandidateNamed(d.store, room);
      CandidateJoins(d.store, room, user);
    }
    if JoinRoom(d.store, room, user).Joined? {
      JoinKeepsInv(d, carried, user, conn, room);
    }
  }

  lemma CandidateNamed(s: Store, room: Name)
    requires Candidate(s, room) && !s.Listed("")
    ensures room != ""
  {
  }

  /** The room store after a join that did not crash: that of the departure, or one more member. */
  lemma AddRoomStore(l: Lobby, auto: bool, user: Name, conn: Conn, room: Name) returns (score: int)
    requires Inv(l) && Legal(l, AddRoom(auto, user, conn, room))
    requires HandleAddRoom(l, auto, user, conn, room).Done?
    ensures var d := Depart(l, user).store;
            var s' := HandleAddRoom(l, auto, user, conn, room).lobby.store;
            match JoinRoom(d, room, user)
            case Joined(j) => s' == j.ZAdd(room, user, score)
            case Full => s' == d && !auto
            case Aborted => false
  {
    var d := Depart(l, user);
    DepartKeepsInv(l, user);
    RoomsOk(d);
    if auto {
      CandidateJoins(d.store, room, user);
    }
    score := HandleAddRoom(l, auto, user, conn, room).lobby.store.PlayerScore(room, user);
  }

  /** When a GAME_OVER of a non-member is still harmless: the sender left this room last, has a
      database row, and the room's set leaves space for one more. */
  predicate GameOverFits(l: Lobby, user: Name, room: Name) {
    var n := l.store.Count(room);
    && user in l.scores
    && l.store.PlayerRoom(user) == room && room != ""
    && l.store.Listed(room)
    && (room in l.store.single ==> n < 1)
    && (room in l.store.double ==> n < 2)
    && n < 3
  }

  lemma GameOverKeepsPlace(l: Lobby, user: Name, room: Name, score: int, r: Name)
    requires PlaceOk(l, room) && PlaceOk(l, r)
    requires user in l.store.Roster(r) ==> l.store.players[user] == r
    requires user in l.store.Roster(room) || GameOverFits(l, user, room)
    ensures PlaceOk(HandleGameOver(l, user, room, score).lobby, r)
  {
    var l' := HandleGameOver(l, user, room, score).lobby;
    InsertSize(l.store.Roster(room), user, score);
    assert l.store.players == l.store.players[user := room];
    WriteKeepsMembers(l, l', room, user, score, r);
    assert RoomOk(l'.store, r);
    assert ListOk(l', r);
  }

  /** `update_player_score` is a `zadd`, so it inserts. GAME_OVER keeps the invariant exactly for
      members, and for non-members who would fit. */
  lemma GameOverKeepsInvIff(l: Lobby, user: Name, room: Name, score: int)
    requires Inv(l)
    ensures Inv(HandleGameOver(l, user, room, score).lobby)
            <==> user in l.store.Roster(room) || GameOverFits(l, user, room)
  {
    var l' := HandleGameOver(l, user, room, score).lobby;
    assert PlaceOk(l, room);
    if user in l.store.Roster(room) || GameOverFits(l, user, room) {
      forall r: Name
        ensures PlaceOk(l', r)
      {
        assert PlaceOk(l, r);
        GameOverKeepsPlace(l, user, room, score, r);
      }
    } else {
      InsertSize(l.store.Roster(room), user, score);
      assert user in l'.store.Roster(room);
      assert !PlaceOk(l', room);
    }
  }

  /** Neither is checked: in an empty lobby both requests spoil it, whoever sends them. */
  lemma OutsidersSpoil(scores: map<Name, int>, user: Name, conn: Conn, room: Name, score: int)
    ensures !Inv(HandleGameOver(Initial(scores), user, room, score).lobby)
    ensures !Inv(HandleContinue(Initial(scores), user, conn, room).lobby)
  {
    InitialInv(scores);
    GameOverKeepsInvIff(Initial(scores), user, room, score);
    ContinueKeepsInvIff(Initial(scores), user, conn, room);
  }

  lemma RestartKeepsList(l: Lobby, user: Name, conn: Conn, room: Name, r: Name)
    requires ListOk(l, r) && user in l.store.Roster(room)
    ensures ListOk(l.(list := RestartList(l.list, user, conn, room)), r)
  {
    if r == room {
      assert user in RestartList(l.list, user, conn, room)[r];
    }
  }

  /** CONTINUE keeps the invariant exactly when its sender is a member of the room. */
  lemma ContinueKeepsInvIff(l: Lobby, user: Name, conn: Conn, room: Name)
    requires Inv(l)
    ensures Inv(HandleContinue(l, user, conn, room).lobby) <==> user in l.store.Roster(room)
  {
    var l' := HandleContinue(l, user, conn, room).lobby;
    if user in l.store.Roster(room) {
      forall r: Name
        ensures PlaceOk(l', r)
      {
        assert PlaceOk(l, r);
        RestartKeepsList(l, user, conn, room, r);
      }
    } else {
      assert user in l'.list[room];
      assert !PlaceOk(l', room);
    }
  }

  lemma StepKeepsInv(l: Lobby, req: Request)
    requires Inv(l) && Legal(l, req) && Next(l, req).Done?
    ensures Inv(Next(l, req).lobby)
  {
    match req
    case AddRoom(auto, user, conn, room) => AddRoomKeepsInv(l, auto, user, conn, room);
    case Leave(user, room) => LeaveKeepsInv(l, room, user);
    case GameOver(user, room, text) => GameOverKeepsInvIff(l, user, room, Stoi(text).value);
    case Continue(user, conn, room) => ContinueKeepsInvIff(l, user, conn, room);
    case _ =>
  }

  lemma RunKeepsInv(states: seq<Lobby>, reqs: seq<Request>, n: nat)
    requires Run(states, reqs) && Inv(states[0]) && n < |states|
    ensures Inv(states[n])
  {
    for i := 0 to n
      invariant Inv(states[i])
    {
      assert Goes(states[i], reqs[i], states[i + 1]);
      StepKeepsInv(states[i], reqs[i]);
    }
  }

  /** Every state of every run from an empty lobby satisfies the invariant. */
  lemma ReachableInv(scores: map<Name, int>, states: seq<Lobby>, reqs: seq<Request>, n: nat)
    requires Run(states, reqs) && states[0] == Initial(scores) && n < |states|
    ensures Inv(states[n])
  {
    InitialInv(scores);
    RunKeepsInv(states, reqs, n);
  }
}
