/** What the invariant buys: exact outcomes of joins and searches, closed rosters, and games that
    start only with three players. */
module LobbySafety {
  import opened RoomModel
  import opened RoomListModel
  import opened Lobby
  import opened LobbyInvariant

  /** A user is a member of at most one room, the one recorded for them. */
  lemma OneRoomEach(l: Lobby, user: Name, r1: Name, r2: Name)
    requires Inv(l) && user in l.store.Roster(r1) && user in l.store.Roster(r2)
    ensures r1 == r2 == l.store.PlayerRoom(user)
    ensures user in l.scores && l.store.Roster(r1)[user] == l.scores[user]
  {
    assert PlaceOk(l, r1) && PlaceOk(l, r2);
  }

  // ----- searching and joining -----

  /** `search_room` says yes to an occupied room exactly when a join is let in. An unoccupied name
      is always let in, whatever the search says. */
  lemma SearchExact(s: Store, room: Name, user: Name)
    requires RoomOk(s, room)
    ensures s.Exists(room) ==> (s.Search(room) <==> JoinRoom(s, room, user).Joined?)
    ensures !s.Exists(room) ==> JoinRoom(s, room, user).Joined?
    ensures JoinRoom(s, room, user).Full? <==> s.Count(room) == 3
  {
  }

  ghost predicate MemberAfter(o: Outcome, user: Name, room: Name) {
    o.Done? && user in o.lobby.store.Roster(room)
  }

  /** A join without a room name ends with the user seated and the invariant intact exactly when
      there was an open room to pick or the drawn name was unoccupied. */
  lemma AutoJoinExact(l: Lobby, user: Name, conn: Conn, room: Name)
    requires Inv(l) && user in l.scores
    requires Candidate(Depart(l, user).store, room)
    ensures var s := Depart(l, user).store;
            var o := HandleAddRoom(l, true, user, conn, room);
            (MemberAfter(o, user, room) && Inv(o.lobby))
            <==> s.double != {} || s.single != {} || !s.Exists(room)
  {
    var d := Depart(l, user);
    var o := HandleAddRoom(l, true, user, conn, room);
    DepartKeepsInv(l, user);
    RoomsOk(d);
    CandidateJoins(d.store, room, user);
    if JoinRoom(d.store, room, user).Joined? {
      assert Legal(l, AddRoom(true, user, conn, room));
      AddRoomKeepsInv(l, true, user, conn, room);
    } else if o.Done? {
      var score := o.lobby.store.Roster(room)[user];
      InsertSize(d.store.Roster(room), user, score);
      assert !PlaceOk(o.lobby, room);
    }
  }

  /** The three ends of a join by room name: seated, turned away because three are inside, or the
      failed assertion for a closed room with a free seat. A turned-away user has left their old
      room all the same. */
  lemma NamedJoinExact(l: Lobby, user: Name, conn: Conn, room: Name)
    requires Inv(l) && user in l.scores && room != ""
    ensures var s := Depart(l, user).store;
            var o := HandleAddRoom(l, false, user, conn, room);
            && (MemberAfter(o, user, room) <==> s.Search(room) || !s.Exists(room))
            && (o.Crash? <==> s.Count(room) < 3 && (room in s.triple || room in s.invalid))
            && (o.Done? && !MemberAfter(o, user, room) ==> s.Count(room) == 3 && o.lobby == Depart(l, user))
  {
    DepartKeepsInv(l, user);
    assert PlaceOk(Depart(l, user), room);
    SearchExact(Depart(l, user).store, room, user);
  }

  /** The FAILED reply of a refused join is sent to the list of the empty room name: to nobody. */
  lemma RefusalReachesNobody(l: Lobby, user: Name, conn: Conn, room: Name)
    requires Inv(l) && JoinRoom(Depart(l, user).store, room, user).Full?
    ensures HandleAddRoom(l, false, user, conn, room) == Done(Depart(l, user), Effect(map[], false, JoinFailed))
  {
    DepartKeepsInv(l, user);
    assert PlaceOk(Depart(l, user), "");
  }

  lemma NobodyInNamelessRoom(l: Lobby)
    requires Inv(l)
    ensures GetPlayers(l.list, "") == map[]
  {
    assert PlaceOk(l, "");
  }

  /** A join by name that does not crash keeps the lobby consistent exactly when the name is not empty. */
  lemma NamedJoinKeepsInvIff(l: Lobby, user: Name, conn: Conn, room: Name)
    requires Inv(l) && user in l.scores && HandleAddRoom(l, false, user, conn, room).Done?
    ensures Inv(HandleAddRoom(l, false, user, conn, room).lobby) <==> room != ""
  {
    var l' := HandleAddRoom(l, false, user, conn, room).lobby;
    if room != "" {
      assert Legal(l, AddRoom(false, user, conn, room));
      AddRoomKeepsInv(l, false, user, conn, room);
    } else {
      DepartKeepsInv(l, user);
      NobodyInNamelessRoom(Depart(l, user));
      assert PlaceOk(Depart(l, user), "");
      assert JoinRoom(Depart(l, user).store, "", user).Joined?;
      assert l'.store.players[user] == "";
    }
  }

  /** An empty room name is stored like any other, but a later join takes it for "no room": the
      user is then a member of two rooms. */
  lemma EmptyRoomNameSeatsTwice(user: Name, conn: Conn)
    ensures var l0 := Initial(map[user := 0]);
            var o1 := HandleAddRoom(l0, false, user, conn, "");
            && o1.Done?
            && var o2 := HandleAddRoom(o1.lobby, false, user, conn, "123456");
               MemberAfter(o2, user, "") && MemberAfter(o2, user, "123456")
  {
    var l0 := Initial(map[user := 0]);
    var o1 := HandleAddRoom(l0, false, user, conn, "");
    assert o1.lobby.store.Roster("") == map[user := 0];
    assert !o1.lobby.store.Exists("123456");
  }

  // ----- starting a game -----

  lemma FullSubset(small: set<Name>, large: set<Name>)
    requires small <= large && |large| <= |small|
    ensures small == large
  {
    assert |large - small| == |large| - |small|;
  }

  ghost predicate PlayableRoom(l: Lobby, room: Name) {
    && l.store.Count(room) == 3
    && GetPlayers(l.list, room).Keys == l.store.Roster(room).Keys
    && (room in l.store.triple || room in l.store.invalid)
  }

  lemma ThreeListedIsPlayable(l: Lobby, room: Name)
    requires PlaceOk(l, room) && |GetPlayers(l.list, room)| == 3
    ensures PlayableRoom(l, room)
  {
    FullSubset(l.list[room].Keys, l.store.Roster(room).Keys);
    assert |l.list[room].Keys| == 3;
    assert |l.store.Roster(room).Keys| == l.store.Count(room);
    CountBound(l.store, room);
  }

  lemma CountBound(s: Store, room: Name)
    requires RoomOk(s, room)
    ensures s.Count(room) <= 3
  {
  }

  /** From a join or from CONTINUE, `start_game` runs only for a room whose three listed players are
      exactly its three members, and which no longer admits anyone. */
  lemma StartsOnlyFullRooms(l: Lobby, req: Request)
    requires Inv(l) && Legal(l, req) && Starts(l, req)
    ensures req.AddRoom? || req.Continue?
    ensures PlayableRoom(Next(l, req).lobby, req.room)
  {
    StepKeepsInv(l, req);
    if req.AddRoom? {
      DepartKeepsInv(l, req.user);
      NobodyInNamelessRoom(Depart(l, req.user));
    }
    assert PlaceOk(Next(l, req).lobby, req.room);
    ThreeListedIsPlayable(Next(l, req).lobby, req.room);
  }

  // ----- a closed roster only drains -----

  predicate Closed(s: Store, room: Name) {
    room in s.triple || room in s.invalid
  }

  predicate Gone(s: Store, room: Name) {
    !s.Listed(room) && !s.Exists(room)
  }

  lemma LeaveDrains(s: Store, left: Name, user: Name, room: Name)
    requires RoomOk(s, room) && Closed(s, room)
    ensures var s' := LeaveRoom(s, left, user);
            && s'.Roster(room).Keys <= s.Roster(room).Keys
            && (if Closed(s', room) then room in s.invalid ==> room in s'.invalid
                else Gone(s', room) && left == room && s.Roster(room).Keys == {user})
  {
    LeaveRoomRosters(s, left, user);
    RemoveSize(s.Roster(room), user);
    EmptySize(s.Roster(room) - {user});
  }

  /** A join never adds to a room that was closed and occupied; elsewhere it changes nothing. */
  lemma JoinAvoidsClosed(s: Store, target: Name, user: Name, score: int, room: Name)
    requires RoomOk(s, room) && JoinRoom(s, target, user).Joined?
    requires Closed(s, room) || Gone(s, room)
    ensures var s' := JoinRoom(s, target, user).store.ZAdd(target, user, score);
            if target == room then Gone(s, room) && s'.Roster(room).Keys == {user} && room in s'.single
            else s'.Roster(room) == s.Roster(room)
                 && (room in s'.triple <==> room in s.triple)
                 && (room in s'.invalid <==> room in s.invalid)
                 && (s'.Listed(room) <==> s.Listed(room))
  {
    JoinRosters(s, target, user, score);
    EmptySize(s.Roster(room));
  }

  /** What one step may do to a closed room. */
  ghost predicate OnlyDrains(s: Store, s': Store, room: Name) {
    || (Closed(s', room) && s'.Roster(room).Keys <= s.Roster(room).Keys
        && (room in s.invalid ==> room in s'.invalid))
    || Gone(s', room)
  }

  ghost predicate Reopened(s: Store, s': Store, room: Name, user: Name) {
    s.Roster(room).Keys == {user} && s'.Roster(room).Keys == {user} && room in s'.single
  }

  lemma AddRoomOnlyDrains(l: Lobby, auto: bool, user: Name, conn: Conn, target: Name, room: Name)
    requires Inv(l) && Legal(l, AddRoom(auto, user, conn, target))
    requires HandleAddRoom(l, auto, user, conn, target).Done?
    requires Closed(l.store, room)
    ensures var s' := HandleAddRoom(l, auto, user, conn, target).lobby.store;
            OnlyDrains(l.store, s', room) || (target == room && Reopened(l.store, s', room, user))
  {
    var d := Depart(l, user);
    DepartKeepsInv(l, user);
    assert PlaceOk(l, room) && PlaceOk(d, room);
    LeaveDrains(l.store, l.store.PlayerRoom(user), user, room);
    var score := AddRoomStore(l, auto, user, conn, target);
    if JoinRoom(d.store, target, user).Joined? {
      JoinAvoidsClosed(d.store, target, user, score, room);
    }
  }

  /** One step from a closed room: it stays closed with no new member and never returns from invalid
      to triple, or its last member leaves and it is gone, or that last member leaves and reopens
      the name in the same request. */
  lemma ClosedOnlyDrains(l: Lobby, req: Request, room: Name)
    requires Inv(l) && Legal(l, req) && Next(l, req).Done?
    requires Closed(l.store, room)
    ensures var s' := Next(l, req).lobby.store;
            || OnlyDrains(l.store, s', room)
            || (req.AddRoom? && req.room == room && Reopened(l.store, s', room, req.user))
  {
    assert PlaceOk(l, room);
    match req
    case AddRoom(auto, user, conn, target) => AddRoomOnlyDrains(l, auto, user, conn, target, room);
    case Leave(user, left) => LeaveDrains(l.store, left, user, room);
    case _ =>
  }

  lemma StillClosed(l: Lobby, req: Request, l': Lobby, room: Name)
    requires Inv(l) && Goes(l, req, l')
    requires Closed(l.store, room) && Closed(l'.store, room)
    ensures Inv(l') && l'.store.Roster(room).Keys <= l.store.Roster(room).Keys
  {
    StepKeepsInv(l, req);
    assert PlaceOk(l', room);
    ClosedOnlyDrains(l, req, room);
  }

  /** Over a whole run: while a room stays closed its members are among those it had. */
  lemma ClosedRunOnlyDrains(states: seq<Lobby>, reqs: seq<Request>, room: Name, n: nat)
    requires Run(states, reqs) && Inv(states[0]) && n < |states|
    requires forall k :: 0 <= k < |states| ==> Closed(states[k].store, room)
    ensures Inv(states[n])
    ensures states[n].store.Roster(room).Keys <= states[0].store.Roster(room).Keys
  {
    for i := 0 to n
      invariant Inv(states[i])
      invariant states[i].store.Roster(room).Keys <= states[0].store.Roster(room).Keys
    {
      StillClosed(states[i], reqs[i], states[i + 1], room);
    }
  }
}
