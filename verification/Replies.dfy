/** What the requests do and tell, as the members of a room see it: who is told, over which connection, and
    what the answer says. */
module Replies {
  import opened RoomModel
  import opened RoomListModel
  import opened Text
  import opened Scores
  import opened Lobby
  import opened LobbyInvariant
  import opened LobbySafety
  import opened Matchmaking

  // ----- the list of a room that admits players -----

  /** CONTINUE takes players off the list of full rooms only: elsewhere the listed are the members. */
  ghost predicate OpenSynced(l: Lobby) {
    forall room: Name :: !Closed(l.store, room) ==> SyncedAt(l, room)
  }

  lemma OpenIsSmall(l: Lobby, room: Name)
    requires PlaceOk(l, room) && !Closed(l.store, room) && SyncedAt(l, room)
    ensures |GetPlayers(l.list, room)| == l.store.Count(room) <= 2
  {
    assert |GetPlayers(l.list, room)| == |GetPlayers(l.list, room).Keys|;
    assert l.store.Count(room) == |l.store.Roster(room).Keys|;
  }

  lemma LeaveKeepsOpenSynced(l: Lobby, left: Name, user: Name)
    requires Inv(l) && OpenSynced(l)
    ensures OpenSynced(LeaveBoth(l, left, user))
  {
    var l' := LeaveBoth(l, left, user);
    LeaveKeepsInv(l, left, user);
    LeaveRoomRosters(l.store, left, user);
    assert PlaceOk(l, left);
    forall room: Name | !Closed(l'.store, room)
      ensures SyncedAt(l', room)
    {
      assert PlaceOk(l, room) && PlaceOk(l', room);
      RemovedKeys(l.list, left, user, room);
      if Closed(l.store, room) {
        LeaveDrains(l.store, left, user, room);
        EmptySize(l'.store.Roster(room));
      } else {
        assert SyncedAt(l, room);
      }
    }
  }

  lemma SeatKeepsOpenSynced(d: Lobby, l': Lobby, room: Name, user: Name, conn: Conn, score: int)
    requires Inv(d) && OpenSynced(d) && JoinRoom(d.store, room, user).Joined?
    requires l'.store == JoinRoom(d.store, room, user).store.ZAdd(room, user, score)
    requires l'.list == AddUser(d.list, room, user, conn)
    ensures OpenSynced(l') && SyncedAt(l', room)
  {
    JoinRosters(d.store, room, user, score);
    assert PlaceOk(d, room);
    assert SyncedAt(d, room) by {
      EmptySize(d.store.Roster(room));
    }
    forall r: Name | !Closed(l'.store, r) || r == room
      ensures SyncedAt(l', r)
    {
      assert r != room ==> (Closed(d.store, r) <==> Closed(l'.store, r));
      assert r != room ==> (Closed(d.store, r) || SyncedAt(d, r));
    }
  }

  lemma AddRoomKeepsOpenSynced(l: Lobby, auto: bool, user: Name, conn: Conn, room: Name)
    requires Inv(l) && OpenSynced(l) && Legal(l, AddRoom(auto, user, conn, room))
    requires HandleAddRoom(l, auto, user, conn, room).Done?
    ensures var o := HandleAddRoom(l, auto, user, conn, room);
            OpenSynced(o.lobby) && (MemberAfter(o, user, room) ==> SyncedAt(o.lobby, room))
  {
    var d := Depart(l, user);
    DepartKeepsInv(l, user);
    if l.store.PlayerRoom(user) != "" {
      LeaveKeepsOpenSynced(l, l.store.PlayerRoom(user), user);
    }
    var score := AddRoomStore(l, auto, user, conn, room);
    if JoinRoom(d.store, room, user).Joined? {
      SeatKeepsOpenSynced(d, HandleAddRoom(l, auto, user, conn, room).lobby, room, user, conn, score);
    }
  }

  lemma ContinueKeepsOpenSynced(l: Lobby, user: Name, conn: Conn, room: Name)
    requires Inv(l) && OpenSynced(l) && user in l.store.Roster(room)
    ensures OpenSynced(HandleContinue(l, user, conn, room).lobby)
  {
    var l' := HandleContinue(l, user, conn, room).lobby;
    forall r: Name | !Closed(l'.store, r)
      ensures SyncedAt(l', r)
    {
      assert PlaceOk(l, r) && SyncedAt(l, r);
      OpenIsSmall(l, r);
    }
  }

  lemma ScoreKeepsOpenSynced(l: Lobby, user: Name, room: Name, score: int)
    requires OpenSynced(l) && user in l.store.Roster(room)
    ensures OpenSynced(HandleGameOver(l, user, room, score).lobby)
  {
    forall r: Name | !Closed(l.store, r)
      ensures SyncedAt(HandleGameOver(l, user, room, score).lobby, r)
    {
      assert SyncedAt(l, r);
    }
  }

  lemma StepKeepsOpenSynced(l: Lobby, req: Request)
    requires Inv(l) && OpenSynced(l) && Legal(l, req) && Next(l, req).Done?
    ensures OpenSynced(Next(l, req).lobby)
  {
    match req
    case AddRoom(auto, user, conn, room) => AddRoomKeepsOpenSynced(l, auto, user, conn, room);
    case Leave(user, room) => LeaveKeepsOpenSynced(l, room, user);
    case GameOver(user, room, text) => ScoreKeepsOpenSynced(l, user, room, Stoi(text).value);
    case Continue(user, conn, room) => ContinueKeepsOpenSynced(l, user, conn, room);
    case _ =>
  }

  /** Over every legal run, CONTINUE included. */
  lemma OpenRoomsAreSynced(scores: map<Name, int>, states: seq<Lobby>, reqs: seq<Request>, n: nat)
    requires Run(states, reqs) && states[0] == Initial(scores) && n < |states|
    ensures Inv(states[n]) && OpenSynced(states[n])
  {
    InitialInv(scores);
    for i := 0 to n
      invariant Inv(states[i]) && OpenSynced(states[i])
    {
      assert Goes(states[i], reqs[i], states[i + 1]);
      StepKeepsInv(states[i], reqs[i]);
      StepKeepsOpenSynced(states[i], reqs[i]);
    }
  }

  // ----- answers -----

  /** After a join that seats, exactly the members of the room are told how many they are, the newcomer over
      the connection of the request; and a game starts exactly when they are three. */
  lemma JoinTellsMembers(l: Lobby, auto: bool, user: Name, conn: Conn, room: Name)
    requires Inv(l) && OpenSynced(l) && Legal(l, AddRoom(auto, user, conn, room))
    requires MemberAfter(HandleAddRoom(l, auto, user, conn, room), user, room)
    ensures var o := HandleAddRoom(l, auto, user, conn, room);
            && o.effect.notified.Keys == o.lobby.store.Roster(room).Keys
            && user in o.effect.notified && o.effect.notified[user] == conn
            && o.effect.reply == JoinRoomOk(|o.effect.notified|, room)
            && (o.effect.started <==> o.lobby.store.Count(room) == 3)
  {
    var o := HandleAddRoom(l, auto, user, conn, room);
    AddRoomKeepsOpenSynced(l, auto, user, conn, room);
    DepartKeepsInv(l, user);
    assert PlaceOk(Depart(l, user), room) && SyncedAt(o.lobby, room);
    assert |GetPlayers(o.lobby.list, room).Keys| == |o.lobby.store.Roster(room).Keys|;
    assert |GetPlayers(o.lobby.list, room)| == |GetPlayers(o.lobby.list, room).Keys|;
    assert |o.lobby.store.Roster(room)| == |o.lobby.store.Roster(room).Keys|;
  }

  /** Hence, with a sharp partition, a join without a name completes a waiting pair, if there is one. */
  lemma PairIsCompleted(l: Lobby, user: Name, conn: Conn, room: Name, pair: Name)
    requires Inv(l) && OpenSynced(l) && Sharp(Depart(l, user).store)
    requires Legal(l, AddRoom(true, user, conn, room)) && HandleAddRoom(l, true, user, conn, room).Done?
    requires Depart(l, user).store.Search(pair) && Depart(l, user).store.Count(pair) == 2
    ensures var o := HandleAddRoom(l, true, user, conn, room);
            o.effect.started && o.lobby.store.Count(room) == 3 && Depart(l, user).store.Count(room) == 2
  {
    var d := Depart(l, user);
    DepartKeepsInv(l, user);
    FullestFirst(l, user, conn, room, pair);
    assert PlaceOk(d, room);
    SearchExact(d.store, room, user);
    var score := AddRoomStore(l, true, user, conn, room);
    JoinRosters(d.store, room, user, score);
    InsertSize(d.store.Roster(room), user, score);
    JoinTellsMembers(l, true, user, conn, room);
  }

  /** A leave tells exactly the members who stay how many they are, each over the connection listed, if the
      listed were the members. */
  lemma LeaveTellsTheRest(l: Lobby, user: Name, room: Name)
    requires Inv(l) && SyncedAt(l, room)
    ensures var o := Next(l, Leave(user, room));
            && o.Done? && !o.effect.started
            && o.effect.notified.Keys == l.store.Roster(room).Keys - {user}
            && o.lobby.store.Roster(room).Keys == l.store.Roster(room).Keys - {user}
            && o.effect.reply == OtherLeaveRoom(|l.store.Roster(room).Keys - {user}|)
            && (forall u <- o.effect.notified :: o.effect.notified[u] == l.list[room][u])
  {
    var o := Next(l, Leave(user, room));
    assert PlaceOk(l, room);
    LeaveRoomRosters(l.store, room, user);
    RemovedKeys(l.list, room, user, room);
    assert |o.effect.notified| == |o.effect.notified.Keys|;
  }

  /** A score held in the old room is carried to the new one, database row or not; without one the row is
      read, and must be there. */
  lemma ScoreIsCarried(l: Lobby, auto: bool, user: Name, conn: Conn, room: Name)
    requires JoinRoom(Depart(l, user).store, room, user).Joined?
    ensures var o := HandleAddRoom(l, auto, user, conn, room);
            var held := l.store.Roster(l.store.PlayerRoom(user));
            if user in held && held[user] != 0 then o.Done? && o.lobby.store.Roster(room)[user] == held[user]
            else if user in l.scores then o.Done? && o.lobby.store.Roster(room)[user] == l.scores[user]
            else o == Crash
  {
  }

  /** The answer to a search says of an occupied room whether a join is let in, and changes nothing. */
  lemma SearchTellsAdmission(l: Lobby, room: Name, user: Name)
    requires Inv(l) && l.store.Exists(room)
    ensures var o := Next(l, Search(room));
            && o == Done(l, Effect(map[], false, SearchRoomOk(JoinRoom(l.store, room, user).Joined?)))
  {
    assert PlaceOk(l, room);
    SearchExact(l.store, room, user);
  }

  /** A GAME_OVER writes the number its text begins with to the room, and to the database where there is a
      row; the list stays. */
  lemma GameOverWritesScore(l: Lobby, user: Name, room: Name, i: int, rest: string)
    requires -0x8000_0000 <= i < 0x8000_0000 && (rest == [] || !IsDigit(rest[0]))
    ensures var o := Next(l, GameOver(user, room, IntText(i) + rest));
            && o.Done? && o.lobby.list == l.list && o.lobby.store.players == l.store.players
            && o.lobby.store.Roster(room) == l.store.Roster(room)[user := i]
            && (forall r: Name :: r != room ==> o.lobby.store.Roster(r) == l.store.Roster(r))
            && o.lobby.scores == if user in l.scores then l.scores[user := i] else l.scores
  {
    assert Stoi(IntText(i) + rest).Some? && Stoi(IntText(i) + rest).value == i by {
      assert [] + (IntText(i) + rest) == IntText(i) + rest;
      StoiReads([], i, rest);
    }
  }

  /** A text without a number, or with one that does not fit, crashes. */
  lemma GameOverWithoutNumber(l: Lobby, user: Name, room: Name, i: int, rest: string)
    requires rest == [] || !(IsDigit(rest[0]) || IsSpace(rest[0]) || rest[0] == '-' || rest[0] == '+')
    requires !(-0x8000_0000 <= i < 0x8000_0000)
    ensures Next(l, GameOver(user, room, rest)) == Crash
    ensures Next(l, GameOver(user, room, IntText(i) + rest)) == Crash
  {
    assert Stoi(rest).None? by {
      assert [] + rest == rest;
      StoiFails([], rest);
    }
    assert Stoi(IntText(i) + rest).None? by {
      assert [] + (IntText(i) + rest) == IntText(i) + rest;
      StoiReads([], i, rest);
    }
  }

  /** A bid or a hand goes to the listed others of a listed player, and to nobody for anyone else. */
  lemma ForwardExact(l: Lobby, user: Name, room: Name, move: Move)
    ensures var listed := GetPlayers(l.list, room);
            var o := Next(l, Forward(user, room, move));
            && o == Done(l, Effect(o.effect.notified, false, Forwarded(move)))
            && o.effect.notified == if user in listed then listed - {user} else map[]
  {
    var listed := GetPlayers(l.list, room);
    RemoveSize(listed, user);
    EmptySize(listed - {user});
  }

  // ----- drawn room names -----

  lemma OneMoreDigit(n: nat, d: char)
    requires IsDigit(d)
    ensures var value := d as int - '0' as int;
            NatText(10 * n + value) == if n == 0 then [d] else NatText(n) + [d]
  {
    var value := d as int - '0' as int;
    var m := 10 * n + value;
    assert m / 10 == n && m % 10 == value;
    assert Digit(value) == d;
  }

  lemma {:induction false} DigitsAreText(s: string)
    requires s != [] && (forall i :: 0 <= i < |s| ==> IsDigit(s[i])) && s[0] != '0'
    ensures ReadNat(s) > 0 && NatText(ReadNat(s)) == s
  {
    var front, last := s[..|s| - 1], s[|s| - 1];
    assert ReadNat(s) == 10 * ReadNat(front) + (last as int - '0' as int);
    assert s == front + [last];
    if |s| == 1 {
      OneMoreDigit(0, last);
    } else {
      DigitsAreText(front);
      OneMoreDigit(ReadNat(front), last);
    }
  }

  /** The names that can be drawn are the texts of the numbers from 100000 to 999999. */
  lemma GeneratedIff(room: Name)
    ensures Generated(room) <==> exists n: nat :: 100000 <= n <= 999999 && room == NatText(n)
  {
    if Generated(room) {
      DigitsAreText(room);
      SixDigits(ReadNat(room));
    }
    forall n: nat | 100000 <= n <= 999999
      ensures Generated(NatText(n))
    {
      SixDigits(n);
    }
  }

  lemma SixDigits(n: nat)
    ensures Generated(NatText(n)) <==> 100000 <= n <= 999999
  {
    var n1 := n / 10;
    var n2 := n1 / 10;
    var n3 := n2 / 10;
    var n4 := n3 / 10;
    var n5 := n4 / 10;
    assert NatText(n) == if n < 10 then [Digit(n)] else NatText(n1) + [Digit(n % 10)];
    assert NatText(n1) == if n1 < 10 then [Digit(n1)] else NatText(n2) + [Digit(n1 % 10)];
    assert NatText(n2) == if n2 < 10 then [Digit(n2)] else NatText(n3) + [Digit(n2 % 10)];
    assert NatText(n3) == if n3 < 10 then [Digit(n3)] else NatText(n4) + [Digit(n3 % 10)];
    assert NatText(n4) == if n4 < 10 then [Digit(n4)] else NatText(n5) + [Digit(n4 % 10)];
    assert n5 >= 10 ==> |NatText(n5)| >= 2;
  }

  // ----- over which connection -----

  /** An entry that is there stays, connection included; a new one is the request's. */
  lemma AddUserExact(m: RoomMap, room: Name, user: Name, conn: Conn)
    ensures user in GetPlayers(m, room) ==> AddUser(m, room, user, conn) == m
    ensures user !in GetPlayers(m, room) ==>
              && GetPlayers(AddUser(m, room, user, conn), room) == GetPlayers(m, room)[user := conn]
              && (forall r: Name :: r != room ==>
                    GetPlayers(AddUser(m, room, user, conn), r) == GetPlayers(m, r))
  {
  }

  /** The request came over this connection from this user and lists them. */
  predicate Brings(req: Request, user: Name, conn: Conn) {
    (req.AddRoom? || req.Continue?) && req.user == user && req.conn == conn
  }

  ghost predicate Brought(reqs: seq<Request>, n: nat, user: Name, conn: Conn)
    requires n <= |reqs|
  {
    exists k :: 0 <= k < n && Brings(reqs[k], user, conn)
  }

  ghost predicate OwnConns(players: UserMap, reqs: seq<Request>, n: nat)
    requires n <= |reqs|
  {
    forall u <- players :: Brought(reqs, n, u, players[u])
  }

  /** The user's entry in a room, if there is one, is an entry of the earlier list. */
  ghost predicate Kept(m: RoomMap, m': RoomMap, room: Name, user: Name) {
    user in GetPlayers(m', room) ==>
      user in GetPlayers(m, room) && GetPlayers(m', room)[user] == GetPlayers(m, room)[user]
  }

  lemma RemovedConns(m: RoomMap, left: Name, leaver: Name, room: Name, user: Name)
    ensures Kept(m, RemovePlayer(m, left, leaver), room, user)
  {
  }

  lemma AddedConns(m: RoomMap, target: Name, newcomer: Name, conn: Conn, room: Name, user: Name)
    ensures var m' := AddUser(m, target, newcomer, conn);
            Kept(m, m', room, user) || (user == newcomer && GetPlayers(m', room)[user] == conn)
  {
  }

  lemma RestartedConns(m: RoomMap, newcomer: Name, conn: Conn, target: Name, room: Name, user: Name)
    ensures var m' := RestartList(m, newcomer, conn, target);
            Kept(m, m', room, user) || (user == newcomer && GetPlayers(m', room)[user] == conn)
  {
    AddedConns(m, target, newcomer, conn, room, user);
    AddedConns(RemoveRoom(m, target), target, newcomer, conn, room, user);
    assert Kept(m, RemoveRoom(m, target), room, user);
  }

  /** What a join makes of the list: that of the departure, or with the newcomer. */
  lemma AddRoomList(l: Lobby, auto: bool, user: Name, conn: Conn, room: Name)
    requires HandleAddRoom(l, auto, user, conn, room).Done?
    ensures var d := Depart(l, user).list;
            var o := HandleAddRoom(l, auto, user, conn, room);
            || (o.lobby.list == d && o.effect.notified == GetPlayers(d, ""))
            || (o.lobby.list == AddUser(d, room, user, conn) && o.effect.notified == GetPlayers(o.lobby.list, room))
  {
  }

  /** Every connection of the next list was there already, or is the request's own. */
  lemma NextConns(l: Lobby, req: Request, room: Name, user: Name)
    requires Next(l, req).Done? && user in GetPlayers(Next(l, req).lobby.list, room)
    ensures var m' := Next(l, req).lobby.list;
            Kept(l.list, m', room, user) || Brings(req, user, GetPlayers(m', room)[user])
  {
    match req
    case AddRoom(auto, newcomer, conn, target) =>
      RemovedConns(l.list, l.store.PlayerRoom(newcomer), newcomer, room, user);
      AddedConns(Depart(l, newcomer).list, target, newcomer, conn, room, user);
      AddRoomList(l, auto, newcomer, conn, target);
    case Leave(leaver, left) => RemovedConns(l.list, left, leaver, room, user);
    case Continue(newcomer, conn, target) => RestartedConns(l.list, newcomer, conn, target, room, user);
    case _ =>
  }

  lemma NextListOwn(l: Lobby, reqs: seq<Request>, n: nat, room: Name)
    requires n < |reqs| && Next(l, reqs[n]).Done? && OwnConns(GetPlayers(l.list, room), reqs, n)
    ensures OwnConns(GetPlayers(Next(l, reqs[n]).lobby.list, room), reqs, n + 1)
  {
    var players := GetPlayers(Next(l, reqs[n]).lobby.list, room);
    forall u <- players
      ensures Brought(reqs, n + 1, u, players[u])
    {
      NextConns(l, reqs[n], room, u);
      if Kept(l.list, Next(l, reqs[n]).lobby.list, room, u) {
        assert Brought(reqs, n, u, players[u]);
      }
    }
  }

  lemma ListedOverOwn(scores: map<Name, int>, states: seq<Lobby>, reqs: seq<Request>, n: nat, room: Name)
    requires Run(states, reqs) && states[0] == Initial(scores) && n < |states|
    ensures OwnConns(GetPlayers(states[n].list, room), reqs, n)
  {
    for i := 0 to n
      invariant OwnConns(GetPlayers(states[i].list, room), reqs, i)
    {
      assert Goes(states[i], reqs[i], states[i + 1]);
      NextListOwn(states[i], reqs, i, room);
    }
  }

  /** Whoever a request tells is on the list of one room, before or behind it, over the connection told. */
  lemma ToldAreListed(l: Lobby, req: Request) returns (room: Name)
    requires Next(l, req).Done?
    ensures var o := Next(l, req);
            || (forall u <- o.effect.notified :: u in GetPlayers(l.list, room)
                                                 && GetPlayers(l.list, room)[u] == o.effect.notified[u])
            || o.effect.notified == GetPlayers(o.lobby.list, room)
  {
    room := req.room;
    if req.AddRoom? {
      AddRoomList(l, req.auto, req.user, req.conn, req.room);
      if Next(l, req).lobby.list == Depart(l, req.user).list {
        room := if Next(l, req).effect.notified == GetPlayers(Next(l, req).lobby.list, req.room) then req.room else "";
      }
    }
  }

  /** Whoever a step of a run tells is told over a connection that they have themselves used to join or to
      continue. */
  lemma ToldOverOwn(scores: map<Name, int>, states: seq<Lobby>, reqs: seq<Request>, n: nat)
    requires Run(states, reqs) && states[0] == Initial(scores) && n < |reqs|
    ensures var o := Next(states[n], reqs[n]); o.Done? && OwnConns(o.effect.notified, reqs, n + 1)
  {
    assert Goes(states[n], reqs[n], states[n + 1]);
    var o := Next(states[n], reqs[n]);
    var room := ToldAreListed(states[n], reqs[n]);
    ListedOverOwn(scores, states, reqs, n, room);
    NextListOwn(states[n], reqs, n, room);
    forall u <- o.effect.notified
      ensures Brought(reqs, n + 1, u, o.effect.notified[u])
    {
      if o.effect.notified != GetPlayers(o.lobby.list, room) {
        assert Brought(reqs, n, u, GetPlayers(states[n].list, room)[u]);
      }
    }
  }
}
