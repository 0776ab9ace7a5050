/** Runs that lead an empty lobby into the states one would not expect. */
module OddStates {
  import opened RoomModel
  import opened Lobby
  import opened LobbyInvariant
  import opened LobbySafety

  function Join(user: Name, room: Name): Request {
    AddRoom(false, user, 0, room)
  }

  lemma SetTwice(m: map<Name, int>, user: Name, x: int, y: int)
    ensures m[user := x][user := y] == m[user := y]
  {
  }

  lemma JoinStep(l: Lobby, user: Name, room: Name) returns (l': Lobby)
    requires user in l.scores && room != "" && user !in l.store.players
    requires l.store.Roster("") == map[]
    requires l.store.Count(room) < 3 && Promote(l.store, room).Joined?
    ensures Goes(l, Join(user, room), l') && l'.scores == l.scores && l'.store.Roster("") == map[]
    ensures l'.store.Roster(room) == l.store.Roster(room)[user := l.scores[user]]
    ensures l'.store.players == l.store.players[user := room]
    ensures l'.store.(members := l.store.members, players := l.store.players) == Promote(l.store, room).store
  {
    l' := Next(l, Join(user, room)).lobby;
    PromoteRosters(l.store, room);
    SetTwice(l.store.Roster(room), user, 0, l.scores[user]);
  }

  lemma LeaveStep(l: Lobby, user: Name, room: Name) returns (l': Lobby)
    requires !Closed(l.store, room) && l.store.Roster("") == map[]
    ensures Goes(l, Leave(user, room), l') && l'.scores == l.scores && l'.store.Roster("") == map[]
    ensures l'.store.Roster(room) == l.store.Roster(room) - {user}
    ensures l'.store.players == l.store.players && !Closed(l'.store, room)
    ensures l'.store.single == l.store.single && l'.store.double == l.store.double
  {
    LeaveRoomRosters(l.store, room, user);
    l' := Next(l, Leave(user, room)).lobby;
  }

  lemma OneMoreStep(states: seq<Lobby>, reqs: seq<Request>, l: Lobby, req: Request)
    requires Run(states, reqs) && Goes(states[|reqs|], req, l)
    ensures Run(states + [l], reqs + [req])
  {
    var all := states + [l];
    assert forall k :: 0 <= k < |states| ==> all[k] == states[k];
    forall k | 0 <= k < |reqs| + 1
      ensures Goes(all[k], (reqs + [req])[k], all[k + 1])
    {
      if k < |reqs| {
        assert Goes(states[k], reqs[k], states[k + 1]);
      }
    }
  }

  /** A run extended by a join by name ... */
  lemma ThenJoin(states: seq<Lobby>, reqs: seq<Request>, user: Name, room: Name)
    returns (states': seq<Lobby>, reqs': seq<Request>)
    requires Run(states, reqs)
    requires var l := states[|reqs|];
             && user in l.scores && room != "" && user !in l.store.players && l.store.Roster("") == map[]
             && l.store.Count(room) < 3 && Promote(l.store, room).Joined?
    ensures Run(states', reqs') && |reqs'| == |reqs| + 1 && states'[0] == states[0]
    ensures var l, l' := states[|reqs|], states'[|reqs'|];
            && l'.scores == l.scores && l'.store.Roster("") == map[]
            && l'.store.Roster(room).Keys == l.store.Roster(room).Keys + {user}
            && l'.store.players.Keys == l.store.players.Keys + {user}
            && l'.store.(members := l.store.members, players := l.store.players) == Promote(l.store, room).store
  {
    var l' := JoinStep(states[|reqs|], user, room);
    OneMoreStep(states, reqs, l', Join(user, room));
    states', reqs' := states + [l'], reqs + [Join(user, room)];
  }

  /** ... and by a leave from a room that has never been full. */
  lemma ThenLeave(states: seq<Lobby>, reqs: seq<Request>, user: Name, room: Name)
    returns (states': seq<Lobby>, reqs': seq<Request>)
    requires Run(states, reqs)
    requires !Closed(states[|reqs|].store, room) && states[|reqs|].store.Roster("") == map[]
    ensures Run(states', reqs') && |reqs'| == |reqs| + 1 && states'[0] == states[0]
    ensures var l, l' := states[|reqs|], states'[|reqs'|];
            && l'.scores == l.scores && l'.store.Roster("") == map[]
            && l'.store.Roster(room).Keys == l.store.Roster(room).Keys - {user}
            && l'.store.players == l.store.players && !Closed(l'.store, room)
            && l'.store.single == l.store.single && l'.store.double == l.store.double
  {
    var l' := LeaveStep(states[|reqs|], user, room);
    OneMoreStep(states, reqs, l', Leave(user, room));
    states', reqs' := states + [l'], reqs + [Leave(user, room)];
  }

  lemma CountOf(s: Store, room: Name)
    ensures s.Count(room) == |s.Roster(room).Keys|
  {
  }

  /** Two join one room by name, starting from an empty lobby. */
  lemma TwoJoin(scores: map<Name, int>, a: Name, b: Name, room: Name)
    returns (states: seq<Lobby>, reqs: seq<Request>)
    requires a in scores && b in scores && a != b && room != ""
    ensures Run(states, reqs) && |reqs| == 2 && states[0] == Initial(scores)
    ensures var l := states[2];
            && l.scores == scores && l.store.players.Keys == {a, b}
            && l.store.Roster(room).Keys == {a, b} && l.store.Roster("") == map[]
            && l.store.single == {} && l.store.double == {room} && !Closed(l.store, room)
  {
    states, reqs := [Initial(scores)], [];
    states, reqs := ThenJoin(states, reqs, a, room);
    CountOf(states[1].store, room);
    states, reqs := ThenJoin(states, reqs, b, room);
  }

  lemma ThirdJoinCrashes(l: Lobby, d: Name, room: Name)
    requires room in l.store.triple && room !in l.store.single && room !in l.store.double
    requires l.store.Count(room) == 2 && d !in l.store.players && room != ""
    ensures Legal(l, Join(d, room)) && Next(l, Join(d, room)) == Crash
  {
  }

  /** A room of two that lost a member becomes a "triple" of two, and the next join fails the assertion. */
  lemma TripleOfTwoCrashes(scores: map<Name, int>, a: Name, b: Name, c: Name, d: Name, room: Name)
    returns (states: seq<Lobby>, reqs: seq<Request>)
    requires {a, b, c, d} <= scores.Keys && room != ""
    requires a != b && a != c && a != d && b != c && b != d && c != d
    ensures Run(states, reqs) && states[0] == Initial(scores) && |reqs| == 4
    ensures var l := states[4];
            && room in l.store.triple && l.store.Roster(room).Keys == {a, c}
            && Legal(l, Join(d, room)) && Next(l, Join(d, room)) == Crash
  {
    states, reqs := TwoJoin(scores, a, b, room);
    states, reqs := ThenLeave(states, reqs, b, room);
    CountOf(states[3].store, room);
    states, reqs := ThenJoin(states, reqs, c, room);
    CountOf(states[4].store, room);
    ThirdJoinCrashes(states[4], d, room);
  }

  /** A room of two that both left stays in the double set; a new member puts it into the single set too. */
  lemma SingleAndDouble(scores: map<Name, int>, a: Name, b: Name, c: Name, room: Name)
    returns (states: seq<Lobby>, reqs: seq<Request>)
    requires {a, b, c} <= scores.Keys && room != "" && a != b && a != c && b != c
    ensures Run(states, reqs) && states[0] == Initial(scores) && |reqs| == 5
    ensures room in states[5].store.single && room in states[5].store.double
  {
    states, reqs := TwoJoin(scores, a, b, room);
    states, reqs := ThenLeave(states, reqs, a, room);
    states, reqs := ThenLeave(states, reqs, b, room);
    CountOf(states[4].store, room);
    states, reqs := ThenJoin(states, reqs, c, room);
  }
}
