/** The lobby as a state machine: one request handled is one step. */
module Lobby {
  import opened RoomModel
  import opened RoomListModel
  import opened Scores

  /** `scores` is the score column of the `information` table. */
  datatype Lobby = Lobby(store: Store, list: RoomMap, scores: map<Name, int>)

  /** What the other players of a room are told of. */
  datatype Move = Bid(data1: string) | Hand(data1: string, data2: string)

  datatype Request =
    | AddRoom(auto: bool, user: Name, conn: Conn, room: Name)
    | Leave(user: Name, room: Name)
    | GameOver(user: Name, room: Name, text: string)
    | Continue(user: Name, conn: Conn, room: Name)
    | Search(room: Name)
    | Forward(user: Name, room: Name, move: Move)

  /** The answer of a step, with the counts it carries. */
  datatype Reply =
    | NoReply
    | JoinRoomOk(count: nat, room: Name)
    | JoinFailed
    | OtherLeaveRoom(count: nat)
    | SearchRoomOk(found: bool)
    | Forwarded(move: Move)

  /** What a step makes visible: who is sent the broadcast, whether a game is started from this step,
      and the answer. The answer of a search goes to its sender alone. */
  datatype Effect = Effect(notified: UserMap, started: bool, reply: Reply)

  /** `Crash` is a failed assertion, the read of a missing database row or a score text that is no number. */
  datatype Outcome = Done(lobby: Lobby, effect: Effect) | Crash

  function Initial(scores: map<Name, int>): Lobby {
    Lobby(EMPTY_STORE, map[], scores)
  }

  function LeaveBoth(l: Lobby, room: Name, user: Name): Lobby {
    l.(store := LeaveRoom(l.store, room, user), list := RemovePlayer(l.list, room, user))
  }

  /** The first half of a join: the user leaves the room recorded in `players`, if any. */
  function Depart(l: Lobby, user: Name): Lobby {
    var current := l.store.PlayerRoom(user);
    if current == "" then l else LeaveBoth(l, current, user)
  }

  /** The second half of a join once `join_room` has been tried: the score is written and the
      connection registered. */
  function Register(l: Lobby, carried: int, user: Name, conn: Conn, room: Name): Outcome {
    if carried == 0 && user !in l.scores then
      Crash
    else
      var score := if carried == 0 then l.scores[user] else carried;
      var l' := l.(store := l.store.ZAdd(room, user, score), list := AddUser(l.list, room, user, conn));
      Done(l', Ready(l'.list, room, JoinRoomOk(l'.store.Count(room), room)))
  }

  /** `ready_for_play`: everyone listed is told, and a full list starts a game. */
  function Ready(m: RoomMap, room: Name, reply: Reply): Effect {
    var players := GetPlayers(m, room);
    Effect(players, |players| == 3, reply)
  }

  function HandleAddRoom(l: Lobby, auto: bool, user: Name, conn: Conn, room: Name): Outcome {
    var carried := l.store.PlayerScore(l.store.PlayerRoom(user), user);
    var d := Depart(l, user);
    match JoinRoom(d.store, room, user)
    case Aborted => Crash
    case Joined(s) => Register(d.(store := s), carried, user, conn, room)
    case Full =>
      if auto then Register(d, carried, user, conn, room)
      else Done(d, Ready(d.list, "", JoinFailed))
  }

  function HandleLeave(l: Lobby, user: Name, room: Name): Outcome {
    var l' := LeaveBoth(l, room, user);
    var players := GetPlayers(l'.list, room);
    Done(l', Effect(players, false, OtherLeaveRoom(|players|)))
  }

  function HandleGameOver(l: Lobby, user: Name, room: Name, score: int): Outcome {
    var scores := if user in l.scores then l.scores[user := score] else l.scores;
    Done(l.(store := l.store.ZAdd(room, user, score), scores := scores), Effect(map[], false, NoReply))
  }

  function RestartList(m: RoomMap, user: Name, conn: Conn, room: Name): RoomMap {
    var m1 := if |GetPlayers(m, room)| == 3 then RemoveRoom(m, room) else m;
    AddUser(m1, room, user, conn)
  }

  function HandleContinue(l: Lobby, user: Name, conn: Conn, room: Name): Outcome {
    var list := RestartList(l.list, user, conn, room);
    Done(l.(list := list), Effect(map[], |GetPlayers(list, room)| == 3, NoReply))
  }

  function Next(l: Lobby, req: Request): Outcome {
    match req
    case AddRoom(auto, user, conn, room) => HandleAddRoom(l, auto, user, conn, room)
    case Leave(user, room) => HandleLeave(l, user, room)
    case GameOver(user, room, text) =>
      (match Stoi(text)
       case None => Crash
       case Some(score) => HandleGameOver(l, user, room, score))
    case Continue(user, conn, room) => HandleContinue(l, user, conn, room)
    case Search(room) => Done(l, Effect(map[], false, SearchRoomOk(l.store.Search(room))))
    case Forward(user, room, move) => Done(l, Effect(RemainingPlayers(l.list, room, user), false, Forwarded(move)))
  }

  /** The request once the server has settled which room a join goes to. */
  function Resolved(req: Request, room: Name): Request {
    match req
    case AddRoom(auto, user, conn, _) => AddRoom(auto, user, conn, room)
    case _ => req
  }

  /** What clients and chance owe: a named room is not the empty name, a name drawn at random is not that
      of an occupied room, and GAME_OVER and CONTINUE come only from a member of the named room. */
  predicate Owed(l: Lobby, req: Request) {
    match req
    case AddRoom(auto, user, _, room) =>
      if auto then
        var s := Depart(l, user).store;
        s.double == {} && s.single == {} ==> !s.Exists(room)
      else
        room != ""
    case GameOver(user, room, _) => user in l.store.Roster(room)
    case Continue(user, _, room) => user in l.store.Roster(room)
    case _ => true
  }

  /** The room of a join without a name is one that the server could have picked. */
  predicate Picked(l: Lobby, req: Request) {
    req.AddRoom? && req.auto ==> Candidate(Depart(l, req.user).store, req.room)
  }

  predicate Legal(l: Lobby, req: Request) {
    Owed(l, req) && Picked(l, req)
  }

  /** A legal step that did not crash. */
  predicate Goes(l: Lobby, req: Request, l': Lobby) {
    Legal(l, req) && Next(l, req).Done? && Next(l, req).lobby == l'
  }

  /** A run: the states passed through, and the requests that lead from one to the next. */
  ghost predicate Run(states: seq<Lobby>, reqs: seq<Request>) {
    && |states| == |reqs| + 1
    && forall k :: 0 <= k < |reqs| ==> Goes(states[k], reqs[k], states[k + 1])
  }

  predicate Starts(l: Lobby, req: Request) {
    Next(l, req).Done? && Next(l, req).effect.started
  }
}
