/** The lobby as the server runs it: objects whose methods change the Redis sets, the connection
    list and the score table in place, each proved against the step function of `Lobby`. Whatever they
    serve is a run of that state machine. */
module LobbyService {
  import M = RoomModel
  import opened RoomListModel
  import opened Lobby
  import opened Scores
  import opened LobbyInvariant
  import opened Matchmaking

  type Name = M.Name

  datatype JoinStatus = Ok | Refused | AssertionFailed

  class Room {
    var single: set<Name>
    var double: set<Name>
    var triple: set<Name>
    var invalid: set<Name>
    var members: map<Name, map<Name, int>>
    var players: map<Name, Name>

    constructor ()
      ensures View() == M.EMPTY_STORE
    {
      single, double, triple, invalid := {}, {}, {}, {};
      members, players := map[], map[];
    }

    function View(): M.Store
      reads this
    {
      M.Store(single, double, triple, invalid, members, players)
    }

    method ZAdd(room: Name, user: Name, score: int)
      modifies this`members
      ensures View() == old(View()).ZAdd(room, user, score)
    {
      var roster := if room in members then members[room] else map[];
      members := members[room := roster[user := score]];
    }

    method ZRem(room: Name, user: Name)
      modifies this`members
      ensures View() == old(View()).ZRem(room, user)
    {
      var roster := if room in members then members[room] else map[];
      members := members[room := roster - {user}];
    }

    method JoinNamed(room: Name, user: Name) returns (status: JoinStatus)
      modifies this
      ensures match M.JoinRoom(old(View()), room, user)
              case Joined(s) => status == Ok && View() == s
              case Full => status == Refused && View() == old(View())
              case Aborted => status == AssertionFailed
    {
      var count := View().Count(room);
      if count >= 3 {
        return Refused;
      }
      if count == 0 {
        single := single + {room};
      } else if room in single {
        single, double := single - {room}, double + {room};
      } else if room in double {
        double, triple := double - {room}, triple + {room};
      } else {
        return AssertionFailed;
      }
      ZAdd(room, user, 0);
      players := players[user := room];
      status := Ok;
    }

    /** `generated` stands for the result of the random generator. */
    method JoinAny(user: Name, generated: Name) returns (room: Name, status: JoinStatus)
      requires M.Generated(generated)
      modifies this
      ensures M.Candidate(old(View()), room)
      ensures old(View()).double == {} && old(View()).single == {} ==> room == generated
      ensures match M.JoinRoom(old(View()), room, user)
              case Joined(s) => status == Ok && View() == s
              case Full => status == Refused && View() == old(View())
              case Aborted => status == AssertionFailed
    {
      if |double| > 0 {
        room :| room in double;
      } else if |single| > 0 {
        room :| room in single;
      } else {
        room := generated;
      }
      status := JoinNamed(room, user);
    }

    method LeaveRoom(room: Name, user: Name)
      modifies this
      ensures View() == M.LeaveRoom(old(View()), room, user)
    {
      if room in triple {
        triple, invalid := triple - {room}, invalid + {room};
      }
      ZRem(room, user);
      if View().Count(room) == 0 {
        members := members - {room};
        invalid := invalid - {room};
      }
    }

    method PlayerRoomName(user: Name) returns (room: Name)
      ensures room == View().PlayerRoom(user)
    {
      if user in players {
        return players[user];
      }
      return "";
    }

    method PlayerScore(room: Name, user: Name) returns (score: int)
      ensures score == View().PlayerScore(room, user)
    {
      if room in members && user in members[room] {
        return members[room][user];
      }
      return 0;
    }

    method SearchRoom(room: Name) returns (success: bool)
      ensures success <==> View().Search(room)
    {
      success := room in double;
      if !success {
        success := room in single;
      }
    }
  }

  class RoomList {
    var roomMap: RoomMap

    constructor ()
      ensures roomMap == map[]
    {
      roomMap := map[];
    }

    method Add(room: Name, user: Name, conn: Conn)
      modifies this
      ensures roomMap == AddUser(old(roomMap), room, user, conn)
    {
      if room in roomMap {
        if user !in roomMap[room] {
          roomMap := roomMap[room := roomMap[room][user := conn]];
        }
      } else {
        roomMap := roomMap[room := map[user := conn]];
      }
    }

    method Players(room: Name) returns (players: UserMap)
      ensures players == GetPlayers(roomMap, room)
    {
      if room !in roomMap {
        return map[];
      }
      return roomMap[room];
    }

    method Remaining(room: Name, user: Name) returns (players: UserMap)
      ensures players == RemainingPlayers(roomMap, room, user)
    {
      players := Players(room);
      if |players| > 1 {
        if user in players {
          players := players - {user};
          return;
        }
      }
      return map[];
    }

    method Remove(room: Name, user: Name)
      modifies this
      ensures roomMap == RemovePlayer(old(roomMap), room, user)
    {
      if room in roomMap {
        if user in roomMap[room] && |roomMap[room]| > 1 {
          roomMap := roomMap[room := roomMap[room] - {user}];
        } else if user in roomMap[room] && |roomMap[room]| == 1 {
          roomMap := roomMap - {room};
        }
      }
    }

    method Erase(room: Name)
      modifies this
      ensures roomMap == RemoveRoom(old(roomMap), room)
    {
      if room in roomMap {
        roomMap := roomMap - {room};
      }
    }
  }

  /** The `information` table, reduced to the score column. */
  class ScoreTable {
    var scores: map<Name, int>

    constructor (initial: map<Name, int>)
      ensures scores == initial
    {
      scores := initial;
    }

    method Update(user: Name, score: int)
      modifies this
      ensures scores == if user in old(scores) then old(scores)[user := score] else old(scores)
    {
      if user in scores {
        scores := scores[user := score];
      }
    }
  }

  class Communication {
    const redis: Room
    const rooms: RoomList
    const mysql: ScoreTable
    const sendMessage: Conn

    constructor (redis: Room, rooms: RoomList, mysql: ScoreTable, conn: Conn)
      ensures this.redis == redis && this.rooms == rooms && this.mysql == mysql && sendMessage == conn
    {
      this.redis, this.rooms, this.mysql, sendMessage := redis, rooms, mysql, conn;
    }

    function State(): Lobby
      reads redis, rooms, mysql
    {
      StateOf(redis, rooms, mysql)
    }

    method ReadyForPlay(room: Name, reply: Reply) returns (effect: Effect)
      ensures effect == Ready(rooms.roomMap, room, reply)
    {
      var players := rooms.Players(room);
      effect := Effect(players, |players| == 3, reply);
    }

    /** Leaves the room recorded for the user, and remembers the score held there. */
    method LeaveCurrent(user: Name) returns (score: int)
      modifies redis, rooms
      ensures State() == Depart(old(State()), user)
      ensures score == old(redis.View()).PlayerScore(old(redis.View()).PlayerRoom(user), user)
    {
      var previous := redis.PlayerRoomName(user);
      score := redis.PlayerScore(previous, user);
      if previous != "" {
        redis.LeaveRoom(previous, user);
        rooms.Remove(previous, user);
      }
    }

    /** After `join_room`: the score from the database if there was none to carry over, then the list. */
    method Seat(carried: int, user: Name, room: Name) returns (outcome: Outcome)
      modifies redis, rooms
      ensures outcome == Register(old(State()), carried, user, sendMessage, room)
      ensures outcome.Done? ==> State() == outcome.lobby
    {
      var score := carried;
      if score == 0 {
        if user !in mysql.scores {
          return Crash;
        }
        score := mysql.scores[user];
      }
      redis.ZAdd(room, user, score);
      rooms.Add(room, user, sendMessage);
      var effect := ReadyForPlay(room, JoinRoomOk(redis.View().Count(room), room));
      outcome := Done(State(), effect);
    }

    /** `AUTO_CREATE_ROOM` and `MANUAL_CREATE_ROOM`, with the broadcast that follows them. The room
        returned is the one tried. */
    method AddRoom(auto: bool, user: Name, wanted: Name, generated: Name)
      returns (room: Name, outcome: Outcome)
      requires M.Generated(generated)
      modifies redis, rooms
      ensures !auto ==> room == wanted
      ensures auto ==>
                var s := Depart(old(State()), user).store;
                M.Candidate(s, room) && (s.double == {} && s.single == {} ==> room == generated)
      ensures outcome == HandleAddRoom(old(State()), auto, user, sendMessage, room)
      ensures outcome.Done? ==> State() == outcome.lobby
    {
      var score := LeaveCurrent(user);
      var status;
      if auto {
        room, status := redis.JoinAny(user, generated);
      } else {
        room := wanted;
        status := redis.JoinNamed(room, user);
      }
      if status == AssertionFailed {
        outcome := Crash;
      } else if auto || status == Ok {
        outcome := Seat(score, user, room);
      } else {
        var effect := ReadyForPlay("", JoinFailed);
        outcome := Done(State(), effect);
      }
    }

    method LeaveRoom(user: Name, room: Name) returns (effect: Effect)
      modifies redis, rooms
      ensures HandleLeave(old(State()), user, room) == Done(State(), effect)
    {
      redis.LeaveRoom(room, user);
      rooms.Remove(room, user);
      var players := rooms.Players(room);
      effect := Effect(players, false, OtherLeaveRoom(|players|));
    }

    /** A text that is no 32-bit number is an exception that nobody catches. */
    method FinishGame(user: Name, room: Name, text: string) returns (outcome: Outcome)
      modifies redis, mysql
      ensures outcome == Next(old(State()), GameOver(user, room, text))
      ensures State() == if outcome.Done? then outcome.lobby else old(State())
    {
      var score := Stoi(text);
      if score.None? {
        return Crash;
      }
      redis.ZAdd(room, user, score.value);
      mysql.Update(user, score.value);
      outcome := Done(State(), Effect(map[], false, NoReply));
    }

    method RestartGame(user: Name, room: Name) returns (effect: Effect)
      modifies rooms
      ensures HandleContinue(old(State()), user, sendMessage, room) == Done(State(), effect)
    {
      var players := rooms.Players(room);
      if |players| == 3 {
        rooms.Erase(room);
      }
      rooms.Add(room, user, sendMessage);
      players := rooms.Players(room);
      effect := Effect(map[], |players| == 3, NoReply);
    }

    /** The lobby part of the request switch: every request is one step of the state machine, and what
        the clients owe is all that the invariant needs. */
    method Serve(req: Request, generated: Name) returns (step: Request, outcome: Outcome)
      requires M.Generated(generated)
      requires req.AddRoom? || req.Continue? ==> req.conn == sendMessage
      modifies redis, rooms, mysql
      ensures Settles(old(State()), req, generated, step)
      ensures outcome == Next(old(State()), step)
      ensures outcome.Done? ==> State() == outcome.lobby
      ensures Inv(old(State())) && Owed(old(State()), step) && outcome.Done? ==> Inv(State())
    {
      step := req;
      match req {
        case AddRoom(auto, user, _, wanted) =>
          var room;
          room, outcome := AddRoom(auto, user, wanted, generated);
          step := Resolved(req, room);
        case Leave(user, left) =>
          var effect := LeaveRoom(user, left);
          outcome := Done(State(), effect);
        case GameOver(user, played, text) =>
          outcome := FinishGame(user, played, text);
        case Continue(user, _, played) =>
          var effect := RestartGame(user, played);
          outcome := Done(State(), effect);
        case Search(wanted) =>
          var success := redis.SearchRoom(wanted);
          outcome := Done(State(), Effect(map[], false, SearchRoomOk(success)));
        case Forward(user, played, move) =>
          var players := rooms.Remaining(played, user);
          outcome := Done(State(), Effect(players, false, Forwarded(move)));
      }
      ghost var before := old(State());
      if Inv(before) && Owed(before, step) && outcome.Done? {
        StepKeepsInv(before, step);
      }
    }
  }

  /** The step that a request turns into: itself, except that a join without a room name goes to a room
      that the sets offer, or to the drawn name when none is open. */
  predicate Settles(l: Lobby, req: Request, drawn: Name, step: Request) {
    if req.AddRoom? && req.auto then
      var s := Depart(l, req.user).store;
      && step == Resolved(req, step.room) && Picked(l, step)
      && (s.double == {} && s.single == {} ==> step.room == drawn)
    else
      step == req
  }

  /** The connections of one server share the store, the list and the score table. */
  predicate Shares(c: Communication, redis: Room, rooms: RoomList, mysql: ScoreTable) {
    c.redis == redis && c.rooms == rooms && c.mysql == mysql
  }

  function StateOf(redis: Room, rooms: RoomList, mysql: ScoreTable): Lobby
    reads redis, rooms, mysql
  {
    Lobby(redis.View(), rooms.roomMap, mysql.scores)
  }

  /** One request served without a crash. */
  predicate Serves(l: Lobby, req: Request, drawn: Name, step: Request, effect: Effect, l': Lobby) {
    Settles(l, req, drawn, step) && Next(l, step) == Done(l', effect)
  }

  /** The last request crashed. */
  predicate Crashes(l: Lobby, req: Request, drawn: Name, step: Request) {
    Settles(l, req, drawn, step) && Next(l, step) == Crash
  }

  /** The steps and effects are linked to the states and the requests by `serves`. */
  ghost predicate Linked(serves: (Lobby, Request, Name, Request, Effect, Lobby) -> bool, states: seq<Lobby>,
                         reqs: seq<Request>, drawn: seq<Name>, steps: seq<Request>, effects: seq<Effect>) {
    && |effects| == |steps| <= |reqs| == |drawn| && |states| == |steps| + 1
    && forall k :: 0 <= k < |steps| ==>
                     serves(states[k], reqs[k], drawn[k], steps[k], effects[k], states[k + 1])
  }

  lemma LinkedSnoc(serves: (Lobby, Request, Name, Request, Effect, Lobby) -> bool, states: seq<Lobby>,
                   reqs: seq<Request>, drawn: seq<Name>, steps: seq<Request>, effects: seq<Effect>,
                   step: Request, effect: Effect, l': Lobby)
    requires Linked(serves, states, reqs, drawn, steps, effects) && |steps| < |reqs|
    requires serves(states[|steps|], reqs[|steps|], drawn[|steps|], step, effect, l')
    ensures Linked(serves, states + [l'], reqs, drawn, steps + [step], effects + [effect])
  {
  }

  /** The states passed through, the step that each request turned into, and its effect. */
  ghost predicate Served(states: seq<Lobby>, reqs: seq<Request>, drawn: seq<Name>,
                         steps: seq<Request>, effects: seq<Effect>) {
    Linked(Serves, states, reqs, drawn, steps, effects)
  }

  /** The clients of the requests served, and chance, have kept to what they owe. */
  ghost predicate AllOwed(states: seq<Lobby>, steps: seq<Request>)
    requires |states| > |steps|
  {
    forall k :: 0 <= k < |steps| ==> Owed(states[k], steps[k])
  }

  /** What was served is a run of the state machine as soon as clients and chance keep to what they owe. */
  lemma ServedIsRun(states: seq<Lobby>, reqs: seq<Request>, drawn: seq<Name>,
                    steps: seq<Request>, effects: seq<Effect>)
    requires Served(states, reqs, drawn, steps, effects) && AllOwed(states, steps)
    ensures Run(states, steps) && (Inv(states[0]) ==> Inv(states[|steps|]))
  {
    forall k | 0 <= k < |steps|
      ensures Goes(states[k], steps[k], states[k + 1])
    {
      assert Serves(states[k], reqs[k], drawn[k], steps[k], effects[k], states[k + 1]);
    }
    if Inv(states[0]) {
      RunKeepsInv(states, steps, |steps|);
    }
  }

  function Games(effects: seq<Effect>): nat {
    if effects == [] then 0 else Games(effects[..|effects| - 1]) + if effects[|effects| - 1].started then 1 else 0
  }

  /** Of the requests a fresh server serves: with joins that leave the room to the server, nobody leaving
      an open room and no CONTINUE, every third join gives one game, and the others wait together. */
  lemma ServedGames(scores: map<Name, int>, states: seq<Lobby>, reqs: seq<Request>, drawn: seq<Name>,
                    steps: seq<Request>, effects: seq<Effect>)
    requires Served(states, reqs, drawn, steps, effects) && AllOwed(states, steps)
    requires states[0] == Initial(scores)
    requires forall k :: 0 <= k < |steps| ==>
                           AutoOnly(reqs[k]) && NoContinue(reqs[k]) && Polite(states[k], steps[k])
    ensures var joins := Joins(reqs, |steps|);
            Games(effects) == joins / 3 && Waiting(states[|steps|].store, joins % 3)
  {
    ServedIsRun(states, reqs, drawn, steps, effects);
    forall k | 0 <= k < |steps|
      ensures AutoOnly(steps[k]) && NoContinue(steps[k])
      ensures (Starts(states[k], steps[k]) <==> effects[k].started) && (steps[k].AddRoom? <==> reqs[k].AddRoom?)
    {
      ServesCounts(states[k], reqs[k], drawn[k], steps[k], effects[k], states[k + 1]);
    }
    EveryThirdJoinStarts(scores, states, steps, |steps|);
    CountsAgree(states, reqs, steps, effects, |steps|);
    assert effects[..|steps|] == effects;
  }

  lemma ServesCounts(l: Lobby, req: Request, drawn: Name, step: Request, effect: Effect, l': Lobby)
    requires Serves(l, req, drawn, step, effect, l')
    ensures (Starts(l, step) <==> effect.started) && (step.AddRoom? <==> req.AddRoom?)
  {
  }

  lemma {:induction false} CountsAgree(states: seq<Lobby>, reqs: seq<Request>, steps: seq<Request>,
                                       effects: seq<Effect>, n: nat)
    requires n <= |effects| == |steps| <= |reqs| && |steps| <= |states|
    requires forall k :: 0 <= k < |steps| ==> (steps[k].AddRoom? <==> reqs[k].AddRoom?)
    requires forall k :: 0 <= k < |steps| ==> (Starts(states[k], steps[k]) <==> effects[k].started)
    ensures Games(effects[..n]) == Started(states, steps, n) && Joins(reqs, n) == Joins(steps, n)
  {
    if n > 0 {
      CountsAgree(states, reqs, steps, effects, n - 1);
      assert effects[..n][..n - 1] == effects[..n - 1];
    }
  }

  /** The requests of many connections one after the other, until one crashes. `handlers[k]` is the
      connection of request k and `drawn[k]` the name that the generator draws for it. */
  method ServeAll(redis: Room, rooms: RoomList, mysql: ScoreTable,
                  handlers: seq<Communication>, reqs: seq<Request>, drawn: seq<Name>)
    returns (steps: seq<Request>, effects: seq<Effect>, crashed: bool, ghost states: seq<Lobby>)
    requires |handlers| == |reqs| == |drawn|
    requires forall c <- handlers :: Shares(c, redis, rooms, mysql)
    requires forall name <- drawn :: M.Generated(name)
    requires forall k :: 0 <= k < |reqs| && (reqs[k].AddRoom? || reqs[k].Continue?) ==>
                           reqs[k].conn == handlers[k].sendMessage
    modifies redis, rooms, mysql
    ensures Served(states, reqs, drawn, steps, effects)
    ensures states[0] == old(StateOf(redis, rooms, mysql))
    ensures !crashed ==> |steps| == |reqs| && states[|reqs|] == StateOf(redis, rooms, mysql)
    ensures crashed ==> |steps| < |reqs| && exists step ::
                          Crashes(states[|steps|], reqs[|steps|], drawn[|steps|], step)
    ensures AllOwed(states, steps) ==> Run(states, steps)
    ensures AllOwed(states, steps) && Inv(states[0]) && !crashed ==> Inv(StateOf(redis, rooms, mysql))
  {
    steps, effects, crashed, states := [], [], false, [StateOf(redis, rooms, mysql)];
    for n := 0 to |reqs|
      invariant |steps| == n && Served(states, reqs, drawn, steps, effects)
      invariant states[0] == old(StateOf(redis, rooms, mysql)) && states[n] == StateOf(redis, rooms, mysql)
    {
      assert handlers[n] in handlers && drawn[n] in drawn;
      var step, outcome := handlers[n].Serve(reqs[n], drawn[n]);
      if outcome.Crash? {
        assert Crashes(states[n], reqs[n], drawn[n], step);
        crashed := true;
        break;
      }
      LinkedSnoc(Serves, states, reqs, drawn, steps, effects, step, outcome.effect, outcome.lobby);
      steps, effects, states := steps + [step], effects + [outcome.effect], states + [outcome.lobby];
    }
    if AllOwed(states, steps) {
      ServedIsRun(states, reqs, drawn, steps, effects);
    }
  }
}
