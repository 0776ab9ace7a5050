/** The Redis side of the lobby as a value: four room sets, one sorted set of members per room and
    the `players` hash, with the room operations as functions on it. A sorted set that becomes empty
    is the same as a missing key, as in Redis. */
module RoomModel {

  type Name = string

  datatype Store = Store(
    single: set<Name>,
    double: set<Name>,
    triple: set<Name>,
    invalid: set<Name>,
    members: map<Name, map<Name, int>>,
    players: map<Name, Name>)
  {
    function Roster(room: Name): map<Name, int> {
      if room in members then members[room] else map[]
    }

    function Count(room: Name): nat {
      |Roster(room)|
    }

    predicate Exists(room: Name) {
      Count(room) != 0
    }

    function ZAdd(room: Name, user: Name, score: int): Store {
      this.(members := members[room := Roster(room)[user := score]])
    }

    function ZRem(room: Name, user: Name): Store {
      this.(members := members[room := Roster(room) - {user}])
    }

    function PlayerRoom(user: Name): Name {
      if user in players then players[user] else ""
    }

    function PlayerScore(room: Name, user: Name): int {
      if user in Roster(room) then Roster(room)[user] else 0
    }

    predicate Search(room: Name) {
      room in double || room in single
    }

    predicate Listed(room: Name) {
      room in single || room in double || room in triple || room in invalid
    }
  }

  const EMPTY_STORE: Store := Store({}, {}, {}, {}, map[], map[])

  datatype JoinResult = Joined(store: Store) | Full | Aborted

  /** Which set a non-full room moves to; the last branch is the program's `assert(false)`. */
  function Promote(s: Store, room: Name): JoinResult {
    if !s.Exists(room) then
      Joined(s.(single := s.single + {room}))
    else if room in s.single then
      Joined(s.(single := s.single - {room}, double := s.double + {room}))
    else if room in s.double then
      Joined(s.(double := s.double - {room}, triple := s.triple + {room}))
    else
      Aborted
  }

  function JoinRoom(s: Store, room: Name, user: Name): JoinResult {
    if s.Count(room) >= 3 then
      Full
    else
      match Promote(s, room)
      case Joined(p) => Joined(p.ZAdd(room, user, 0).(players := p.players[user := room]))
      case failed => failed
  }

  function LeaveRoom(s: Store, room: Name, user: Name): Store {
    var s1 := if room in s.triple
              then s.(triple := s.triple - {room}, invalid := s.invalid + {room})
              else s;
    var s2 := s1.ZRem(room, user);
    if s2.Count(room) == 0
    then s2.(members := s2.members - {room}, invalid := s2.invalid - {room})
    else s2
  }

  /** The six-digit names that `get_new_room_name` draws. */
  predicate Generated(room: Name) {
    |room| == 6 && '1' <= room[0] <= '9' && forall i :: 0 <= i < 6 ==> '0' <= room[i] <= '9'
  }

  /** The rooms that a join without a room name may try, in the order the sets are asked. */
  predicate Candidate(s: Store, room: Name) {
    if s.double != {} then room in s.double
    else if s.single != {} then room in s.single
    else Generated(room)
  }
}

/** The in-memory table of connections by room, as a value. */
module RoomListModel {
  import opened RoomModel

  type Conn = int
  type UserMap = map<Name, Conn>
  type RoomMap = map<Name, UserMap>

  function GetPlayers(m: RoomMap, room: Name): UserMap {
    if room in m then m[room] else map[]
  }

  /** An existing entry keeps its callback: `emplace` does not overwrite. */
  function AddUser(m: RoomMap, room: Name, user: Name, conn: Conn): RoomMap {
    if room in m then
      if user in m[room] then m else m[room := m[room][user := conn]]
    else
      m[room := map[user := conn]]
  }

  function RemovePlayer(m: RoomMap, room: Name, user: Name): RoomMap {
    if room in m && user in m[room] then
      if |m[room]| > 1 then m[room := m[room] - {user}] else m - {room}
    else
      m
  }

  function RemoveRoom(m: RoomMap, room: Name): RoomMap {
    m - {room}
  }

  function RemainingPlayers(m: RoomMap, room: Name, user: Name): UserMap {
    var players := GetPlayers(m, room);
    if |players| > 1 && user in players then players - {user} else map[]
  }
}
