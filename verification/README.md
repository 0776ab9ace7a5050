# Verification of the Fight the Landlord server

A Dafny model of the parts of the server whose correctness is not obvious from one function alone,
with proofs about whole runs of them.

- **Lobby** (`RoomModel`, `Scores`, `Lobby`, `LobbyInvariant`, `LobbySafety`, `OddStates`, `Matchmaking`,
  `Replies`, `ContinueRounds`, `LobbyService`). Redis's four room sets, the sorted set of members of each
  room, the `players` hash, the in-memory list of connections and the score column are one state; a
  request handled is one step of it. The invariant, matchmaking, game starts and who is told what are
  proved about its runs, and the requests that the objects serve, each of which changes this state in
  place, are shown to be such a run. A failed `assert`, the read of a missing database row and a score text that is no number are the
  outcome `Crash`.
- **Wire format** (`Wire`, `InformationModel`, `Codec`). Varints, tags, unknown fields with groups, the
  parse loop and the serialiser of `Information`, and the codec object that is reused for the answer.
  Text validity is a parameter: every statement holds for any validity check.
- **Byte path** (`Framing`, `Buffer`, `Link`, `Requests`, `TcpConnection`). The growing buffer and its
  memory over a whole life, length-prefixed frames, a sender, a wire and a receiver, requests taken one a
  read, and one connection's use of its events.
- **Reactor** (`PollTable`, `EventLoop`, `SelectTable`, `SelectScan`, `Lives`, `WakeUp`). The poll table
  under callbacks that change it during the scan, select as a second representation that agrees with it
  over the interleaved lives of connections, and the queue and pipe shared between threads.
- **Dealing and texts** (`Dealer`, `Text`, `PlayersOrder`). Draws without replacement, and the card and
  player texts with a reader for each.

Sources of randomness, the kernel's answers and the callbacks' effects are parameters, so every theorem
holds for all of them.

## What the proofs found

- `leave_room` never cleans `single_room` or `double_room`. A room can be listed in both, and a room of two
  that lost a member becomes a "triple" of two, where a third join by name fails the assertion; both are
  reached from an empty lobby (`SingleAndDouble`, `TripleOfTwoCrashes`). The inductive invariant is
  `LobbyInvariant.RoomOk`. The sharp picture that doc/process.md:159 assumes holds throughout a run exactly
  when no step takes a member out of an open room, except for a lone member who rejoins the same room
  (`SharpRunIff`).
- A join without a room name succeeds exactly when a room is open or the random name is unoccupied
  (`AutoJoinExact`); the boolean that the code discards is then always true.
- A refused join by name has already left the user's old room, and its FAILED reply is sent to nobody
  (`NamedJoinExact`, `RefusalReachesNobody`).
- A join without a room name goes to a fullest open room while the partition is sharp (`FullestFirst`), so a
  waiting pair is completed at once (`PairIsCompleted`). The list of a room that admits players is that of its
  members over every run, CONTINUE included (`OpenRoomsAreSynced`), so a join is announced to exactly them
  (`JoinTellsMembers`).
- A join by name keeps the lobby consistent exactly when the name is not empty (`NamedJoinKeepsInvIff`); an
  empty room name seats a user in two rooms (`EmptyRoomNameSeatsTwice`).
- GAME_OVER inserts non-members; CONTINUE lists them. The exact conditions under which the lobby stays
  consistent are `GameOverKeepsInvIff` and `ContinueKeepsInvIff`.
- Parsing a concatenation is merging the two parts exactly when every field that the second part writes
  either ends with a value or had none in the first (`ConcatenationMergesIff`). What this code serialises
  always meets that (`ConcatenationMerges`); an explicit empty text behind a value does not
  (`ExplicitDefaultOverwrites`).
- Poll and select keep the same interest map after a task exactly under the condition of `AgreeIff`, and
  over every interleaving of connection lives (`InterleavedLivesAgree`). Select's scan, unlike poll's, can
  call back for a channel that another callback has freed (`FreeingAnotherIsUnsafe`); it does not exactly
  when the last thing done to the channel before its event was not to free it (`SafeIff`).
- A reply asks for no write event. Once a connection's interest is in reading, what the socket does not
  take of a reply is stranded: no turn of the loop writes it, until the next reply does (`AddWriteTask`,
  `CalledIff`).
- After each read exactly one frame is taken, whether or not it is there. This goes well exactly when the
  first k frames lie within the first k reads, for every k (`OneFramePerRead`). A frame cut in two is taken
  too early, and of two requests in one read the second waits for the next read (`CutAndCoalesced`).
- `decode_msg` does not look at the result of the parse. A message with an invalid text is read up to that
  text, and all of it exactly when nothing comes behind it (`EchoIsHarmless`, `InvalidTextHidesRest`).
- Two rankings can have the same text exactly when player names may contain both `-` and `#`; either one
  alone is harmless (`UnambiguousIff`, `SeparatorsInNamesCollide`).

`take_one_card` reads its iterator after erasing it (game/communication.cpp:341-343); the model returns
the removed card. `extend_room` uses `memcpy` on overlapping ranges (common/buffer.cpp:27); the model
copies upwards byte by byte.

## Model

| member | source | states |
|---|---|---|
| LobbyService.Room.JoinNamed | game/room.cpp:74-93 | a join by name refuses at three members, else promotes the room's set and writes member and player entry, else hits the assertion: the whole new state of each case |
| LobbyService.Room.JoinAny | game/room.cpp:52-72 | the room tried is any one of the double set, else of the single set, else the generated name; then the join by name |
| LobbyService.Room.LeaveRoom | game/room.cpp:148-158 | triple becomes invalid whoever leaves; the member goes; the last one takes the key and the invalid entry along |
| LobbyService.Room.ZAdd | game/room.cpp:109-111 | a score update sets the score and inserts a missing member |
| LobbyService.RoomList.Add | game/room_list.cpp:9-19 | adds the connection unless the user is listed, whose old callback stays |
| LobbyService.RoomList.Remaining | game/room_list.cpp:32-42 | all but the user, if the user is listed with at least one other |
| LobbyService.RoomList.Remove | game/room_list.cpp:44-56 | the user is unlisted, and the room with its last user |
| LobbyService.RoomList.Erase | game/room_list.cpp:58-64 | the room is unlisted |
| LobbyService.Communication.ReadyForPlay | game/communication.cpp:278-288 | all listed players are told; a game starts when they are three |
| LobbyService.Communication.AddRoom | game/communication.cpp:200-243 | a join request is one step: leave the recorded room, join, carry the score over or query it, list, and broadcast the count of members with the room's name, or the refusal |
| LobbyService.Communication.LeaveRoom | game/communication.cpp:245-255 | a leave request is one step and tells those still listed how many they are |
| LobbyService.Communication.FinishGame | game/communication.cpp:264-270 | GAME_OVER writes the score to Redis and to an existing database row, or the text is no 32-bit number and nothing is written before the crash |
| Scores.StoiReads | game/communication.cpp:265-265 | the text of a number is read back exactly when it fits 32 bits, whatever spaces come before it and whatever follows its digits; a plus sign is skipped |
| Scores.StoiFails | game/communication.cpp:265-265 | a text that does not begin with a number, spaces and a sign apart, is an exception |
| LobbyService.Communication.RestartGame | game/communication.cpp:353-363 | CONTINUE clears a full list, adds the sender and starts at three |
| LobbyService.Communication.Serve | game/communication.cpp:50-99 | every lobby request, forwarded bids and hands included, is one step of the state machine, for a room that the code could pick; it keeps the invariant when the step meets `Lobby.Owed` (a named room is not empty, a drawn name is not occupied, GAME_OVER and CONTINUE come from members) |
| LobbyService.ServeAll | game/communication.cpp:30-104 | whatever many connections request, what the objects serve until a crash is a run of the state machine with these states and effects, and the objects end in a consistent state, if every step meets `Lobby.Owed` |
| LobbyService.ServedIsRun | game/communication.cpp:50-99 | the served requests and the objects' states form a run that keeps the invariant |
| LobbyService.ServedGames | game/communication.cpp:278-288 | of the requests a fresh server has served, every third join gave one game and the others wait together, under the conditions of EveryThirdJoinStarts |
| LobbyInvariant.LeaveKeepsInv | game/room.cpp:148-158 | a leave of any user from any room, member or not, keeps the invariant |
| LobbyInvariant.DepartKeepsInv | game/communication.cpp:200-207 | after the departure that starts a join the user is a member of no room |
| LobbyInvariant.CandidateJoins | game/room.cpp:52-93 | a pick the code can make is let in exactly when a room was open or the drawn name is unoccupied |
| LobbyInvariant.JoinKeepsInv | game/communication.cpp:219-234 | an admitted join with the carried or queried score keeps the invariant, score cache included |
| LobbyInvariant.GameOverKeepsInvIff | game/communication.cpp:264-270 | GAME_OVER keeps the invariant exactly for members and for non-members who would fit |
| LobbyInvariant.ContinueKeepsInvIff | game/communication.cpp:353-363 | CONTINUE keeps the invariant exactly when its sender is a member |
| LobbyInvariant.OutsidersSpoil | game/communication.cpp:264-270 | in an empty lobby a GAME_OVER and a CONTINUE each break the invariant |
| LobbyInvariant.StepKeepsInv | game/communication.cpp:50-99 | every legal step that does not crash keeps the invariant |
| LobbyInvariant.ReachableInv | game/room.cpp:74-158 | in every reachable state each room's set bounds its size, closed rooms are listed once, occupied rooms are listed, scores match the database, the list is part of Redis and never has an empty room |
| LobbySafety.OneRoomEach | game/communication.cpp:200-255 | a user is in at most one room, the recorded one, with the database's score |
| LobbySafety.SearchExact | game/room.cpp:74-93 | for an occupied room the search says yes exactly when a join is let in |
| LobbySafety.AutoJoinExact | game/communication.cpp:200-243 | a join without a name seats the user and keeps the invariant exactly when a room is open or the drawn name is unoccupied |
| LobbySafety.NamedJoinExact | game/communication.cpp:200-243 | when a join by name seats, crashes or is refused, and that a refusal only leaves the old room |
| LobbySafety.RefusalReachesNobody | game/communication.cpp:239-242 | the FAILED reply goes to the empty room name, that is to nobody |
| LobbySafety.NamedJoinKeepsInvIff | game/communication.cpp:200-243 | a join by name that does not crash keeps the invariant exactly when the name is not empty |
| LobbySafety.EmptyRoomNameSeatsTwice | game/communication.cpp:202-207 | a user who joined the empty name and then another room is a member of both |
| LobbySafety.StartsOnlyFullRooms | game/communication.cpp:278-288 | from a join or CONTINUE, a game starts only for three listed players who are exactly the room's members, in a closed room |
| LobbySafety.LeaveDrains | game/room.cpp:148-158 | a leave from a closed room loses at most the leaver, and the last one makes the name fresh |
| LobbySafety.ClosedOnlyDrains | game/room.cpp:74-158 | a step never adds a member to a closed room nor reopens it before it is empty |
| LobbySafety.ClosedRunOnlyDrains | game/room.cpp:74-158 | over a run in which a room stays closed its members only become fewer |
| Matchmaking.StepKeepsOneOpen | game/room.cpp:52-93 | a step whose joins leave the room to the server keeps at most one room open |
| Matchmaking.AutoJoinsKeepOneOpen | game/room.cpp:52-93 | on runs of such joins at most one room is ever open, whoever leaves |
| Matchmaking.LeaveKeepsSharpIff | game/room.cpp:148-158 | a leave keeps the sharp partition exactly when it takes no member out of an open room |
| Matchmaking.AddRoomKeepsSharpIff | game/communication.cpp:200-243 | a join keeps it exactly when the user leaves no open room, or is the only member of one and rejoins it |
| Matchmaking.StepKeepsSharpIff | game/room.cpp:74-158 | the exact condition for each request |
| Matchmaking.SharpRunIff | doc/process.md:159-159 | over a run the four sets partition the occupied rooms and single, double, triple mean one, two, three exactly when every step meets that condition |
| Matchmaking.FullestFirst | game/room.cpp:52-72 | with a sharp partition a join without a name goes to a fullest open room |
| OddStates.TripleOfTwoCrashes | game/room.cpp:74-93 | from an empty lobby, two joins, a leave and a join make a triple of two, and the next join by name fails the assertion |
| OddStates.SingleAndDouble | game/room.cpp:148-158 | a run from an empty lobby after which one room is in the single and in the double set |
| Matchmaking.ListFollowsRedis | game/room_list.cpp:9-56 | without CONTINUE the listed users of each room are its members |
| Matchmaking.ForwardReachesOthers | game/communication.cpp:346-351 | a bid or a played hand goes to exactly the other members |
| Replies.OpenRoomsAreSynced | game/room_list.cpp:9-56 | over every run the players listed for a room that admits players are its members |
| Replies.JoinTellsMembers | game/communication.cpp:236-288 | after a join that seats, exactly the room's members are told their number and the room's name, the newcomer over the request's own connection; a game starts exactly at three |
| Replies.PairIsCompleted | game/room.cpp:52-72 | with a sharp partition a join without a name starts a game whenever a pair is waiting |
| Replies.LeaveTellsTheRest | game/communication.cpp:245-255 | a leave tells exactly the members who stay how many they are |
| Replies.ScoreIsCarried | game/communication.cpp:202-232 | a nonzero score in the old room is carried over, else the database row is read, whose absence is a crash |
| Replies.SearchTellsAdmission | game/communication.cpp:272-276 | the answer to a search for an occupied room says whether a join is let in |
| Replies.GameOverWritesScore | game/communication.cpp:264-270 | the number at the front of the text is what the room's set and an existing row hold afterwards, and nothing else changes |
| Replies.GameOverWithoutNumber | game/communication.cpp:265-265 | a text without a number, or with one beyond 32 bits, crashes |
| Replies.ForwardExact | game/communication.cpp:346-351 | a bid or a hand goes to the listed others of a listed player, over their connections, and to nobody for anyone else |
| Replies.GeneratedIff | game/room.cpp:95-103 | the names that can be drawn are the texts of 100000 to 999999 |
| Replies.AddUserExact | game/room_list.cpp:9-19 | an entry that is there keeps its connection, a new one gets the request's, other rooms stay |
| Replies.ToldOverOwn | game/communication.cpp:278-284 | over every run, whoever is told is told over a connection that they have used themselves to join or continue |
| Matchmaking.JoinStarts | game/communication.cpp:278-288 | on such runs a join starts a game exactly when it makes three |
| Matchmaking.EveryThirdJoinStarts | game/communication.cpp:200-243 | after k joins exactly k / 3 games were started and the k % 3 others sit in the one open room |
| ContinueRounds.OtherStep | game/communication.cpp:50-99 | any other request, GAME_OVER and requests for other rooms included, that leaves the three members in place leaves their list alone and starts no game there |
| ContinueRounds.RoundCollects | game/communication.cpp:353-363 | in a full room that keeps its members, whatever else is requested, the list holds the members until one asks and then those who have asked since the last start |
| ContinueRounds.StartsWhenAllContinued | game/communication.cpp:353-363 | there a CONTINUE starts a game exactly when all three members have asked since the last start, its sender included |
| ContinueRounds.OnlyContinueStarts | game/communication.cpp:353-363 | there nothing but a CONTINUE for the room starts a game in it |
| Wire.VarintRead | serialize/information.pb.cc:358-358 | a varint read back gives its value and the bytes behind it |
| Wire.VarintBytes | serialize/information.pb.cc:358-358 | a varint's bytes are the value in base 128, low digits first, with the top bit on all but the last and no empty last byte |
| Wire.VarintLength | serialize/information.pb.cc:484-486 | the size computed by comparison is the length written |
| Wire.CodeRoundTrip | serialize/information.pb.cc:357-360 | every 32-bit code survives sign extension to 64 bits and truncation |
| Wire.CodeLength | serialize/information.pb.cc:518-521 | a code takes its varint size, ten bytes when negative |
| Wire.DelimitedRead | serialize/information.pb.cc:308-310 | a length-delimited payload reads back with what follows |
| Wire.FieldRoundTrip | serialize/information.pb.cc:382-386 | an unknown field of any wire type, groups within the nesting limit included, reads back as written |
| Wire.GroupRoundTrip | serialize/information.pb.cc:377-386 | the fields of a group read back up to its end tag |
| Wire.TakenByWireType | serialize/information.pb.cc:376-386 | what each wire type takes from the bytes behind its tag |
| Wire.ParsedFieldOk | serialize/information.pb.cc:382-386 | whatever is stored as an unknown field can be written and read again |
| Wire.FieldsLength | serialize/information.pb.cc:529-529 | the size of unknown fields, by wire type and with groups counted recursively, is the length written |
| InformationModel.ParseText | serialize/information.pb.cc:306-354 | a text field at the front is stored, skipped when empty, or fails the parse when invalid |
| InformationModel.ParseCode | serialize/information.pb.cc:356-372 | an enum field at the front is stored with its sign |
| InformationModel.ParseUnknowns | serialize/information.pb.cc:376-386 | unknown fields at the front are appended in order |
| InformationModel.FieldNumbers | serialize/information.pb.cc:396-472 | the tag bytes of the seven fields |
| InformationModel.ParseWritten | serialize/information.pb.cc:299-472 | a serialised message in front of other bytes is merged, or the parse fails exactly on invalid text |
| InformationModel.RoundTrip | serialize/information.pb.cc:396-472 | parsing a serialised message gives it back exactly when its nonempty texts are valid |
| InformationModel.ParseAppend | serialize/information.pb.cc:299-394 | after any accepted bytes the parse goes on with what follows |
| InformationModel.ConcatenationMerges | serialize/information.pb.cc:539-569 | any accepted bytes followed by a serialised message parse to the merge of the two |
| InformationModel.ParseIsMergeIff | serialize/information.pb.cc:299-394 | for any accepted bytes, parsing into a message is merging what they say exactly when every field they write ends with a value or had none |
| InformationModel.ConcatenationMergesIff | serialize/information.pb.cc:539-569 | the same for two accepted byte strings in a row |
| InformationModel.TwoMessagesMerge | serialize/information.pb.cc:539-569 | two serialised messages in a row parse to their merge, the last one winning |
| InformationModel.ExplicitDefaultOverwrites | serialize/information.pb.cc:547-549 | an explicit empty text on the wire overwrites where a merge would not |
| InformationModel.ParseWellFormed | serialize/information.pb.cc:299-394 | a parsed message can be serialised, with valid texts |
| InformationModel.Normalise | serialize/information.pb.cc:299-472 | serialising a parsed message keeps its meaning |
| InformationModel.HeldWritten | serialize/information.pb.cc:306-394 | the parse loop on a serialised message leaves its known fields up to and with the first invalid text |
| Codec.ByteSizeExact | serialize/information.pb.cc:474-530 | the sum of the field sizes, unknown fields sized by wire type, is the length of the serialised message |
| Codec.Information.Clear | serialize/information.pb.cc:282-297 | all fields get their defaults, unknown fields go |
| Codec.Information.InternalParse | serialize/information.pb.cc:299-394 | the loop merges exactly the fields of the bytes and fails exactly when the specification does; a failure leaves a serialisable object with the fields read before it, an invalid text included |
| Codec.Information.ParseFromString | serialize/codec.cpp:16-17 | parsing replaces what the object held, also when it fails |
| Codec.Information.InternalSerialize | serialize/information.pb.cc:396-472 | defaults are left out, fields come in order, unknown fields last |
| Codec.Information.ByteSizeLong | serialize/information.pb.cc:474-530 | the accumulated size, unknown fields included, is the serialised length |
| Codec.Information.MergeFrom | serialize/information.pb.cc:539-569 | non-default fields overwrite, unknown fields are appended |
| Codec.Information.CopyFrom | serialize/information.pb.cc:571-576 | the copy equals its source, also when it is the source |
| Codec.EchoIsHarmless | serialize/codec.cpp:11-46 | whatever unknown fields a reused object holds and for all codes, `decode_msg` at the peer gives the loaded message up to its first invalid text, and the whole message exactly when no non-default field comes behind that; the unknown fields are echoed |
| Codec.InvalidTextHidesRest | serialize/codec.cpp:16-32 | an invalid user name hides the room name behind it |
| Codec.LoadedFields | serialize/codec.cpp:16-46 | each field of a message comes from the tag of its own name |
| Codec.Codec.FromBytes | serialize/codec.cpp:7-9 | a codec for received bytes has an object with defaults |
| Codec.Codec.FromMessage | serialize/codec.cpp:3-5 | a codec for a message has an object with its seven fields |
| Codec.Codec.ReloadMessage | serialize/codec.cpp:38-46 | the seven fields are set, unknown fields stay |
| Codec.Codec.EncodeMsg | serialize/codec.cpp:11-14 | the bytes are the serialised object |
| Codec.Codec.DecodeMsg | serialize/codec.cpp:16-32 | the result is the object's seven fields: those of the parse, or what a failed parse has stored |
| Codec.Answer | game/communication.cpp:45-104 | decoding any request gives what the parse loop leaves, and the peer decodes the answer up to its first invalid text, all of it exactly when nothing comes behind that |
| Framing.HeadRoundTrip | common/buffer.cpp:63-70 | the four-byte head in network order reads back as the length |
| Framing.HeadIsBigEndian | common/buffer.cpp:63-70 | the head is the length in network order |
| Framing.FrameReads | game/communication.cpp:34-39 | the frame at the front of a stream is recognised and read exactly, empty payloads included |
| Framing.FrontIsNext | game/communication.cpp:34-39 | a frame read from the front of a stream is the stream's next payload |
| Buffer.Buffer.constructor | common/buffer.cpp:11-14 | an empty buffer of the given capacity |
| Buffer.Buffer.Compact | common/buffer.cpp:26-29 | the overlapping move to the front keeps the content |
| Buffer.Buffer.Grow | common/buffer.cpp:31-37 | growing keeps the content |
| Buffer.Buffer.ExtendRoom | common/buffer.cpp:22-39 | the space is there afterwards, the content is kept, and growth happens only when content and request exceed the capacity |
| Buffer.Buffer.AppendString | common/buffer.cpp:41-50 | content and history get the bytes at the end; the capacity bound by twice the peak content is kept; empty strings give -1 |
| Buffer.Buffer.AppendHead | common/buffer.cpp:63-73 | the head of the length is appended; the capacity bound by twice the peak content is kept |
| Buffer.Buffer.AppendPackage | common/buffer.cpp:75-81 | one whole frame is appended; the capacity bound by twice the peak content is kept |
| Buffer.Buffer.SocketRead | common/buffer.cpp:83-108 | all bytes that arrived, spilled ones too, are appended in order; the capacity bound by twice the peak content is kept |
| Buffer.Buffer.SendData | common/buffer.cpp:115-128 | exactly the accepted bytes leave at the front |
| Buffer.Buffer.Take | common/buffer.h:36-42 | the bytes at the front are returned and consumed; asking for more than there are spoils the buffer, and nothing else does |
| Buffer.Buffer.TakeFrame | game/communication.cpp:34-39 | a payload comes out and the buffer stays well-formed exactly when a whole frame is buffered, which is then consumed; None when the reads leave the block or the length is negative |
| Buffer.Live | common/buffer.cpp:11-128 | over a buffer's whole life of packages, reads, sends and takes the content is that of a queue and the block never exceeds both the initial size and twice the largest content held |
| Link.TakenIsPrefix | game/communication.cpp:34-39 | what was taken is a prefix of what was sent and the rest is in transit, from bytes alone |
| Link.Link.Push | common/buffer.cpp:75-81 | the frame goes behind the sender's content, one message more in transit |
| Link.Link.Flush | common/buffer.cpp:115-128 | exactly the accepted bytes move from the sender to the wire, in order |
| Link.Link.Deliver | common/buffer.cpp:83-108 | exactly the bytes read move from the wire to the receiver, in order |
| Link.Link.Receive | game/communication.cpp:34-39 | a frame taken whenever one is buffered is the next message sent; the rest stays |
| Link.Link.DrainedMeansDelivered | game/communication.cpp:34-39 | with nothing in transit every message has been taken |
| Requests.OneFramePerRead | tcp/tcp_connection.cpp:56-71 | with one frame taken after each read, every take finds a whole frame exactly when the first k frames lie within the first k reads for all k; the requests are then the first ones sent, one a read, and the other bytes wait |
| Requests.CutAndCoalesced | tcp/tcp_connection.cpp:62-66 | a frame cut in two is taken too early, and of two frames in one read the second waits whole |
| TcpConnection.TcpConnection.constructor | tcp/tcp_connection.cpp:13-28 | a connection starts with write interest, its key package queued and its add task issued |
| TcpConnection.TcpConnection.ProcessWrite | tcp/tcp_connection.cpp:73-90 | exactly the bytes sent join those accepted, in order; the interest switches to read with a modify task exactly when the last byte has gone |
| TcpConnection.TcpConnection.AddWriteTask | tcp/tcp_connection.cpp:41-49 | a reply goes behind what waits and exactly the bytes sent join those accepted; what is left is stranded exactly when the interest is in reading and the socket did not take all |
| TcpConnection.CalledIff | reactor/poll_dispatcher.cpp:83-102 | a turn of the loop may call the read or the write callback of a descriptor exactly when the table has that interest |
| TcpConnection.OthersDoNotHelp | reactor/event_loop.cpp:105-139 | tasks about other descriptors do not change that |
| TcpConnection.SwitchTakesEffect | tcp/tcp_connection.cpp:73-90 | the modify task of a write callback has run when the callback returns: the connection is then read and no longer written |
| TcpConnection.TcpConnection.ProcessRead | tcp/tcp_connection.cpp:56-71 | a failed or empty read asks for deletion; after any other the first frame is taken, leaving a well-formed buffer exactly when it is whole |
| TcpConnection.TcpConnection.ReadRequests | tcp/tcp_connection.cpp:56-71 | a row of read events takes exactly the requests of the one-frame-a-read model, and stops where that fails |
| TcpConnection.TcpConnection.Destroy | tcp/tcp_connection.cpp:30-39 | the delete task frees the channel exactly when nothing is left to read and all frames have been sent |
| TcpConnection.TcpConnection.HistoryIsLife | tcp/tcp_connection.cpp:13-90 | the tasks that a connection's methods issue are a life of its descriptor, and the next connection's may follow once the channel is freed |
| PollTable.ApplyKeepsInv | reactor/event_loop.cpp:105-139 | every task keeps slots distinct, registered, below maxfd, and free slots without returned events |
| PollTable.ApplyIsLater | reactor/poll_dispatcher.cpp:20-81 | a task leaves other registrations and their returned events alone, and a reused slot has none |
| PollTable.FreeSlotExists | reactor/poll_dispatcher.cpp:29-41 | with descriptors below the table size an add always finds a slot |
| EventLoop.PollDispatcher.Add | reactor/poll_dispatcher.cpp:20-42 | the first free slot gets descriptor and events but keeps its returned events; maxfd grows if needed; -1 when full |
| EventLoop.PollDispatcher.Remove | reactor/poll_dispatcher.cpp:44-59 | the descriptor's slot is cleared, returned events included |
| EventLoop.PollDispatcher.Modify | reactor/poll_dispatcher.cpp:61-81 | the descriptor's slot gets the new events |
| EventLoop.PollDispatcher.Poll | reactor/poll_dispatcher.cpp:83-84 | slots up to maxfd get what was asked for and is ready, others keep theirs |
| EventLoop.PolledExact | reactor/poll_dispatcher.cpp:83-84 | poll reports for a registered descriptor exactly what it waits for and is ready |
| EventLoop.EventLoop.Add | reactor/event_loop.cpp:105-116 | the channel is mapped and given a slot, which succeeds exactly when it was unmapped and a slot was free, as for descriptors below the table size |
| EventLoop.EventLoop.Remove | reactor/event_loop.cpp:118-127 | the slot is cleared and the channel unmapped only if the connection frees it; -1 without channel or slot |
| EventLoop.EventLoop.Modify | reactor/event_loop.cpp:129-138 | only the slot's events change; -1 without channel or slot |
| EventLoop.EventLoop.FreeChannel | reactor/event_loop.cpp:140-149 | the channel is unmapped |
| EventLoop.EventLoop.ProcessTaskQueue | reactor/event_loop.cpp:85-103 | the queue is drained front first, each task once |
| EventLoop.EventLoop.RunTask | reactor/event_loop.cpp:67-83 | on the loop's own thread the queue is drained at once, up to and including the new task, and the table is what all of them make of it |
| EventLoop.EventLoop.EventActivate | reactor/event_loop.cpp:50-65 | called only for a mapped channel whose registration is the one poll reported; all its tasks have run when it returns, in order and behind what waited, and the table is what they make of it |
| EventLoop.EventLoop.Dispatch | reactor/poll_dispatcher.cpp:83-102 | under callbacks that add, remove and modify at will: every activation was reported by this poll, none twice, and nothing still registered was forgotten; what has run is the old queue and the tasks of the activations in their order, and the table is what that makes of the polled one; the scan ends |
| EventLoop.EachCallbacksTasks | reactor/event_loop.cpp:50-83 | the tasks of every callback are among those, in their place |
| SelectTable.SelectDispatcher.Add | reactor/select_dispatcher.cpp:14-21 | the bits of the events are set, -1 for descriptors from 1024 on |
| SelectTable.SelectDispatcher.Remove | reactor/select_dispatcher.cpp:23-27 | only the bits of the channel's present events are cleared |
| SelectTable.SelectDispatcher.Modify | reactor/select_dispatcher.cpp:29-40 | each bit set clears the other, write last |
| SelectTable.OwnInterest | reactor/poll_dispatcher.cpp:20-81 | what the poll table says of a descriptor after a task on it |
| SelectTable.OthersUntouched | reactor/poll_dispatcher.cpp:20-81 | a task leaves the interest and the presence of all other descriptors alone |
| SelectTable.AgreeIff | reactor/select_dispatcher.cpp:14-40 | poll and select agree after a task exactly under a condition on the task |
| SelectTable.RunsAgree | reactor/select_dispatcher.cpp:14-40 | they agree over every run of such tasks |
| SelectTable.DisciplinedRunsAgree | reactor/select_dispatcher.cpp:65-81 | with one bit at a time and a modify after each change they agree from the start on |
| SelectScan.SelectLoop.Dispatch | reactor/select_dispatcher.cpp:42-63 | the scan over the returned sets meets only mapped channels exactly when the events and callbacks are safe, and its final channel map is what the callbacks called make of it |
| SelectScan.EventsExact | reactor/select_dispatcher.cpp:49-60 | the scan calls for exactly the read and write bits that select returned, by descriptor and read before write |
| SelectScan.SafeIff | reactor/select_dispatcher.cpp:42-63 | the scan is safe exactly when for each event the last add or freeing delete of its descriptor by an earlier callback is an add, or there is none and the channel was mapped |
| Lives.LivesAreDisciplined | reactor/event_loop.cpp:105-139 | from any regular table, any interleaving of lives meets the discipline under which poll and select agree, and ends in a regular table |
| Lives.InterleavedLivesAgree | reactor/select_dispatcher.cpp:14-40 | any interleaving of the lives of any descriptors, one life after the other on each, leaves poll and select with the same interest map, one event a descriptor |
| SelectScan.OneBitScanIsSafe | reactor/select_dispatcher.cpp:42-63 | with one bit a descriptor, select's scan finds every channel if callbacks free only their own |
| Lives.ServerScanIsSafe | reactor/select_dispatcher.cpp:42-63 | after any interleaving of lives, the select scan over whatever select returns finds every channel, if callbacks free only their own |
| SelectScan.FreeingAnotherIsUnsafe | reactor/select_dispatcher.cpp:42-63 | if the callback of a readable descriptor frees the next one's channel, the scan comes to a missing channel |
| WakeUp.RunKeepsInv | reactor/event_loop.cpp:67-103 | over every interleaving a loop in poll with work queued has a byte in the pipe or a writer about to write |
| WakeUp.NoLostWakeUp | reactor/event_loop.cpp:36-48 | tasks start in push order, each once, and an unwoken loop with no writer left has started all; the pipe read never blocks |
| WakeUp.PushedIsHistory | reactor/event_loop.cpp:67-73 | the history of the queue is the pushes of the run in order |
| WakeUp.WokenLoopDrains | reactor/event_loop.cpp:36-103 | a woken loop can start all that is queued by its own steps, reading up to 256 bytes of the pipe |
| WakeUp.ComesToRest | reactor/event_loop.cpp:36-103 | from every reachable state the system can come to rest without another push, with all that was pushed started and the pipe empty; it never gets stuck |
| WakeUp.PushedCanStart | reactor/event_loop.cpp:67-83 | whoever pushes, in whatever state, the task can be started behind all that was pushed before |
| Dealer.ChoicesOfDraw | game/communication.cpp:331-344 | different random choices deal different cards: the choices can be read off the deal |
| Dealer.DrawOfChoices | game/communication.cpp:331-344 | every ordered deal of distinct deck cards comes from legal choices |
| Dealer.RestInDeckOrder | game/communication.cpp:303-308 | the cards left are the deck without the drawn ones, in deck order |
| Dealer.NothingLost | game/communication.cpp:290-308 | drawn and left cards together are the deck |
| Dealer.FullDeckDistinct | game/communication.cpp:318-329 | the deck has each of the 54 cards once, by suit and then by rank |
| Dealer.EmplacedPlace | game/communication.cpp:323-328 | a multimap insertion puts a card behind those of its own and smaller suits and before the others |
| Dealer.Deck.Emplace | game/communication.cpp:323-328 | a card goes behind those of the same and smaller suits |
| Dealer.Deck.InitCards | game/communication.cpp:318-329 | the multimap holds the deck, jokers first |
| Dealer.Deck.TakeOneCard | game/communication.cpp:331-344 | the chosen card is removed and returned |
| Dealer.Deck.DealCards | game/communication.cpp:290-308 | 51 distinct cards are dealt as chosen, 3 stay in deck order, together the deck |
| Text.WriteCards | game/communication.cpp:295-308 | the card text reads back to the cards in order |
| Text.CardsRead | game/communication.cpp:298-298 | every card text reads back |
| Text.CardsTextInjective | game/communication.cpp:298-298 | different card lists have different texts |
| Text.CardSpelled | game/communication.cpp:298-298 | what a card text looks like |
| Text.IntReads | game/room.cpp:140-140 | every score, negative ones too, reads back from its digits |
| Text.OrderReads | game/room.cpp:139-143 | with names free of the separators the order text reads back to names, positions and scores |
| Text.OrderSpelled | game/room.cpp:140-140 | what an order text looks like |
| Text.HashFreeInjective | game/room.cpp:139-143 | names free of `#`: different rankings have different texts, for all scores |
| Text.DashFreeInjective | game/room.cpp:139-143 | names free of `-`: different rankings have different texts, for all scores |
| Text.UnambiguousIff | game/room.cpp:139-143 | for names over an alphabet with the digits, texts tell all rankings apart exactly when the alphabet lacks one of the separators |
| Text.SeparatorsInNamesCollide | game/room.cpp:139-143 | two rankings by falling score, with both separators in names, that have the same text |
| PlayersOrder.EachMemberOnce | game/room.cpp:133-138 | the ranking lists each member once by non-increasing score |
| PlayersOrder.OneOrder | doc/process.md:96-96 | there is only one ranking of a room, so all players get the same |
| PlayersOrder.OrderForInstance | game/room.cpp:138-138 | the higher score comes first, of equal scores the later name |
| PlayersOrder.SomeOrder | game/room.cpp:138-138 | every room has a ranking |
| PlayersOrder.PlayersOrderText | game/room.cpp:133-146 | the loop writes the ranking with indices from 1, and a client reads it back |

## Left out

- Encryption, hashing and Base64 (crypto/): wrappers over OpenSSL; the byte path is modelled as if decryption were the identity.
- Redis and MySQL clients, SQL text, configuration and logging: sets and maps with atomic operations; room names are taken to differ from the six reserved keys.
- Interleavings inside one request handler: a request is one step, so races between handlers on different threads are not covered.
- Login, registration and exit: single status changes in the database.
- EpollDispatcher: its table lives in the kernel. The repository's README.md names an edge-triggered mode, but `epoll_op` sets no `EPOLLET` (reactor/epoll_dispatcher.cpp:70-84).
- http/ and the round robin of the thread pool: not used by the game protocol, or easy.
- WorkerThread start-up: its wait condition is inverted (thread/worker_thread.cpp:15), so there is no guarantee to prove.
- Errors of `poll`, `select`, `accept`, `realloc` and the socket pair, and integer overflow of buffer positions.
- Buffer.Buffer.TakeFrame: what happens after a read that leaves the block, or with a negative length, is not modelled; nor are the bytes behind the content, which a too early take uses.
- Codec.Information.InternalParse: of a text cut short by the end of the bytes, what its field holds is left open, and of an unknown field that is, whether a part is kept; both are library behaviour.
- WakeUp.NoLostWakeUp: a safety property; `WakeUp.ComesToRest` says that all can be finished, not that a scheduler lets it.
- Arena allocation, reflection and swapping in the generated message class, and serialising more than 2 GB.
