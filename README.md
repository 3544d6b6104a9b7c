# Room lifecycle of the Battle of Life lobby

Five serverless handlers manage the game rooms of the lobby. Each one is a
short sequence of reads and conditional writes against three tables:

- `rooms`: id to join code, mode (2 to 16 seats), status, host user id and
  start time;
- `players`: one row per member of a room, in join order;
- `game_states`: rows written by the game engine, read here.

The handlers are:

- `create-room` draws a six-symbol join code and draws again while a live
  room uses it. It then inserts a waiting room whose creator is its only
  player and host.
- `join-room` finds a room by its code, ignoring case. It refuses a room in
  play or finished. It answers a member who joins again without changing
  anything, refuses a full room, and otherwise seats the newcomer.
- `leave-room` removes a member. It deletes the room once it is empty. When
  the host left, it makes the earliest-joined remaining player host.
- `player-ready` sets a member's ready flag.
- `room-state` is the poll clients repeat. It reports the room and its
  players, and starts the game when at least two players are all ready.
  While the game is playing it also reports the newest game state.

The store is the `Tables` value. The `Database` class holds the same tables
as fields. Each handler has two parts:

- a ghost function `Step`, the request once its fields are present, and
  `Serve`, the whole request;
- imperative methods `Handler` and `Apply` that update the `Database`
  object in place. They are proved to leave exactly the state `Serve` or
  `Step` describes and to keep the store invariant. The helpers
  `LeaveRoom.Remove` and `RoomState.Poll` are proved to leave the state
  `Depart` or `Observe` describes. The code generators
  `JoinCode.GenerateJoinCode` and `CreateRoom.AllocateJoinCode` only
  compute a value and leave the database alone.

The invariant (`Schema.Invariant`, on every room) says:

- the room's members have distinct user ids;
- there are between 1 and `mode` of them;
- the host flag is set exactly on the member that `hostUserId` names, so a
  room has exactly one host (`Schema.OneHost`);
- the join code is well formed and no other room has it;
- a waiting room has no start time, and a playing one has one.

`Schema.Evolves` says how the store may move:

- ids are never reused;
- codes and modes never change;
- a status only moves forward;
- a recorded start time is kept.

`Lobby` serves any sequence of requests. It proves that the invariant and
`Evolves` hold along every run, and it proves facts that involve several
handlers.

The join-code alphabet in `create-room.js` has 32 symbols: the capital
letters without I and O, and the digits 2 to 9; the model follows the code
(`JoinCode.AlphabetShape`).

## Model

| member | source | states |
|---|---|---|
| JoinCode.AlphabetShape | netlify/functions/create-room.js:13 | the alphabet has 32 pairwise distinct symbols, none of I, O, 0, 1, and it holds exactly the capital letters other than I and O and the digits 2 to 9 |
| JoinCode.CodeOf | netlify/functions/create-room.js:14-17 | the code a draw spells has one symbol per draw, the alphabet symbol at the drawn position |
| JoinCode.DrawIsJoinCode | netlify/functions/create-room.js:12-19 | every draw spells a well-formed join code: six alphabet symbols |
| JoinCode.EveryCodeIsDrawable | netlify/functions/create-room.js:12-19 | every well-formed join code is spelled by some draw, so the generator covers the whole code space |
| JoinCode.GenerateJoinCode | netlify/functions/create-room.js:12-19 | the appending loop returns the code the draws spell, a well-formed join code |
| JoinCode.ToUpper | netlify/functions/join-room.js:43 | the same length as the input, with each character upper-cased |
| JoinCode.UpperMatchesIgnoringCase | netlify/functions/join-room.js:41-44 | the upper-cased request equals a join code exactly when the request spells that code in some mix of cases |
| JoinCode.UpperOfJoinCode | netlify/functions/join-room.js:41-44 | upper-casing leaves a stored join code unchanged |
| Schema.IndexOf | netlify/functions/leave-room.js:41-44 | the first row of the user, or -1 exactly when the user has no row |
| Schema.RoomByCode | netlify/functions/join-room.js:41-44 | the looked-up room has the code, and nothing is found exactly when no live room has the code |
| Schema.RoomByOwnCode | netlify/functions/join-room.js:41-52 | with unique codes, a room's own code finds exactly that room |
| Schema.OneHost | netlify/functions/leave-room.js:54-90 | a valid room has exactly one player flagged host, and it is the one `hostUserId` names |
| Schema.ValidRoom | netlify/functions/join-room.js:73-110 | what every live room satisfies: a mode in [2, 16], a well-formed code, between 1 and `mode` members with distinct user ids, the host flag set exactly on the member `hostUserId` names, no start time while waiting and one while playing |
| Schema.CodesUnique | netlify/functions/create-room.js:62-73 | no two live rooms share a join code |
| Schema.Invariant | netlify/functions/create-room.js:62-90 | the store invariant: rooms and player lists have the same ids, every id is below the next id to hand out, every room is valid, codes are unique |
| Schema.RoomEvolves | netlify/functions/room-state.js:77-84 | how a surviving room may change: code and mode fixed, status only forward, a recorded start time kept |
| Schema.Evolves | netlify/functions/room-state.js:77-84 | how the store may change under any handler: the next id never decreases, new rooms get ids from it, game states are untouched, and surviving rooms only evolve |
| Schema.Database.Contents | netlify/functions/create-room.js:76-90 | the three tables the handlers share, read from the object's fields |
| CreateRoom.AllocatedCode | netlify/functions/create-room.js:62-73 | the code the retry loop settles on: the one spelled by the first attempt no live room uses |
| CreateRoom.Step | netlify/functions/create-room.js:54-90 | a mode outside [2, 16] is refused with no change; otherwise a waiting room with the allocated code, the mode and the creator as host goes in under the next id, with the creator as its only player, host and not ready |
| CreateRoom.Serve | netlify/functions/create-room.js:43-101 | an empty user id or name is refused with MissingFields and no change, whatever the draws; anything else is `Step` |
| JoinRoom.Step | netlify/functions/join-room.js:40-52 | the room is looked up by the upper-cased code; no room gives NotFound with no change; a found room goes through `Admit` |
| JoinRoom.Admit | netlify/functions/join-room.js:56-110 | the guards in source order: playing gives GameInProgress, finished GameEnded, a member Ok with "already in room", a count at the mode RoomFull, all with no change; otherwise a not-ready non-host is appended |
| JoinRoom.Serve | netlify/functions/join-room.js:30-120 | an empty user id, name or code is refused with MissingFields and no change; anything else is `Step` |
| LeaveRoom.Step | netlify/functions/leave-room.js:40-52 | an unknown room or a non-member gives NotFound with no change; a member is removed by `Depart` at their row |
| LeaveRoom.Depart | netlify/functions/leave-room.js:56-91 | the row goes; an emptied room is deleted with its list; when the leaver was flagged host, the first remaining player is flagged host and `hostUserId` names them; otherwise only the list changes |
| LeaveRoom.Serve | netlify/functions/leave-room.js:30-100 | an empty user id or room id 0 is refused with MissingFields and no change; anything else is `Step` |
| PlayerReady.Mark | netlify/functions/player-ready.js:41-47 | every row of the user gets the new flag; rows keep their order and every other field |
| PlayerReady.Step | netlify/functions/player-ready.js:41-64 | a member's rows are marked and the answer echoes the flag; no row gives NotFound with no change |
| PlayerReady.Serve | netlify/functions/player-ready.js:30-65 | an empty user id or room id 0 is refused with MissingFields and no change; anything else is `Step` |
| RoomState.AllReady | netlify/functions/room-state.js:75 | at least two players, every one of them ready |
| RoomState.History | netlify/functions/room-state.js:89-96 | the game-state rows stored for the room, none for a room never played |
| RoomState.Step | netlify/functions/room-state.js:40-52 | an unknown room gives NotFound with no change; an existing one is polled by `Observe` |
| RoomState.Observe | netlify/functions/room-state.js:54-115 | a waiting room whose players are all ready becomes playing with the poll's time as start time; the answer carries the room after that, its players in join order, the newest game state while playing, and `allReady` |
| RoomState.Serve | netlify/functions/room-state.js:30-115 | room id 0 or an empty user id is refused with MissingFields and no change; anything else is `Step` |
| Lobby.Completes | netlify/functions/create-room.js:66-73 | a request completes unless it is a create with its user id and name present and a valid mode whose attempts all draw used codes; a create with a missing field never draws |
| Lobby.Next | netlify/functions/create-room.js:43-101 | one request to any of the five handlers (create, join, leave, ready, poll) served by that handler's `Serve`; a request that does not complete changes nothing |
| Lobby.Run | netlify/functions/join-room.js:30-120 | the requests of a sequence served one after another, each by its own handler |
| CreateRoom.FirstUnused | netlify/functions/create-room.js:66-73 | the pass at which the retry loop stops: its code is unused, and every earlier pass collided |
| CreateRoom.ModeGate | netlify/functions/create-room.js:54-60 | InvalidMode exactly when the mode is below 2 or above 16, and a refused create changes nothing |
| CreateRoom.FreshCode | netlify/functions/create-room.js:62-73 | the allocated code is well formed, used by no live room, and drawn on the first attempt that missed every live code |
| CreateRoom.AllocateJoinCode | netlify/functions/create-room.js:62-73 | the retry loop ends with the first unused drawn code |
| CreateRoom.NewRoom | netlify/functions/create-room.js:75-90 | a fresh id; a waiting room with the requested mode, the creator as host and no start time; its one player is the creator, host and not ready; earlier rooms and players are unchanged |
| CreateRoom.HostOnlyRoomValid | netlify/functions/create-room.js:86-90 | a waiting room whose only player is its host is valid |
| CreateRoom.StepKeepsInvariant | netlify/functions/create-room.js:54-90 | a create keeps the store invariant and only moves the store forward |
| CreateRoom.RejectsMissingFields | netlify/functions/create-room.js:46-52 | refused for missing fields exactly when the user id or name is empty, and then nothing changes |
| CreateRoom.ServeKeepsInvariant | netlify/functions/create-room.js:43-101 | a whole create request keeps the invariant and only moves the store forward |
| CreateRoom.Handler | netlify/functions/create-room.js:43-101 | the database ends as the whole request describes and stays valid |
| CreateRoom.Apply | netlify/functions/create-room.js:54-90 | the mode check, the allocation and the two inserts leave the state of `Step`, and the database stays valid |
| JoinRoom.LookupIgnoresCase | netlify/functions/join-room.js:41-44 | the upper-cased request finds a room exactly when it spells that room's code in some mix of cases |
| JoinRoom.UnknownCode | netlify/functions/join-room.js:41-52 | a code that spells no live room's code gives NotFound and no change |
| JoinRoom.StatusGates | netlify/functions/join-room.js:56-71 | a playing room gives GameInProgress and a finished one GameEnded, to members too, with no change |
| JoinRoom.Rejoin | netlify/functions/join-room.js:73-89 | a member of a waiting room is answered with the room's id and mode, and nothing changes |
| JoinRoom.Full | netlify/functions/join-room.js:91-103 | a newcomer to a waiting room with as many members as its mode gets RoomFull and no change |
| JoinRoom.Seat | netlify/functions/join-room.js:105-110 | a newcomer with a free seat is appended last, not host and not ready; the count grows by one within the mode; no room, no other player and not the next id changes |
| JoinRoom.SeatKeepsRoomValid | netlify/functions/join-room.js:105-110 | seating a new non-host in a room with a free seat keeps it valid |
| JoinRoom.AdmitKeepsInvariant | netlify/functions/join-room.js:56-110 | the guards and insert after a lookup keep the invariant and only move the store forward |
| JoinRoom.StepKeepsInvariant | netlify/functions/join-room.js:41-110 | a join keeps the invariant and only moves the store forward |
| JoinRoom.RejectsMissingFields | netlify/functions/join-room.js:32-38 | refused for missing fields exactly when the user id, name or code is empty, and then nothing changes |
| JoinRoom.ServeKeepsInvariant | netlify/functions/join-room.js:30-120 | a whole join request keeps the invariant and only moves the store forward |
| JoinRoom.Handler | netlify/functions/join-room.js:30-120 | the database ends as the whole request describes and stays valid |
| JoinRoom.Apply | netlify/functions/join-room.js:40-120 | the lookup, the guards and the insert leave the state of `Step`, and the database stays valid |
| LeaveRoom.Without | netlify/functions/leave-room.js:56-60 | one row fewer, the rows before it and after it in their order |
| LeaveRoom.NotAMember | netlify/functions/leave-room.js:40-52 | a user with no row in the room, or an unknown room, gives NotFound and no change |
| LeaveRoom.RemovesOnlyTheLeaver | netlify/functions/leave-room.js:56-91 | on success the leaver is gone; a surviving room keeps the other players in order with their fields, except that the first may become host; other rooms and the next id are unchanged |
| LeaveRoom.DepartRemovesRow | netlify/functions/leave-room.js:56-91 | removing the row at a position has the effect stated for `RemovesOnlyTheLeaver` |
| LeaveRoom.WithoutRemovesUser | netlify/functions/leave-room.js:56-60 | removing a row keeps user ids distinct and takes out exactly that row's user |
| LeaveRoom.LastLeaverDeletesRoom | netlify/functions/leave-room.js:62-70 | when the only member leaves, the room and its player list are deleted and no other room record or player list is touched |
| LeaveRoom.HostFailover | netlify/functions/leave-room.js:71-90 | when the host leaves a room others remain in, the earliest-joined of them becomes host and `hostUserId` names them; nothing else in the room record changes |
| LeaveRoom.NonHostLeaves | netlify/functions/leave-room.js:71 | when a non-host leaves, the room record, and so `hostUserId`, is unchanged, and the others keep their host flags |
| LeaveRoom.NonHostRemovalKeepsRoomValid | netlify/functions/leave-room.js:56-71 | removing a non-host from a room with others keeps it valid |
| LeaveRoom.FailoverKeepsRoomValid | netlify/functions/leave-room.js:71-90 | removing the host and promoting the first remaining player gives a valid room hosted by that player |
| LeaveRoom.DeleteRoomKeepsInvariant | netlify/functions/leave-room.js:62-70 | deleting a room keeps the invariant and only moves the store forward |
| LeaveRoom.FailoverKeepsInvariant | netlify/functions/leave-room.js:71-90 | the host failover keeps the invariant, including exactly one host, and only moves the store forward |
| LeaveRoom.NonHostRemovalKeepsInvariant | netlify/functions/leave-room.js:56-71 | removing a non-host keeps the invariant and only moves the store forward |
| LeaveRoom.DepartKeepsInvariant | netlify/functions/leave-room.js:54-91 | each of the three removal rules keeps the invariant and only moves the store forward |
| LeaveRoom.StepKeepsInvariant | netlify/functions/leave-room.js:40-91 | a leave keeps the invariant and only moves the store forward |
| LeaveRoom.RejectsMissingFields | netlify/functions/leave-room.js:32-38 | refused for missing fields exactly when the user id is empty or the room id is 0, and then nothing changes |
| LeaveRoom.ServeKeepsInvariant | netlify/functions/leave-room.js:30-100 | a whole leave request keeps the invariant and only moves the store forward |
| LeaveRoom.Handler | netlify/functions/leave-room.js:30-100 | the database ends as the whole request describes and stays valid |
| LeaveRoom.Apply | netlify/functions/leave-room.js:40-100 | the membership check and the removal leave the state of `Step`, and the database stays valid |
| LeaveRoom.Remove | netlify/functions/leave-room.js:56-91 | the row delete, then the room delete or the host failover, leave the state `Depart` describes |
| PlayerReady.NotInRoom | netlify/functions/player-ready.js:41-55 | a user with no row in the room gives NotFound and no change |
| PlayerReady.SetsOnlyThatFlag | netlify/functions/player-ready.js:41-64 | a member gets Ok with the flag sent; only that member's ready flag changes; rooms, and so every status, other rooms' players and other fields are unchanged |
| PlayerReady.LastUpdateWins | netlify/functions/player-ready.js:41-47 | two updates of one flag equal the second alone; with equal values, a repeated update equals a single one |
| PlayerReady.UpdatesCommute | netlify/functions/player-ready.js:41-47 | updates of different players, or in different rooms, give the same store in either order |
| PlayerReady.MarkKeepsMembers | netlify/functions/player-ready.js:41-47 | the update changes no user id and no host flag, so membership is unchanged |
| PlayerReady.MarkKeepsRoomValid | netlify/functions/player-ready.js:41-47 | the update keeps a room valid |
| PlayerReady.StepKeepsInvariant | netlify/functions/player-ready.js:41-64 | a ready update keeps the invariant and only moves the store forward |
| PlayerReady.RejectsMissingFields | netlify/functions/player-ready.js:32-38 | refused for missing fields exactly when the user id is empty or the room id is 0, and then nothing changes |
| PlayerReady.ServeKeepsInvariant | netlify/functions/player-ready.js:30-65 | a whole ready request keeps the invariant and only moves the store forward |
| PlayerReady.Handler | netlify/functions/player-ready.js:30-65 | the database ends as the whole request describes and stays valid |
| PlayerReady.Apply | netlify/functions/player-ready.js:41-65 | the update and the not-found check leave the state of `Step`, and the database stays valid |
| RoomState.Latest | netlify/functions/room-state.js:89-100 | nothing exactly when there are no rows; otherwise one of the rows, of greatest generation |
| RoomState.UnknownRoom | netlify/functions/room-state.js:40-52 | an unknown or deleted room gives NotFound and no change |
| RoomState.StartsExactlyWhenAllReady | netlify/functions/room-state.js:74-84 | the status changes exactly when the room is waiting and at least two players are all ready; it then becomes playing with the start time recorded; otherwise the store is unchanged; players, game states and other rooms are never changed |
| RoomState.ViewReflectsRoom | netlify/functions/room-state.js:56-115 | the answer gives the room's id, mode, status after the poll and host, all its players in join order with every field, and `allReady` exactly when at least two players are all ready |
| RoomState.GameStateOnlyWhilePlaying | netlify/functions/room-state.js:86-101 | a game state is reported exactly when the room is playing and has stored states, and then it is one of greatest generation |
| RoomState.PollIsIdempotent | netlify/functions/room-state.js:77-84 | a second poll, at any time and by anyone, gives the same answer and the same store, so the start time is not reset |
| RoomState.StartKeepsRoomValid | netlify/functions/room-state.js:77-84 | starting a valid room keeps it valid |
| RoomState.StartKeepsInvariant | netlify/functions/room-state.js:77-84 | starting a waiting room keeps the invariant and only moves the store forward |
| RoomState.StepKeepsInvariant | netlify/functions/room-state.js:40-101 | a poll keeps the invariant and only moves the store forward |
| RoomState.RejectsMissingFields | netlify/functions/room-state.js:30-38 | refused for missing fields exactly when the room id is 0 or the user id is empty, and then nothing changes |
| RoomState.ServeKeepsInvariant | netlify/functions/room-state.js:30-115 | a whole poll request keeps the invariant and only moves the store forward |
| RoomState.Handler | netlify/functions/room-state.js:30-115 | the database ends as the whole request describes and stays valid |
| RoomState.Apply | netlify/functions/room-state.js:40-115 | the lookup and the poll leave the state of `Step`, and the database stays valid |
| RoomState.Poll | netlify/functions/room-state.js:54-115 | reading the room, starting it and reading the newest game state answer and leave what `Observe` describes |
| Lobby.NextKeepsInvariant | netlify/functions/leave-room.js:54-90 | serving any one request of any of the five handlers (create-room, join-room, leave-room, player-ready, room-state) keeps the invariant and only moves the store forward |
| Lobby.RunKeepsInvariant | netlify/functions/room-state.js:77-84 | along any sequence of requests to the five handlers the invariant holds; ids are never reused; codes and modes never change; status only moves forward; start times are kept |
| Lobby.EveryRoomHasOneHost | netlify/functions/leave-room.js:54-90 | from the empty store, after any requests every room has between one and `mode` players and exactly one host, the one `hostUserId` names |
| Lobby.DeletedRoomStaysDeleted | netlify/functions/create-room.js:76-83 | a room id that is gone never comes back, because created rooms get fresh ids |
| Lobby.AbandonedRoomIsGone | netlify/functions/leave-room.js:62-70 | after the last member leaves, a poll, a ready update and a leave naming the room give NotFound, and so does a join with its code in any case |
| Lobby.CreatedRoomIsJoinable | netlify/functions/create-room.js:75-90 | another user joining with the code just created, in any case, takes the second seat as a non-host who is not ready |
| Lobby.StartedGameRefusesJoin | netlify/functions/room-state.js:77-84 | once a poll has started the game, every join with the room's code gets GameInProgress and changes nothing |

## Left out

- HTTP framing is not modelled: CORS headers, the OPTIONS and method checks, status codes, and the catch-all 500 answer for exceptions and malformed JSON.
- The `pg` pool, connection setup and SQL text are not modelled. The tables are maps of values, and a room's rows are a sequence in join order. This order stands for `joined_at`, which is not stored.
- `Math.random` and `Math.floor` in `generateJoinCode` are not modelled. Each draw is given as six alphabet positions, the `attempts` argument of a create.
- CreateRoom.Step: the retry loop is unbounded in the source. The model takes a finite list of draws and requires (for a valid mode) that one of them spells an unused code. `Lobby.Next` treats a create whose draws all collide as a request that never completes.
- Concurrency is not modelled: races between handlers, and the lack of transactions across a handler's several queries. Each handler is one atomic step.
- `NOW()` is the `now` argument of a poll, which becomes the room's start time. `created_at` and `joined_at` are not stored.
- `team`, `bet`, `state_data` and `winner` are carried along unchanged. Their content belongs to the game engine, and the handlers never write game-state rows.
- The move to `finished` is not modelled, since none of the five handlers performs it. The model still handles finished rooms wherever the handlers read the status.
- JoinCode.ToUpper: upper-cases only the ASCII letters a to z, one character for one. `toUpperCase` also maps other characters onto alphabet symbols, some of them onto two: U+017F (long s) to S, U+00DF (sharp s) to SS, and the ligatures U+FB00, U+FB02, U+FB04, U+FB05 and U+FB06 to FF, FL, FFL, ST and ST, so it can lengthen the string. A request such as "\u017F23456" or the five-character "\u00DF2345" therefore finds room S23456 or SS2345 in the source, but gets NotFound in the model.
- Mode validation covers integer modes only. A JSON mode that is fractional or not a number compares under JavaScript's coercion rules, which the model does not follow.
- Missing fields are the empty string, and the room id 0, which encodes an absent (or falsy) room id parameter; real room ids start at 1. Absent or null user ids, and player-ready's `typeof ready` check, are ruled out by the parameter types.
- RoomState.Serve: the poll reads its room id from the query string, where it is a string, and the string "0" is truthy there. A poll for room "0" passes the field check in the source and gets NotFound from the room lookup; in the model room id 0 stands for the absent parameter and gets MissingFields. The same holds for a room id sent as the JSON string "0" to leave-room or player-ready.
- LeaveRoom.Step removes the row it found. The SQL `DELETE` removes every row of that user, which is the same single row in any store that keeps the invariant.
- Schema.RoomByCode picks one room when several share a code, as an SQL query without `ORDER BY` would. Stores that keep the invariant never have such rooms.
- RoomState.Latest picks the earliest stored row among rows of equal greatest generation. The SQL leaves that choice open; the proved contract allows any of them.
- RoomState.Step takes the poller's user id but does not use it, as the handler requires it and never consults it.
