/** room-state.js: the poll that clients repeat. It reports the room, its
    players in join order and, while the game runs, the newest game state;
    the first poll that sees a waiting room whose players are all ready (at
    least two of them) starts the game. */
module RoomState {
  import opened Schema

  /** The response body of a successful poll. */
  datatype RoomView = RoomView(
    roomId: RoomId,
    mode: int,
    status: Status,
    hostUserId: UserId,
    players: seq<Player>,
    gameState: Option<GameState>,
    allReady: bool)

  /** `players.length >= 2 && players.every(p => p.ready)`. */
  predicate AllReady(ps: seq<Player>) {
    |ps| >= 2 && forall i :: 0 <= i < |ps| ==> ps[i].ready
  }

  /** The game-state rows stored for a room; none for a room never played. */
  function History(t: Tables, roomId: RoomId): seq<GameState> {
    if roomId in t.gameStates then t.gameStates[roomId] else []
  }

  /** `ORDER BY generation DESC LIMIT 1`: a row of greatest generation, or
      nothing when there are no rows. */
  function Latest(rows: seq<GameState>): (g: Option<GameState>)
    ensures g.None? <==> rows == []
    ensures g.Some? ==> g.value in rows
    ensures g.Some? ==> forall i :: 0 <= i < |rows| ==> rows[i].generation <= g.value.generation
  {
    if rows == [] then None
    else match Latest(rows[1..]) {
      case None => Some(rows[0])
      case Some(h) => if h.generation > rows[0].generation then Some(h) else Some(rows[0])
    }
  }

  /** A request whose fields are present, as one step. `now` is the
      database clock read by `NOW()`; `userId` is required by the handler
      but takes no part in the answer. */
  ghost function Step(t: Tables, roomId: RoomId, userId: UserId, now: nat): Transition<RoomView>
    requires t.rooms.Keys == t.players.Keys
  {
    if roomId !in t.rooms then Transition(Fail(NotFound), t)
    else Observe(t, roomId, now)
  }

  /** A poll of an existing room. */
  ghost function Observe(t: Tables, roomId: RoomId, now: nat): Transition<RoomView>
    requires t.rooms.Keys == t.players.Keys && roomId in t.rooms
  {
    var room := t.rooms[roomId];
    var ps := t.players[roomId];
    var allReady := AllReady(ps);
    var starts := allReady && room.status == Waiting;
    var room' := if starts then room.(status := Playing, startedAt := Some(now)) else room;
    var t' := if starts then t.(rooms := t.rooms[roomId := room']) else t;
    var gs := if room'.status == Playing then Latest(History(t, roomId)) else None;
    Transition(Ok(RoomView(roomId, room'.mode, room'.status, room'.hostUserId, ps, gs, allReady)), t')
  }

  /** An unknown (or deleted) room is answered NotFound and nothing changes. */
  lemma UnknownRoom(t: Tables, roomId: RoomId, userId: UserId, now: nat)
    requires t.rooms.Keys == t.players.Keys && roomId !in t.rooms
    ensures Step(t, roomId, userId, now) == Transition(Fail(NotFound), t)
  {
  }

  /** A poll starts the game exactly when the room is waiting and at least two
      players are all ready; starting sets the status to playing and records
      the start time, and a poll changes nothing else in the store. */
  lemma StartsExactlyWhenAllReady(t: Tables, roomId: RoomId, userId: UserId, now: nat)
    requires t.rooms.Keys == t.players.Keys && roomId in t.rooms
    ensures var r := Step(t, roomId, userId, now);
            var room := t.rooms[roomId];
            var ps := t.players[roomId];
            && roomId in r.tables.rooms
            && ((r.tables.rooms[roomId].status != room.status)
                  <==> (room.status == Waiting && |ps| >= 2 && forall i :: 0 <= i < |ps| ==> ps[i].ready))
            && (r.tables.rooms[roomId].status != room.status ==>
                  r.tables.rooms[roomId] == room.(status := Playing, startedAt := Some(now)))
            && (r.tables.rooms[roomId].status == room.status ==> r.tables == t)
            && r.tables.players == t.players && r.tables.gameStates == t.gameStates
            && r.tables.nextId == t.nextId && r.tables.rooms.Keys == t.rooms.Keys
            && (forall x :: x in t.rooms && x != roomId ==> r.tables.rooms[x] == t.rooms[x])
  {
  }

  /** The answer reports the room as it is after the poll, all of its players
      in join order with every field, and whether they are all ready. */
  lemma ViewReflectsRoom(t: Tables, roomId: RoomId, userId: UserId, now: nat)
    requires t.rooms.Keys == t.players.Keys && roomId in t.rooms
    ensures var r := Step(t, roomId, userId, now);
            var ps := t.players[roomId];
            && r.outcome.Ok?
            && var v := r.outcome.value;
            && roomId in r.tables.rooms
            && v.roomId == roomId
            && v.mode == r.tables.rooms[roomId].mode
            && v.status == r.tables.rooms[roomId].status
            && v.hostUserId == r.tables.rooms[roomId].hostUserId
            && v.players == r.tables.players[roomId]
            && (v.allReady <==> |ps| >= 2 && forall i :: 0 <= i < |ps| ==> ps[i].ready)
  {
  }

  /** A game state is reported exactly while the game is playing and the room
      has stored states, and then it is one of greatest generation. */
  lemma GameStateOnlyWhilePlaying(t: Tables, roomId: RoomId, userId: UserId, now: nat)
    requires t.rooms.Keys == t.players.Keys && roomId in t.rooms
    ensures var r := Step(t, roomId, userId, now);
            var rows := History(t, roomId);
            && r.outcome.Ok?
            && var v := r.outcome.value;
            && (v.gameState.Some? <==> v.status == Playing && rows != [])
            && (v.gameState.Some? ==>
                  && v.gameState.value in rows
                  && forall i :: 0 <= i < |rows| ==> rows[i].generation <= v.gameState.value.generation)
  {
  }

  /** Polling again, at any later time and as anyone, gives the same answer and
      changes nothing more. */
  lemma PollIsIdempotent(t: Tables, roomId: RoomId, u1: UserId, now1: nat, u2: UserId, now2: nat)
    requires t.rooms.Keys == t.players.Keys
    ensures Step(Step(t, roomId, u1, now1).tables, roomId, u2, now2) == Step(t, roomId, u1, now1)
  {
  }

  /** A poll keeps the store invariant and only moves the store forward; in
      particular a started game keeps its start time. */
  lemma StepKeepsInvariant(t: Tables, roomId: RoomId, userId: UserId, now: nat)
    requires Invariant(t)
    ensures Invariant(Step(t, roomId, userId, now).tables)
    ensures Evolves(t, Step(t, roomId, userId, now).tables)
  {
    if roomId in t.rooms && AllReady(t.players[roomId]) && t.rooms[roomId].status == Waiting {
      StartKeepsInvariant(t, roomId, now);
    }
  }

  lemma StartKeepsInvariant(t: Tables, roomId: RoomId, now: nat)
    requires Invariant(t) && roomId in t.rooms && t.rooms[roomId].status == Waiting
    ensures var t' := t.(rooms := t.rooms[roomId := t.rooms[roomId].(status := Playing, startedAt := Some(now))]);
            Invariant(t') && Evolves(t, t')
  {
    var room := t.rooms[roomId];
    var room' := room.(status := Playing, startedAt := Some(now));
    StartKeepsRoomValid(room, t.players[roomId], now);
    UpdateKeepsInvariant(t, roomId, room', t.players[roomId]);
    assert t.players[roomId := t.players[roomId]] == t.players;
  }

  lemma StartKeepsRoomValid(room: Room, ps: seq<Player>, now: nat)
    requires ValidRoom(room, ps)
    ensures ValidRoom(room.(status := Playing, startedAt := Some(now)), ps)
  {
  }

  /** The whole request: the room id (0 counts as absent) and the user id must be present before anything
      else is looked at. */
  ghost function Serve(t: Tables, roomId: RoomId, userId: UserId, now: nat): Transition<RoomView>
    requires t.rooms.Keys == t.players.Keys
  {
    if roomId == 0 || userId == "" then Transition(Fail(MissingFields), t)
    else Step(t, roomId, userId, now)
  }

  /** A request is refused for missing fields exactly when one of them is
      absent, and then nothing changes. */
  lemma RejectsMissingFields(t: Tables, roomId: RoomId, userId: UserId, now: nat)
    requires t.rooms.Keys == t.players.Keys
    ensures var r := Serve(t, roomId, userId, now);
            && (r.outcome == Fail(MissingFields) <==> roomId == 0 || userId == "")
            && (r.outcome == Fail(MissingFields) ==> r.tables == t)
  {
  }

  /** Serving a whole request keeps the store invariant and only moves the
      store forward. */
  lemma ServeKeepsInvariant(t: Tables, roomId: RoomId, userId: UserId, now: nat)
    requires Invariant(t)
    ensures Invariant(Serve(t, roomId, userId, now).tables)
    ensures Evolves(t, Serve(t, roomId, userId, now).tables)
  {
    StepKeepsInvariant(t, roomId, userId, now);
  }

  /** The handler: refuse a request with missing fields, serve the rest. */
  method Handler(db: Database, roomId: RoomId, userId: UserId, now: nat) returns (res: Outcome<RoomView>)
    requires db.Valid()
    modifies db
    ensures db.Valid()
    ensures Transition(res, db.Contents()) == Serve(old(db.Contents()), roomId, userId, now)
  {
    if roomId == 0 || userId == "" {
      res := Fail(MissingFields);
    } else {
      res := Apply(db, roomId, userId, now);
    }
  }

  /** A request with its fields present: look the room up, then poll it. */
  method Apply(db: Database, roomId: RoomId, userId: UserId, now: nat) returns (res: Outcome<RoomView>)
    requires db.Valid()
    modifies db
    ensures db.Valid()
    ensures Transition(res, db.Contents()) == Step(old(db.Contents()), roomId, userId, now)
  {
    ghost var t0 := db.Contents();
    if roomId !in db.rooms {
      res := Fail(NotFound);
    } else {
      var view := Poll(db, roomId, now);
      res := Ok(view);
    }
    StepKeepsInvariant(t0, roomId, userId, now);
  }

  /** Reads the room and its players, starts the game when everyone is ready,
      and reads the newest game state while the game is playing. */
  method Poll(db: Database, roomId: RoomId, now: nat) returns (view: RoomView)
    requires db.rooms.Keys == db.players.Keys && roomId in db.rooms
    modifies db
    ensures Transition(Ok(view), db.Contents()) == Observe(old(db.Contents()), roomId, now)
  {
    var room := db.rooms[roomId];
    var ps := db.players[roomId];
    var allReady := |ps| >= 2 && forall i :: 0 <= i < |ps| ==> ps[i].ready;
    if allReady && room.status == Waiting {
      db.rooms := db.rooms[roomId := room.(status := Playing, startedAt := Some(now))];
      room := room.(status := Playing);
    }
    var gameState := None;
    if room.status == Playing {
      var rows := if roomId in db.gameStates then db.gameStates[roomId] else [];
      gameState := Latest(rows);
    }
    view := RoomView(roomId, room.mode, room.status, room.hostUserId, ps, gameState, allReady);
  }
}
