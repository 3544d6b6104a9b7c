/** player-ready.js: set a member's ready flag. The room's status is not
    consulted, and the update touches nothing but that flag. */
module PlayerReady {
  import opened Schema

  /** The `UPDATE players SET ready` of the handler: every row of `u` gets the
      new flag; the rows keep their order. */
  function Mark(ps: seq<Player>, u: UserId, ready: bool): (r: seq<Player>)
    ensures |r| == |ps|
  {
    seq(|ps|, i requires 0 <= i < |ps| => if ps[i].userId == u then ps[i].(ready := ready) else ps[i])
  }

  /** A request whose fields are present, as one step: Ok carries the flag
      that was set; a user with no row in the room (or a room that does not
      exist) gets NotFound. */
  ghost function Step(t: Tables, userId: UserId, roomId: RoomId, ready: bool): Transition<bool> {
    if roomId in t.players && IsMember(t.players[roomId], userId) then
      Transition(Ok(ready), t.(players := t.players[roomId := Mark(t.players[roomId], userId, ready)]))
    else
      Transition(Fail(NotFound), t)
  }

  /** No row to update means NotFound and no change. */
  lemma NotInRoom(t: Tables, userId: UserId, roomId: RoomId, ready: bool)
    requires roomId !in t.players || !IsMember(t.players[roomId], userId)
    ensures Step(t, userId, roomId, ready) == Transition(Fail(NotFound), t)
  {
  }

  /** For a member: Ok(ready), the member's flag is now `ready`, and nothing
      else changes: no room record, no other room's players, no other player,
      and no other field of the member's row. */
  lemma SetsOnlyThatFlag(t: Tables, userId: UserId, roomId: RoomId, ready: bool)
    requires roomId in t.players && IsMember(t.players[roomId], userId)
    ensures var r := Step(t, userId, roomId, ready);
            var ps := t.players[roomId];
            var ps' := r.tables.players[roomId];
            && r.outcome == Ok(ready)
            && r.tables.rooms == t.rooms && r.tables.gameStates == t.gameStates
            && r.tables.nextId == t.nextId
            && r.tables.players.Keys == t.players.Keys
            && (forall x :: x in t.players && x != roomId ==> r.tables.players[x] == t.players[x])
            && |ps'| == |ps|
            && (forall i :: 0 <= i < |ps| ==>
                  && ps'[i].userId == ps[i].userId && ps'[i].username == ps[i].username
                  && ps'[i].isHost == ps[i].isHost && ps'[i].team == ps[i].team
                  && ps'[i].bet == ps[i].bet
                  && ps'[i].ready == (if ps[i].userId == userId then ready else ps[i].ready))
            && IsMember(ps', userId)
  {
    var ps := t.players[roomId];
    var i :| 0 <= i < |ps| && ps[i].userId == userId;
    assert Mark(ps, userId, ready)[i].userId == userId;
  }

  /** Of two updates of the same flag only the second one counts; in
      particular, sending the same update twice is the same as sending it
      once. */
  lemma LastUpdateWins(t: Tables, userId: UserId, roomId: RoomId, a: bool, b: bool)
    ensures Step(Step(t, userId, roomId, a).tables, userId, roomId, b) == Step(t, userId, roomId, b)
  {
    if roomId in t.players && IsMember(t.players[roomId], userId) {
      var ps := t.players[roomId];
      MarkKeepsMembers(ps, userId, a);
      assert Mark(Mark(ps, userId, a), userId, b) == Mark(ps, userId, b);
      assert t.players[roomId := Mark(ps, userId, a)][roomId := Mark(ps, userId, b)]
          == t.players[roomId := Mark(ps, userId, b)];
    }
  }

  /** Updates of different players, or in different rooms, do not interfere:
      either order leads to the same store. */
  lemma UpdatesCommute(t: Tables, u1: UserId, r1: RoomId, a: bool, u2: UserId, r2: RoomId, b: bool)
    requires u1 != u2 || r1 != r2
    ensures Step(Step(t, u1, r1, a).tables, u2, r2, b).tables
         == Step(Step(t, u2, r2, b).tables, u1, r1, a).tables
  {
    if r1 == r2 {
      if r1 in t.players {
        var ps := t.players[r1];
        MarkKeepsMembers(ps, u1, a);
        MarkKeepsMembers(ps, u2, b);
        assert Mark(Mark(ps, u1, a), u2, b) == Mark(Mark(ps, u2, b), u1, a);
      }
    }
  }

  /** Marking changes no user id and no host flag. */
  lemma MarkKeepsMembers(ps: seq<Player>, u: UserId, ready: bool)
    ensures forall i :: 0 <= i < |ps| ==>
              Mark(ps, u, ready)[i].userId == ps[i].userId && Mark(ps, u, ready)[i].isHost == ps[i].isHost
    ensures forall v :: IsMember(Mark(ps, u, ready), v) <==> IsMember(ps, v)
  {
    var m := Mark(ps, u, ready);
    forall v ensures IsMember(m, v) <==> IsMember(ps, v) {
      if IsMember(m, v) {
        var i :| 0 <= i < |m| && m[i].userId == v;
        assert ps[i].userId == v;
      }
      if IsMember(ps, v) {
        var i :| 0 <= i < |ps| && ps[i].userId == v;
        assert m[i].userId == v;
      }
    }
  }

  lemma MarkKeepsRoomValid(room: Room, ps: seq<Player>, u: UserId, ready: bool)
    requires ValidRoom(room, ps)
    ensures ValidRoom(room, Mark(ps, u, ready))
  {
    MarkKeepsMembers(ps, u, ready);
  }

  /** A ready update keeps the store invariant and only moves the store
      forward. */
  lemma StepKeepsInvariant(t: Tables, userId: UserId, roomId: RoomId, ready: bool)
    requires Invariant(t)
    ensures Invariant(Step(t, userId, roomId, ready).tables)
    ensures Evolves(t, Step(t, userId, roomId, ready).tables)
  {
    if roomId in t.players && IsMember(t.players[roomId], userId) {
      MarkKeepsRoomValid(t.rooms[roomId], t.players[roomId], userId, ready);
      PlayersUpdateKeepsInvariant(t, roomId, Mark(t.players[roomId], userId, ready));
    }
  }

  /** The whole request: the user id and the room id (a room id of 0 counts as absent) must be present before anything
      else is looked at. */
  ghost function Serve(t: Tables, userId: UserId, roomId: RoomId, ready: bool): Transition<bool>
  {
    if userId == "" || roomId == 0 then Transition(Fail(MissingFields), t)
    else Step(t, userId, roomId, ready)
  }

  /** A request is refused for missing fields exactly when one of them is
      absent, and then nothing changes. */
  lemma RejectsMissingFields(t: Tables, userId: UserId, roomId: RoomId, ready: bool)
    ensures var r := Serve(t, userId, roomId, ready);
            && (r.outcome == Fail(MissingFields) <==> userId == "" || roomId == 0)
            && (r.outcome == Fail(MissingFields) ==> r.tables == t)
  {
  }

  /** Serving a whole request keeps the store invariant and only moves the
      store forward. */
  lemma ServeKeepsInvariant(t: Tables, userId: UserId, roomId: RoomId, ready: bool)
    requires Invariant(t)
    ensures Invariant(Serve(t, userId, roomId, ready).tables)
    ensures Evolves(t, Serve(t, userId, roomId, ready).tables)
  {
    StepKeepsInvariant(t, userId, roomId, ready);
  }

  /** The handler: refuse a request with missing fields, serve the rest. */
  method Handler(db: Database, userId: UserId, roomId: RoomId, ready: bool) returns (res: Outcome<bool>)
    requires db.Valid()
    modifies db
    ensures db.Valid()
    ensures Transition(res, db.Contents()) == Serve(old(db.Contents()), userId, roomId, ready)
  {
    if userId == "" || roomId == 0 {
      res := Fail(MissingFields);
    } else {
      res := Apply(db, userId, roomId, ready);
    }
  }

  /** A request with its fields present: update the member's row, or report
      that there is none. */
  method Apply(db: Database, userId: UserId, roomId: RoomId, ready: bool) returns (res: Outcome<bool>)
    requires db.Valid()
    modifies db
    ensures db.Valid()
    ensures Transition(res, db.Contents()) == Step(old(db.Contents()), userId, roomId, ready)
  {
    ghost var t0 := db.Contents();
    if roomId in db.players && IndexOf(db.players[roomId], userId) >= 0 {
      db.players := db.players[roomId := Mark(db.players[roomId], userId, ready)];
      res := Ok(ready);
      assert Transition(res, db.Contents()) == Step(t0, userId, roomId, ready);
    } else {
      res := Fail(NotFound);
      assert Transition(res, db.Contents()) == Step(t0, userId, roomId, ready);
    }
    StepKeepsInvariant(t0, userId, roomId, ready);
  }
}
