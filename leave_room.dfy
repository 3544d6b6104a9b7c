/** leave-room.js: remove a member from a room; delete the room once nobody
    is left, and when the host left, make the earliest-joined remaining
    player the host. */
module LeaveRoom {
  import opened Schema

  /** `ps` without the row at `k`, the others in their order. */
  function Without(ps: seq<Player>, k: nat): (r: seq<Player>)
    requires k < |ps|
    ensures |r| == |ps| - 1
    ensures forall i :: 0 <= i < k ==> r[i] == ps[i]
    ensures forall i :: k <= i < |r| ==> r[i] == ps[i + 1]
  {
    ps[..k] + ps[k + 1..]
  }

  /** A request whose fields are present, as one step. */
  ghost function Step(t: Tables, userId: UserId, roomId: RoomId): Transition<()>
    requires t.rooms.Keys == t.players.Keys
  {
    if roomId !in t.players || !IsMember(t.players[roomId], userId) then Transition(Fail(NotFound), t)
    else Depart(t, roomId, IndexOf(t.players[roomId], userId))
  }

  /** Removal of the player at row `k` of the room `roomId`. */
  ghost function Depart(t: Tables, roomId: RoomId, k: nat): Transition<()>
    requires t.rooms.Keys == t.players.Keys
    requires roomId in t.players && k < |t.players[roomId]|
  {
    var ps := t.players[roomId];
    var rest := Without(ps, k);
    if |rest| == 0 then
      Transition(Ok(()), t.(rooms := t.rooms - {roomId}, players := t.players - {roomId}))
    else if ps[k].isHost then
      Transition(Ok(()), t.(rooms := t.rooms[roomId := t.rooms[roomId].(hostUserId := rest[0].userId)],
                            players := t.players[roomId := rest[0 := rest[0].(isHost := true)]]))
    else
      Transition(Ok(()), t.(players := t.players[roomId := rest]))
  }

  /** Someone who is not a member of the room is answered NotFound and nothing
      changes. */
  lemma NotAMember(t: Tables, userId: UserId, roomId: RoomId)
    requires t.rooms.Keys == t.players.Keys
    requires roomId !in t.players || !IsMember(t.players[roomId], userId)
    ensures Step(t, userId, roomId) == Transition(Fail(NotFound), t)
  {
  }

  /** A member who leaves is gone afterwards; when the room survives, it holds
      exactly the other players, in their join order and with their fields,
      except that the first of them may have been made host. No other room
      changes, and neither does the next id to hand out. */
  lemma RemovesOnlyTheLeaver(t: Tables, userId: UserId, roomId: RoomId)
    requires Invariant(t)
    requires roomId in t.players && IsMember(t.players[roomId], userId)
    ensures var r := Step(t, userId, roomId);
            var ps := t.players[roomId];
            var rest := Without(ps, IndexOf(ps, userId));
            && r.outcome == Ok(())
            && r.tables.nextId == t.nextId
            && (forall x :: x != roomId ==> (x in r.tables.rooms <==> x in t.rooms))
            && (forall x :: x in t.rooms && x != roomId ==>
                  r.tables.rooms[x] == t.rooms[x] && r.tables.players[x] == t.players[x])
            && (roomId in r.tables.players ==>
                  && |r.tables.players[roomId]| == |ps| - 1
                  && !IsMember(r.tables.players[roomId], userId)
                  && forall i :: 0 <= i < |rest| ==>
                       r.tables.players[roomId][i] == rest[i]
                       || (i == 0 && r.tables.players[roomId][i] == rest[i].(isHost := true)))
  {
    var ps := t.players[roomId];
    var k := IndexOf(ps, userId);
    DepartRemovesRow(t, roomId, k);
  }

  lemma DepartRemovesRow(t: Tables, roomId: RoomId, k: nat)
    requires t.rooms.Keys == t.players.Keys
    requires roomId in t.players && k < |t.players[roomId]| && UniqueUsers(t.players[roomId])
    ensures var r := Depart(t, roomId, k);
            var ps := t.players[roomId];
            var rest := Without(ps, k);
            && r.outcome == Ok(())
            && r.tables.nextId == t.nextId
            && (forall x :: x != roomId ==> (x in r.tables.rooms <==> x in t.rooms))
            && (forall x :: x in t.rooms && x != roomId ==>
                  r.tables.rooms[x] == t.rooms[x] && r.tables.players[x] == t.players[x])
            && (roomId in r.tables.players ==>
                  && |r.tables.players[roomId]| == |ps| - 1
                  && !IsMember(r.tables.players[roomId], ps[k].userId)
                  && forall i :: 0 <= i < |rest| ==>
                       r.tables.players[roomId][i] == rest[i]
                       || (i == 0 && r.tables.players[roomId][i] == rest[i].(isHost := true)))
  {
    var ps := t.players[roomId];
    var rest := Without(ps, k);
    WithoutRemovesUser(ps, k);
    if |rest| > 0 && ps[k].isHost {
      var ps' := rest[0 := rest[0].(isHost := true)];
      assert forall i :: 0 <= i < |ps'| ==> ps'[i].userId == rest[i].userId;
      assert !IsMember(ps', ps[k].userId) by {
        assert forall i :: 0 <= i < |ps'| ==> ps'[i].userId != ps[k].userId by {
          assert forall i :: 0 <= i < |rest| ==> rest[i].userId != ps[k].userId;
        }
      }
    }
  }

  /** The last member who leaves deletes the room. */
  lemma LastLeaverDeletesRoom(t: Tables, userId: UserId, roomId: RoomId)
    requires t.rooms.Keys == t.players.Keys
    requires roomId in t.players && |t.players[roomId]| == 1
    requires t.players[roomId][0].userId == userId
    ensures var r := Step(t, userId, roomId);
            && r.outcome == Ok(())
            && roomId !in r.tables.rooms && roomId !in r.tables.players
            && r.tables.rooms == t.rooms - {roomId}
            && r.tables.players == t.players - {roomId}
  {
    assert IsMember(t.players[roomId], userId);
  }

  /** When the host leaves a room that others remain in, the earliest-joined
      of them becomes host and the room's `hostUserId` names that player;
      nothing else about the room changes. */
  lemma HostFailover(t: Tables, userId: UserId, roomId: RoomId)
    requires Invariant(t)
    requires roomId in t.rooms && t.rooms[roomId].hostUserId == userId
    requires |t.players[roomId]| > 1
    ensures var r := Step(t, userId, roomId);
            var ps := t.players[roomId];
            var earliest := if ps[0].userId == userId then ps[1] else ps[0];
            && roomId in r.tables.rooms
            && r.tables.players[roomId][0] == earliest.(isHost := true)
            && r.tables.rooms[roomId] == t.rooms[roomId].(hostUserId := earliest.userId)
  {
    var ps := t.players[roomId];
    var k := IndexOf(ps, userId);
    var h :| 0 <= h < |ps| && ps[h].userId == t.rooms[roomId].hostUserId;
    assert forall i :: 0 <= i < |ps| && i != k ==> ps[i].userId != userId;
    assert k == 0 <==> ps[0].userId == userId;
  }

  /** When someone other than the host leaves, the room record and every
      remaining player's host flag are as before. */
  lemma NonHostLeaves(t: Tables, userId: UserId, roomId: RoomId)
    requires Invariant(t)
    requires roomId in t.rooms && IsMember(t.players[roomId], userId)
    requires t.rooms[roomId].hostUserId != userId
    ensures var r := Step(t, userId, roomId);
            var ps := t.players[roomId];
            && r.tables.rooms == t.rooms
            && r.tables.players[roomId] == Without(ps, IndexOf(ps, userId))
  {
  }

  /** Removing a row takes exactly that user out of a list without repeats. */
  lemma WithoutRemovesUser(ps: seq<Player>, k: nat)
    requires k < |ps| && UniqueUsers(ps)
    ensures UniqueUsers(Without(ps, k))
    ensures forall u :: IsMember(Without(ps, k), u) <==> IsMember(ps, u) && u != ps[k].userId
  {
    var rest := Without(ps, k);
    forall u ensures IsMember(rest, u) <==> IsMember(ps, u) && u != ps[k].userId {
      if IsMember(rest, u) {
        var i :| 0 <= i < |rest| && rest[i].userId == u;
        var j := if i < k then i else i + 1;
        assert ps[j].userId == u;
      }
      if IsMember(ps, u) && u != ps[k].userId {
        var j :| 0 <= j < |ps| && ps[j].userId == u;
        var i := if j < k then j else j - 1;
        assert rest[i].userId == u;
      }
    }
  }

  /** Removing a member who is not host keeps the room valid while someone
      remains. */
  lemma NonHostRemovalKeepsRoomValid(room: Room, ps: seq<Player>, k: nat)
    requires ValidRoom(room, ps) && k < |ps| && |ps| > 1 && !ps[k].isHost
    ensures ValidRoom(room, Without(ps, k))
  {
    WithoutRemovesUser(ps, k);
  }

  /** Removing the host and promoting the first remaining player gives a valid
      room with that player as host. */
  lemma FailoverKeepsRoomValid(room: Room, ps: seq<Player>, k: nat)
    requires ValidRoom(room, ps) && k < |ps| && |ps| > 1 && ps[k].isHost
    ensures var rest := Without(ps, k);
            ValidRoom(room.(hostUserId := rest[0].userId), rest[0 := rest[0].(isHost := true)])
  {
    var rest := Without(ps, k);
    WithoutRemovesUser(ps, k);
    var ps' := rest[0 := rest[0].(isHost := true)];
    var room' := room.(hostUserId := rest[0].userId);
    assert UniqueUsers(ps') by {
      assert forall i :: 0 <= i < |ps'| ==> ps'[i].userId == rest[i].userId;
    }
    assert IsMember(ps', room'.hostUserId) by {
      assert ps'[0].userId == room'.hostUserId;
    }
    forall i | 0 <= i < |ps'| ensures ps'[i].isHost <==> ps'[i].userId == room'.hostUserId {
      if i > 0 {
        assert ps'[i] == rest[i];
        assert rest[i].userId != ps[k].userId by { assert IsMember(rest, rest[i].userId); }
      }
    }
  }

  /** A leave keeps the store invariant and only moves the store forward. */
  lemma StepKeepsInvariant(t: Tables, userId: UserId, roomId: RoomId)
    requires Invariant(t)
    ensures Invariant(Step(t, userId, roomId).tables)
    ensures Evolves(t, Step(t, userId, roomId).tables)
  {
    if roomId in t.players && IsMember(t.players[roomId], userId) {
      DepartKeepsInvariant(t, roomId, IndexOf(t.players[roomId], userId));
    }
  }

  lemma DepartKeepsInvariant(t: Tables, roomId: RoomId, k: nat)
    requires Invariant(t)
    requires roomId in t.players && k < |t.players[roomId]|
    ensures Invariant(Depart(t, roomId, k).tables)
    ensures Evolves(t, Depart(t, roomId, k).tables)
  {
    var ps := t.players[roomId];
    if |ps| == 1 {
      DeleteRoomKeepsInvariant(t, roomId);
    } else if ps[k].isHost {
      FailoverKeepsInvariant(t, roomId, k);
    } else {
      NonHostRemovalKeepsInvariant(t, roomId, k);
    }
  }

  lemma DeleteRoomKeepsInvariant(t: Tables, roomId: RoomId)
    requires Invariant(t)
    ensures var t' := t.(rooms := t.rooms - {roomId}, players := t.players - {roomId});
            Invariant(t') && Evolves(t, t')
  {
    DeleteKeepsInvariant(t, roomId);
  }

  lemma FailoverKeepsInvariant(t: Tables, roomId: RoomId, k: nat)
    requires Invariant(t)
    requires roomId in t.players && k < |t.players[roomId]| && |t.players[roomId]| > 1
    requires t.players[roomId][k].isHost
    ensures var rest := Without(t.players[roomId], k);
            var t' := t.(rooms := t.rooms[roomId := t.rooms[roomId].(hostUserId := rest[0].userId)],
                         players := t.players[roomId := rest[0 := rest[0].(isHost := true)]]);
            Invariant(t') && Evolves(t, t')
  {
    var ps := t.players[roomId];
    var room := t.rooms[roomId];
    var rest := Without(ps, k);
    FailoverKeepsRoomValid(room, ps, k);
    UpdateKeepsInvariant(t, roomId, room.(hostUserId := rest[0].userId), rest[0 := rest[0].(isHost := true)]);
  }

  lemma NonHostRemovalKeepsInvariant(t: Tables, roomId: RoomId, k: nat)
    requires Invariant(t)
    requires roomId in t.players && k < |t.players[roomId]| && |t.players[roomId]| > 1
    requires !t.players[roomId][k].isHost
    ensures var t' := t.(players := t.players[roomId := Without(t.players[roomId], k)]);
            Invariant(t') && Evolves(t, t')
  {
    NonHostRemovalKeepsRoomValid(t.rooms[roomId], t.players[roomId], k);
    PlayersUpdateKeepsInvariant(t, roomId, Without(t.players[roomId], k));
  }

  /** The whole request: the user id and the room id (a room id of 0 counts as absent) must be present before anything
      else is looked at. */
  ghost function Serve(t: Tables, userId: UserId, roomId: RoomId): Transition<()>
    requires t.rooms.Keys == t.players.Keys
  {
    if userId == "" || roomId == 0 then Transition(Fail(MissingFields), t)
    else Step(t, userId, roomId)
  }

  /** A request is refused for missing fields exactly when one of them is
      absent, and then nothing changes. */
  lemma RejectsMissingFields(t: Tables, userId: UserId, roomId: RoomId)
    requires t.rooms.Keys == t.players.Keys
    ensures var r := Serve(t, userId, roomId);
            && (r.outcome == Fail(MissingFields) <==> userId == "" || roomId == 0)
            && (r.outcome == Fail(MissingFields) ==> r.tables == t)
  {
  }

  /** Serving a whole request keeps the store invariant and only moves the
      store forward. */
  lemma ServeKeepsInvariant(t: Tables, userId: UserId, roomId: RoomId)
    requires Invariant(t)
    ensures Invariant(Serve(t, userId, roomId).tables)
    ensures Evolves(t, Serve(t, userId, roomId).tables)
  {
    StepKeepsInvariant(t, userId, roomId);
  }

  /** The handler: refuse a request with missing fields, serve the rest. */
  method Handler(db: Database, userId: UserId, roomId: RoomId) returns (res: Outcome<()>)
    requires db.Valid()
    modifies db
    ensures db.Valid()
    ensures Transition(res, db.Contents()) == Serve(old(db.Contents()), userId, roomId)
  {
    if userId == "" || roomId == 0 {
      res := Fail(MissingFields);
    } else {
      res := Apply(db, userId, roomId);
    }
  }

  /** A request with its fields present: check membership, then remove the
      player. */
  method Apply(db: Database, userId: UserId, roomId: RoomId) returns (res: Outcome<()>)
    requires db.Valid()
    modifies db
    ensures db.Valid()
    ensures Transition(res, db.Contents()) == Step(old(db.Contents()), userId, roomId)
  {
    ghost var t0 := db.Contents();
    var k := if roomId in db.players then IndexOf(db.players[roomId], userId) else -1;
    if k < 0 {
      res := Fail(NotFound);
    } else {
      Remove(db, roomId, k);
      res := Ok(());
    }
    StepKeepsInvariant(t0, userId, roomId);
  }

  /** Deletes the player's row, then either deletes the emptied room or, when
      the host left, promotes the earliest remaining player and points the
      room at them. */
  method Remove(db: Database, roomId: RoomId, k: nat)
    requires db.rooms.Keys == db.players.Keys
    requires roomId in db.players && k < |db.players[roomId]|
    modifies db
    ensures Transition(Ok(()), db.Contents()) == Depart(old(db.Contents()), roomId, k)
  {
    ghost var t0 := db.Contents();
    var ps := db.players[roomId];
    var wasHost := ps[k].isHost;
    var remaining := ps[..k] + ps[k + 1..];
    db.players := db.players[roomId := remaining];
    if |remaining| == 0 {
      db.rooms := db.rooms - {roomId};
      db.players := db.players - {roomId};
      assert db.players == t0.players - {roomId};
    } else if wasHost {
      var newHost := remaining[0].userId;
      db.players := db.players[roomId := remaining[0 := remaining[0].(isHost := true)]];
      db.rooms := db.rooms[roomId := db.rooms[roomId].(hostUserId := newHost)];
      assert db.players == t0.players[roomId := remaining[0 := remaining[0].(isHost := true)]];
    }
  }
}
