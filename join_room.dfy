/** join-room.js: find a room by its join code (in any case), refuse it once
    play has started or ended, let a member back in without change, refuse a
    full room, and otherwise seat the user as a non-host who is not ready. */
module JoinRoom {
  import opened JoinCode
  import opened Schema

  /** What a successful join answers. `alreadyInRoom` is the "Already in room"
      reply to a user who was a member already. */
  datatype Joined = Joined(roomId: RoomId, mode: int, alreadyInRoom: bool)

  /** A request whose fields are present, as one step, with its guards in
      the order the handler checks them. */
  ghost function Step(t: Tables, userId: UserId, username: string, joinCode: string): Transition<Joined>
    requires t.rooms.Keys == t.players.Keys
  {
    match RoomByCode(t.rooms, ToUpper(joinCode))
    case None => Transition(Fail(NotFound), t)
    case Some(id) => Admit(t, id, userId, username)
  }

  /** The guards that follow a successful lookup of room `id`. */
  ghost function Admit(t: Tables, id: RoomId, userId: UserId, username: string): Transition<Joined>
    requires id in t.rooms && id in t.players
  {
    var room := t.rooms[id];
    var ps := t.players[id];
    if room.status == Playing then Transition(Fail(GameInProgress), t)
    else if room.status == Finished then Transition(Fail(GameEnded), t)
    else if IsMember(ps, userId) then Transition(Ok(Joined(id, room.mode, true)), t)
    else if |ps| >= room.mode then Transition(Fail(RoomFull), t)
    else Transition(Ok(Joined(id, room.mode, false)),
                    t.(players := t.players[id := ps + [NewPlayer(userId, username, false)]]))
  }

  /** The upper-cased code finds a room exactly when the supplied code spells
      that room's code in some mix of cases. */
  lemma LookupIgnoresCase(t: Tables, id: RoomId, joinCode: string)
    requires Invariant(t) && id in t.rooms
    ensures RoomByCode(t.rooms, ToUpper(joinCode)) == Some(id)
            <==> SameIgnoringCase(joinCode, t.rooms[id].joinCode)
  {
    var code := t.rooms[id].joinCode;
    UpperMatchesIgnoringCase(joinCode, code);
    RoomByOwnCode(t.rooms, id);
  }

  /** A code no live room has, once upper-cased, is answered NotFound and
      changes nothing. */
  lemma UnknownCode(t: Tables, userId: UserId, username: string, joinCode: string)
    requires Invariant(t)
    requires forall id :: id in t.rooms ==> !SameIgnoringCase(joinCode, t.rooms[id].joinCode)
    ensures Step(t, userId, username, joinCode) == Transition(Fail(NotFound), t)
  {
    var r := RoomByCode(t.rooms, ToUpper(joinCode));
    if r.Some? {
      LookupIgnoresCase(t, r.value, joinCode);
    }
  }

  /** A playing room answers GameInProgress and a finished one GameEnded,
      members included, and nothing changes. */
  lemma StatusGates(t: Tables, id: RoomId, userId: UserId, username: string, joinCode: string)
    requires Invariant(t) && id in t.rooms
    requires SameIgnoringCase(joinCode, t.rooms[id].joinCode)
    requires t.rooms[id].status != Waiting
    ensures Step(t, userId, username, joinCode)
            == Transition(Fail(if t.rooms[id].status == Playing then GameInProgress else GameEnded), t)
  {
    LookupIgnoresCase(t, id, joinCode);
  }

  /** A member of a waiting room who joins again is told the room's id and
      mode, and nothing changes. */
  lemma Rejoin(t: Tables, id: RoomId, userId: UserId, username: string, joinCode: string)
    requires Invariant(t) && id in t.rooms
    requires SameIgnoringCase(joinCode, t.rooms[id].joinCode)
    requires t.rooms[id].status == Waiting && IsMember(t.players[id], userId)
    ensures Step(t, userId, username, joinCode) == Transition(Ok(Joined(id, t.rooms[id].mode, true)), t)
  {
    LookupIgnoresCase(t, id, joinCode);
  }

  /** A newcomer to a waiting room with no free seat is refused with RoomFull
      and nothing changes. */
  lemma Full(t: Tables, id: RoomId, userId: UserId, username: string, joinCode: string)
    requires Invariant(t) && id in t.rooms
    requires SameIgnoringCase(joinCode, t.rooms[id].joinCode)
    requires t.rooms[id].status == Waiting && !IsMember(t.players[id], userId)
    requires |t.players[id]| >= t.rooms[id].mode
    ensures Step(t, userId, username, joinCode) == Transition(Fail(RoomFull), t)
  {
    LookupIgnoresCase(t, id, joinCode);
  }

  /** A newcomer to a waiting room with a free seat is appended as the last
      player, not host and not ready; the count grows by one and stays within
      the mode, and no room record, no other player and not the next id to
      hand out changes. */
  lemma Seat(t: Tables, id: RoomId, userId: UserId, username: string, joinCode: string)
    requires Invariant(t) && id in t.rooms
    requires SameIgnoringCase(joinCode, t.rooms[id].joinCode)
    requires t.rooms[id].status == Waiting && !IsMember(t.players[id], userId)
    requires |t.players[id]| < t.rooms[id].mode
    ensures var r := Step(t, userId, username, joinCode);
            && r.outcome == Ok(Joined(id, t.rooms[id].mode, false))
            && r.tables.rooms == t.rooms
            && r.tables.nextId == t.nextId
            && r.tables.players.Keys == t.players.Keys
            && r.tables.players[id] == t.players[id] + [Player(userId, username, false, false, None, None)]
            && |r.tables.players[id]| == |t.players[id]| + 1 <= t.rooms[id].mode
            && (forall x :: x in t.players && x != id ==> r.tables.players[x] == t.players[x])
  {
    LookupIgnoresCase(t, id, joinCode);
  }

  /** Seating a newcomer who is not host keeps a room valid while a seat is
      free. */
  lemma SeatKeepsRoomValid(room: Room, ps: seq<Player>, p: Player)
    requires ValidRoom(room, ps)
    requires !IsMember(ps, p.userId) && !p.isHost && |ps| < room.mode
    ensures ValidRoom(room, ps + [p])
  {
    var ps' := ps + [p];
    assert UniqueUsers(ps') by {
      forall i, j | 0 <= i < j < |ps'| ensures ps'[i].userId != ps'[j].userId {
        if j == |ps| {
          assert ps'[i] == ps[i];
        }
      }
    }
    assert IsMember(ps', room.hostUserId) by {
      var h :| 0 <= h < |ps| && ps[h].userId == room.hostUserId;
      assert ps'[h] == ps[h];
    }
  }

  /** A join keeps the store invariant and only moves the store forward. */
  lemma StepKeepsInvariant(t: Tables, userId: UserId, username: string, joinCode: string)
    requires Invariant(t)
    ensures Invariant(Step(t, userId, username, joinCode).tables)
    ensures Evolves(t, Step(t, userId, username, joinCode).tables)
  {
    var r := RoomByCode(t.rooms, ToUpper(joinCode));
    if r.Some? {
      AdmitKeepsInvariant(t, r.value, userId, username);
    }
  }

  lemma AdmitKeepsInvariant(t: Tables, id: RoomId, userId: UserId, username: string)
    requires Invariant(t) && id in t.rooms
    ensures Invariant(Admit(t, id, userId, username).tables)
    ensures Evolves(t, Admit(t, id, userId, username).tables)
  {
    var room := t.rooms[id];
    var ps := t.players[id];
    if room.status == Waiting && !IsMember(ps, userId) && |ps| < room.mode {
      SeatKeepsRoomValid(room, ps, NewPlayer(userId, username, false));
      PlayersUpdateKeepsInvariant(t, id, ps + [NewPlayer(userId, username, false)]);
    }
  }

  /** The whole request: the user id, the name and the code must be present before anything
      else is looked at. */
  ghost function Serve(t: Tables, userId: UserId, username: string, joinCode: string): Transition<Joined>
    requires t.rooms.Keys == t.players.Keys
  {
    if userId == "" || username == "" || joinCode == "" then Transition(Fail(MissingFields), t)
    else Step(t, userId, username, joinCode)
  }

  /** A request is refused for missing fields exactly when one of them is
      absent, and then nothing changes. */
  lemma RejectsMissingFields(t: Tables, userId: UserId, username: string, joinCode: string)
    requires t.rooms.Keys == t.players.Keys
    ensures var r := Serve(t, userId, username, joinCode);
            && (r.outcome == Fail(MissingFields) <==> userId == "" || username == "" || joinCode == "")
            && (r.outcome == Fail(MissingFields) ==> r.tables == t)
  {
  }

  /** Serving a whole request keeps the store invariant and only moves the
      store forward. */
  lemma ServeKeepsInvariant(t: Tables, userId: UserId, username: string, joinCode: string)
    requires Invariant(t)
    ensures Invariant(Serve(t, userId, username, joinCode).tables)
    ensures Evolves(t, Serve(t, userId, username, joinCode).tables)
  {
    StepKeepsInvariant(t, userId, username, joinCode);
  }

  /** The handler: refuse a request with missing fields, serve the rest. */
  method Handler(db: Database, userId: UserId, username: string, joinCode: string) returns (res: Outcome<Joined>)
    requires db.Valid()
    modifies db
    ensures db.Valid()
    ensures Transition(res, db.Contents()) == Serve(old(db.Contents()), userId, username, joinCode)
  {
    if userId == "" || username == "" || joinCode == "" {
      res := Fail(MissingFields);
    } else {
      res := Apply(db, userId, username, joinCode);
    }
  }

  /** A request with its fields present: look the room up by the upper-cased
      code, check its status, check membership, check the seat count, then
      insert. */
  method Apply(db: Database, userId: UserId, username: string, joinCode: string) returns (res: Outcome<Joined>)
    requires db.Valid()
    modifies db
    ensures db.Valid()
    ensures Transition(res, db.Contents()) == Step(old(db.Contents()), userId, username, joinCode)
  {
    ghost var t0 := db.Contents();
    var code := ToUpper(joinCode);
    var found := set id | id in db.rooms && db.rooms[id].joinCode == code;
    if found == {} {
      assert code !in Codes(db.rooms) by {
        forall id | id in db.rooms ensures db.rooms[id].joinCode != code {
          assert id !in found;
        }
      }
      res := Fail(NotFound);
      assert Step(t0, userId, username, joinCode) == Transition(res, t0);
    } else {
      var roomId :| roomId in found;
      RoomByOwnCode(db.rooms, roomId);
      assert Step(t0, userId, username, joinCode) == Admit(t0, roomId, userId, username);
      var room := db.rooms[roomId];
      var ps := db.players[roomId];
      if room.status == Playing {
        res := Fail(GameInProgress);
      } else if room.status == Finished {
        res := Fail(GameEnded);
      } else if IndexOf(ps, userId) >= 0 {
        res := Ok(Joined(roomId, room.mode, true));
      } else if |ps| >= room.mode {
        res := Fail(RoomFull);
      } else {
        db.players := db.players[roomId := ps + [NewPlayer(userId, username, false)]];
        res := Ok(Joined(roomId, room.mode, false));
      }
      assert Admit(t0, roomId, userId, username) == Transition(res, db.Contents());
    }
    StepKeepsInvariant(t0, userId, username, joinCode);
  }
}
