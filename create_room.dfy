/** create-room.js: a new room in the waiting state, with its creator as
    its first player and host, under a join code no live room uses. */
module CreateRoom {
  import opened JoinCode
  import opened Schema

  /** What a successful create answers. */
  datatype Created = Created(roomId: RoomId, joinCode: string, mode: int)

  /** The random source: one draw per pass of the retry loop. */
  predicate AllDrawn(attempts: seq<seq<nat>>) {
    forall k :: 0 <= k < |attempts| ==> IsDraw(attempts[k])
  }

  /** Some attempt spells a code that no live room uses, so the retry loop
      comes to an end. */
  predicate SomeUnused(attempts: seq<seq<nat>>, used: set<string>) {
    exists k :: 0 <= k < |attempts| && IsDraw(attempts[k]) && CodeOf(attempts[k]) !in used
  }

  /** The pass, from `i` on, at which the retry loop stops: the first attempt
      whose code is not in use. */
  function FirstUnused(attempts: seq<seq<nat>>, used: set<string>, i: nat): (k: nat)
    requires AllDrawn(attempts) && i <= |attempts|
    requires exists k :: i <= k < |attempts| && CodeOf(attempts[k]) !in used
    ensures i <= k < |attempts| && CodeOf(attempts[k]) !in used
    ensures forall j :: i <= j < k ==> CodeOf(attempts[j]) in used
    decreases |attempts| - i
  {
    if CodeOf(attempts[i]) !in used then i else FirstUnused(attempts, used, i + 1)
  }

  /** The code the retry loop settles on. */
  function AllocatedCode(attempts: seq<seq<nat>>, used: set<string>): string
    requires AllDrawn(attempts) && SomeUnused(attempts, used)
  {
    CodeOf(attempts[FirstUnused(attempts, used, 0)])
  }

  /** A request whose fields are present, as one step: reject a mode outside
      [2, 16], otherwise allocate a code and insert the room and its host. */
  ghost function Step(t: Tables, userId: UserId, username: string, mode: int,
                      attempts: seq<seq<nat>>): Transition<Created>
    requires AllDrawn(attempts)
    requires ValidMode(mode) ==> SomeUnused(attempts, Codes(t.rooms))
  {
    if !ValidMode(mode) then Transition(Fail(InvalidMode), t)
    else
      var code := AllocatedCode(attempts, Codes(t.rooms));
      var id := t.nextId;
      Transition(Ok(Created(id, code, mode)),
                 t.(rooms := t.rooms[id := Room(code, mode, Waiting, userId, None)],
                    players := t.players[id := [NewPlayer(userId, username, true)]],
                    nextId := t.nextId + 1))
  }

  /** A mode outside [2, 16] is refused and nothing is created; any other
      mode creates a room. */
  lemma ModeGate(t: Tables, userId: UserId, username: string, mode: int, attempts: seq<seq<nat>>)
    requires AllDrawn(attempts)
    requires ValidMode(mode) ==> SomeUnused(attempts, Codes(t.rooms))
    ensures var r := Step(t, userId, username, mode, attempts);
            (r.outcome == Fail(InvalidMode) <==> mode < 2 || mode > 16)
            && (r.outcome.Fail? ==> r.tables == t)
  {
  }

  /** The allocated code is a well-formed join code that no live room uses,
      and every attempt before it collided with a live room's code. */
  lemma FreshCode(t: Tables, userId: UserId, username: string, mode: int, attempts: seq<seq<nat>>)
    requires AllDrawn(attempts)
    requires ValidMode(mode) && SomeUnused(attempts, Codes(t.rooms))
    ensures var r := Step(t, userId, username, mode, attempts);
            && r.outcome.Ok?
            && IsJoinCode(r.outcome.value.joinCode)
            && r.outcome.value.joinCode !in Codes(t.rooms)
            && exists k :: 0 <= k < |attempts| && r.outcome.value.joinCode == CodeOf(attempts[k])
                 && forall j :: 0 <= j < k ==> CodeOf(attempts[j]) in Codes(t.rooms)
  {
    var k := FirstUnused(attempts, Codes(t.rooms), 0);
    DrawIsJoinCode(attempts[k]);
  }

  /** The new room is waiting, has the requested mode and the creator as
      host, and its only player is the creator, host and not ready. Rooms and
      players that existed before are unchanged. */
  lemma NewRoom(t: Tables, userId: UserId, username: string, mode: int, attempts: seq<seq<nat>>)
    requires Invariant(t)
    requires AllDrawn(attempts)
    requires ValidMode(mode) && SomeUnused(attempts, Codes(t.rooms))
    ensures var r := Step(t, userId, username, mode, attempts);
            && r.outcome.Ok?
            && var c := r.outcome.value;
            && c.roomId !in t.rooms && c.mode == mode
            && r.tables.rooms.Keys == t.rooms.Keys + {c.roomId}
            && r.tables.rooms[c.roomId] == Room(c.joinCode, mode, Waiting, userId, None)
            && r.tables.players[c.roomId] == [Player(userId, username, true, false, None, None)]
            && (forall id :: id in t.rooms ==> r.tables.rooms[id] == t.rooms[id])
            && (forall id :: id in t.players ==> r.tables.players[id] == t.players[id])
  {
  }

  /** A create keeps the store invariant and only moves the store forward. */
  lemma StepKeepsInvariant(t: Tables, userId: UserId, username: string, mode: int, attempts: seq<seq<nat>>)
    requires Invariant(t)
    requires AllDrawn(attempts)
    requires ValidMode(mode) ==> SomeUnused(attempts, Codes(t.rooms))
    ensures Invariant(Step(t, userId, username, mode, attempts).tables)
    ensures Evolves(t, Step(t, userId, username, mode, attempts).tables)
  {
    if ValidMode(mode) {
      FreshCode(t, userId, username, mode, attempts);
      var code := AllocatedCode(attempts, Codes(t.rooms));
      HostOnlyRoomValid(Room(code, mode, Waiting, userId, None), username);
      InsertKeepsInvariant(t, Room(code, mode, Waiting, userId, None), [NewPlayer(userId, username, true)]);
    }
  }

  /** A fresh waiting room whose only player is its host is valid. */
  lemma HostOnlyRoomValid(room: Room, username: string)
    requires ValidMode(room.mode) && IsJoinCode(room.joinCode)
    requires room.status == Waiting && room.startedAt == None
    ensures ValidRoom(room, [NewPlayer(room.hostUserId, username, true)])
  {
    var host := [NewPlayer(room.hostUserId, username, true)];
    assert host[0].userId == room.hostUserId;
  }

  /** The uniqueness loop: draw a code, look it up, and draw again while a
      live room already has it. */
  method AllocateJoinCode(db: Database, attempts: seq<seq<nat>>) returns (joinCode: string)
    requires AllDrawn(attempts) && SomeUnused(attempts, Codes(db.rooms))
    ensures joinCode == AllocatedCode(attempts, Codes(db.rooms))
    ensures IsJoinCode(joinCode) && joinCode !in Codes(db.rooms)
  {
    ghost var used := Codes(db.rooms);
    ghost var stop := FirstUnused(attempts, used, 0);
    joinCode := "";
    var i := 0;
    var codeExists := true;
    while codeExists
      invariant i <= stop + 1
      invariant codeExists ==> i <= stop
      invariant !codeExists ==> i == stop + 1 && joinCode == CodeOf(attempts[stop])
      decreases |attempts| - i
    {
      joinCode := GenerateJoinCode(attempts[i]);
      codeExists := joinCode in Codes(db.rooms);
      assert codeExists <==> i < stop by {
        assert i < stop ==> CodeOf(attempts[i]) in used;
      }
      i := i + 1;
    }
    DrawIsJoinCode(attempts[stop]);
  }

  /** The whole request: both the user id and the name must be present
      (non-empty) before anything else is looked at. */
  ghost function Serve(t: Tables, userId: UserId, username: string, mode: int,
                       attempts: seq<seq<nat>>): Transition<Created>
    requires AllDrawn(attempts)
    requires userId != "" && username != "" && ValidMode(mode) ==> SomeUnused(attempts, Codes(t.rooms))
  {
    if userId == "" || username == "" then Transition(Fail(MissingFields), t)
    else Step(t, userId, username, mode, attempts)
  }

  /** A request is refused for missing fields exactly when the user id or the
      name is empty, and then nothing changes. */
  lemma RejectsMissingFields(t: Tables, userId: UserId, username: string, mode: int,
                             attempts: seq<seq<nat>>)
    requires AllDrawn(attempts)
    requires userId != "" && username != "" && ValidMode(mode) ==> SomeUnused(attempts, Codes(t.rooms))
    ensures var r := Serve(t, userId, username, mode, attempts);
            && (r.outcome == Fail(MissingFields) <==> userId == "" || username == "")
            && (r.outcome == Fail(MissingFields) ==> r.tables == t)
  {
  }

  /** Serving a whole request keeps the store invariant and only moves the
      store forward. */
  lemma ServeKeepsInvariant(t: Tables, userId: UserId, username: string, mode: int, attempts: seq<seq<nat>>)
    requires Invariant(t)
    requires AllDrawn(attempts)
    requires userId != "" && username != "" && ValidMode(mode) ==> SomeUnused(attempts, Codes(t.rooms))
    ensures Invariant(Serve(t, userId, username, mode, attempts).tables)
    ensures Evolves(t, Serve(t, userId, username, mode, attempts).tables)
  {
    if userId != "" && username != "" {
      StepKeepsInvariant(t, userId, username, mode, attempts);
    }
  }

  /** The handler: refuse a request with missing fields, serve the rest. */
  method Handler(db: Database, userId: UserId, username: string, mode: int,
                 attempts: seq<seq<nat>>) returns (res: Outcome<Created>)
    requires db.Valid()
    requires AllDrawn(attempts)
    requires userId != "" && username != "" && ValidMode(mode) ==> SomeUnused(attempts, Codes(db.rooms))
    modifies db
    ensures db.Valid()
    ensures Transition(res, db.Contents()) == Serve(old(db.Contents()), userId, username, mode, attempts)
  {
    if userId == "" || username == "" {
      res := Fail(MissingFields);
    } else {
      res := Apply(db, userId, username, mode, attempts);
    }
  }

  /** A request with its fields present: check the mode, allocate the code,
      insert the room, then insert its creator as host. */
  method Apply(db: Database, userId: UserId, username: string, mode: int,
               attempts: seq<seq<nat>>) returns (res: Outcome<Created>)
    requires db.Valid()
    requires AllDrawn(attempts)
    requires ValidMode(mode) ==> SomeUnused(attempts, Codes(db.rooms))
    modifies db
    ensures db.Valid()
    ensures Transition(res, db.Contents()) == Step(old(db.Contents()), userId, username, mode, attempts)
  {
    if mode < 2 || mode > 16 {
      return Fail(InvalidMode);
    }
    var joinCode := AllocateJoinCode(db, attempts);
    var roomId := db.nextId;
    db.rooms := db.rooms[roomId := Room(joinCode, mode, Waiting, userId, None)];
    db.nextId := db.nextId + 1;
    db.players := db.players[roomId := [NewPlayer(userId, username, true)]];
    res := Ok(Created(roomId, joinCode, mode));
    StepKeepsInvariant(old(db.Contents()), userId, username, mode, attempts);
  }
}
