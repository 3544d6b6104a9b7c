/** The handlers together: any sequence of requests, served one at a time,
    keeps every room valid (in particular with exactly one host), and the
    handlers agree with one another about rooms that are created, started
    and abandoned. */
module Lobby {
  import opened JoinCode
  import opened Schema
  import CreateRoom
  import JoinRoom
  import LeaveRoom
  import PlayerReady
  import RoomState

  /** One request to one of the five handlers, with the inputs the handler
      reads (and, for a create, what the random source yields). */
  datatype Request =
    | Create(userId: UserId, username: string, mode: int, attempts: seq<seq<nat>>)
    | Join(userId: UserId, username: string, joinCode: string)
    | Leave(userId: UserId, roomId: RoomId)
    | Ready(userId: UserId, roomId: RoomId, ready: bool)
    | Poll(userId: UserId, roomId: RoomId, now: nat)

  /** Whether a request completes: a create with its fields present and a
      valid mode completes only when one of its attempts draws an unused code. */
  ghost predicate Completes(t: Tables, q: Request) {
    q.Create? ==>
      && CreateRoom.AllDrawn(q.attempts)
      && (q.userId != "" && q.username != "" && ValidMode(q.mode) ==>
            CreateRoom.SomeUnused(q.attempts, Codes(t.rooms)))
  }

  /** The store after serving `q`; a request that does not complete leaves it
      as it was. */
  ghost function Next(t: Tables, q: Request): Tables
    requires t.rooms.Keys == t.players.Keys
  {
    if !Completes(t, q) then t
    else match q
      case Create(u, n, mode, attempts) => CreateRoom.Serve(t, u, n, mode, attempts).tables
      case Join(u, n, code) => JoinRoom.Serve(t, u, n, code).tables
      case Leave(u, id) => LeaveRoom.Serve(t, u, id).tables
      case Ready(u, id, r) => PlayerReady.Serve(t, u, id, r).tables
      case Poll(u, id, now) => RoomState.Serve(t, id, u, now).tables
  }

  lemma NextKeepsInvariant(t: Tables, q: Request)
    requires Invariant(t)
    ensures Invariant(Next(t, q)) && Evolves(t, Next(t, q))
  {
    if Completes(t, q) {
      match q
      case Create(u, n, mode, attempts) => CreateRoom.ServeKeepsInvariant(t, u, n, mode, attempts);
      case Join(u, n, code) => JoinRoom.ServeKeepsInvariant(t, u, n, code);
      case Leave(u, id) => LeaveRoom.ServeKeepsInvariant(t, u, id);
      case Ready(u, id, r) => PlayerReady.ServeKeepsInvariant(t, u, id, r);
      case Poll(u, id, now) => RoomState.ServeKeepsInvariant(t, id, u, now);
    }
  }

  /** The store after serving `qs` in order. */
  ghost function Run(t: Tables, qs: seq<Request>): Tables
    requires Invariant(t)
    decreases |qs|
  {
    if qs == [] then t
    else
      NextKeepsInvariant(t, qs[0]);
      Run(Next(t, qs[0]), qs[1..])
  }

  /** Every run keeps the store invariant and only moves the store forward. */
  lemma {:induction false} RunKeepsInvariant(t: Tables, qs: seq<Request>)
    requires Invariant(t)
    ensures Invariant(Run(t, qs)) && Evolves(t, Run(t, qs))
    decreases |qs|
  {
    if qs != [] {
      var t' := Next(t, qs[0]);
      NextKeepsInvariant(t, qs[0]);
      RunKeepsInvariant(t', qs[1..]);
      EvolvesTransitive(t, t', Run(t', qs[1..]));
    }
  }

  /** Starting from the empty store, after any requests every room has between
      one and `mode` players and exactly one host, the one its `hostUserId`
      names. */
  lemma EveryRoomHasOneHost(log: map<RoomId, seq<GameState>>, qs: seq<Request>)
    ensures Invariant(Tables(map[], map[], log, 1))
    ensures var t := Run(Tables(map[], map[], log, 1), qs);
            forall id :: id in t.rooms ==>
              && id in t.players
              && 1 <= |t.players[id]| <= t.rooms[id].mode
              && CountHosts(t.players[id]) == 1
              && IsMember(t.players[id], t.rooms[id].hostUserId)
  {
    var t0 := Tables(map[], map[], log, 1);
    RunKeepsInvariant(t0, qs);
    var t := Run(t0, qs);
    forall id | id in t.rooms
      ensures CountHosts(t.players[id]) == 1
    {
      OneHost(t.rooms[id], t.players[id]);
    }
  }

  /** A room id that no longer exists never comes back: created rooms get
      fresh ids. */
  lemma DeletedRoomStaysDeleted(t: Tables, qs: seq<Request>, roomId: RoomId)
    requires Invariant(t) && roomId !in t.rooms && roomId < t.nextId
    ensures roomId !in Run(t, qs).rooms
  {
    RunKeepsInvariant(t, qs);
  }

  /** When the last player leaves, the room is gone for every handler: polls,
      ready updates and leaves name it in vain, and its code (in any case)
      finds nothing. */
  lemma AbandonedRoomIsGone(t: Tables, userId: UserId, roomId: RoomId,
                            u: UserId, username: string, s: string, ready: bool, now: nat)
    requires Invariant(t) && roomId in t.rooms
    requires |t.players[roomId]| == 1 && t.players[roomId][0].userId == userId
    requires SameIgnoringCase(s, t.rooms[roomId].joinCode)
    ensures var t' := LeaveRoom.Step(t, userId, roomId).tables;
            && Invariant(t')
            && RoomState.Step(t', roomId, u, now).outcome == Fail(NotFound)
            && PlayerReady.Step(t', u, roomId, ready).outcome == Fail(NotFound)
            && LeaveRoom.Step(t', u, roomId).outcome == Fail(NotFound)
            && JoinRoom.Step(t', u, username, s).outcome == Fail(NotFound)
  {
    LeaveRoom.LastLeaverDeletesRoom(t, userId, roomId);
    LeaveRoom.StepKeepsInvariant(t, userId, roomId);
    var t' := LeaveRoom.Step(t, userId, roomId).tables;
    var code := t.rooms[roomId].joinCode;
    UpperMatchesIgnoringCase(s, code);
    forall id | id in t'.rooms ensures t'.rooms[id].joinCode != code {
      assert id in t.rooms && id != roomId;
    }
    JoinRoom.UnknownCode(t', u, username, s) by {
      forall id | id in t'.rooms ensures !SameIgnoringCase(s, t'.rooms[id].joinCode) {
        if SameIgnoringCase(s, t'.rooms[id].joinCode) {
          UpperMatchesIgnoringCase(s, t'.rooms[id].joinCode);
        }
      }
    }
  }

  /** A room just created can be joined by its code, typed in any case, by
      anyone else: they take the second seat. */
  lemma CreatedRoomIsJoinable(t: Tables, host: UserId, hostName: string, mode: int, attempts: seq<seq<nat>>,
                              guest: UserId, guestName: string, s: string)
    requires Invariant(t) && ValidMode(mode)
    requires CreateRoom.AllDrawn(attempts) && CreateRoom.SomeUnused(attempts, Codes(t.rooms))
    requires guest != host
    requires SameIgnoringCase(s, CreateRoom.AllocatedCode(attempts, Codes(t.rooms)))
    ensures var c := CreateRoom.Step(t, host, hostName, mode, attempts);
            var j := JoinRoom.Step(c.tables, guest, guestName, s);
            && c.outcome.Ok?
            && j.outcome == Ok(JoinRoom.Joined(c.outcome.value.roomId, mode, false))
            && j.tables.players[c.outcome.value.roomId]
               == [NewPlayer(host, hostName, true), NewPlayer(guest, guestName, false)]
  {
    CreateRoom.NewRoom(t, host, hostName, mode, attempts);
    CreateRoom.StepKeepsInvariant(t, host, hostName, mode, attempts);
    var c := CreateRoom.Step(t, host, hostName, mode, attempts);
    var id := t.nextId;
    assert !IsMember(c.tables.players[id], guest);
    JoinRoom.Seat(c.tables, id, guest, guestName, s);
  }

  /** Once a poll has started the game, every join with the room's code is
      refused as a game in progress. */
  lemma StartedGameRefusesJoin(t: Tables, roomId: RoomId, poller: UserId, now: nat,
                               u: UserId, username: string, s: string)
    requires Invariant(t) && roomId in t.rooms
    requires t.rooms[roomId].status == Waiting && RoomState.AllReady(t.players[roomId])
    requires SameIgnoringCase(s, t.rooms[roomId].joinCode)
    ensures var t' := RoomState.Step(t, roomId, poller, now).tables;
            JoinRoom.Step(t', u, username, s) == Transition(Fail(GameInProgress), t')
  {
    RoomState.StepKeepsInvariant(t, roomId, poller, now);
    RoomState.StartsExactlyWhenAllReady(t, roomId, poller, now);
    var t' := RoomState.Step(t, roomId, poller, now).tables;
    JoinRoom.StatusGates(t', roomId, u, username, s);
  }
}
