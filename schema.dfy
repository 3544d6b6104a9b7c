/** The three tables the handlers share (rooms, players, game states), the
    invariant every handler keeps, and the database object the handlers
    read and write. */
module Schema {
  import opened JoinCode

  datatype Option<T> = None | Some(value: T)

  /** Room ids are handed out by the rooms table in increasing order. */
  type RoomId = nat
  type UserId = string

  /** A room's lifecycle: waiting for players, playing, finished. */
  datatype Status = Waiting | Playing | Finished

  function Rank(s: Status): nat {
    match s
    case Waiting => 0
    case Playing => 1
    case Finished => 2
  }

  /** A row of the rooms table. `mode` is the number of seats. `startedAt` is
      the clock value recorded when the room started playing. */
  datatype Room = Room(joinCode: string, mode: int, status: Status, hostUserId: UserId, startedAt: Option<nat>)

  /** A row of the players table, without its room id (the key of the room's
      list) and without `joined_at` (the position in that list). `team` and
      `bet` belong to the game engine and are only passed through. */
  datatype Player = Player(userId: UserId, username: string, isHost: bool, ready: bool,
                           team: Option<string>, bet: Option<string>)

  /** The row an insert into the players table creates: not ready, no team
      and no bet yet. */
  function NewPlayer(userId: UserId, username: string, isHost: bool): Player {
    Player(userId, username, isHost, false, None, None)
  }

  /** A row of the game-state log, written by the game engine. */
  datatype GameState = GameState(generation: int, stateData: string, winner: Option<string>)

  /** The failures a handler reports. */
  datatype Error = MissingFields | NotFound | RoomFull | GameInProgress | GameEnded | InvalidMode

  datatype Outcome<T> = Ok(value: T) | Fail(error: Error)

  /** The whole store: each room's players in join order, and the game-state
      log per room. `nextId` is the id the next created room receives. */
  datatype Tables = Tables(rooms: map<RoomId, Room>, players: map<RoomId, seq<Player>>,
                           gameStates: map<RoomId, seq<GameState>>, nextId: RoomId)

  /** What one handler call answers and the store it leaves behind. */
  datatype Transition<T> = Transition(outcome: Outcome<T>, tables: Tables)

  predicate ValidMode(mode: int) {
    2 <= mode <= 16
  }

  predicate IsMember(ps: seq<Player>, u: UserId) {
    exists i :: 0 <= i < |ps| && ps[i].userId == u
  }

  predicate UniqueUsers(ps: seq<Player>) {
    forall i, j :: 0 <= i < j < |ps| ==> ps[i].userId != ps[j].userId
  }

  /** The row of `u` in `ps`, or -1 when `u` is not a member. */
  function IndexOf(ps: seq<Player>, u: UserId): (k: int)
    ensures -1 <= k < |ps|
    ensures k == -1 <==> !IsMember(ps, u)
    ensures k >= 0 ==> ps[k].userId == u && forall i :: 0 <= i < k ==> ps[i].userId != u
  {
    if |ps| == 0 then -1
    else if ps[0].userId == u then 0
    else
      var k := IndexOf(ps[1..], u);
      assert !IsMember(ps[1..], u) ==> !IsMember(ps, u) by {
        if IsMember(ps, u) {
          var i :| 0 <= i < |ps| && ps[i].userId == u;
          assert ps[1..][i - 1].userId == u;
        }
      }
      if k == -1 then -1 else k + 1
  }

  /** The invariant of one room and its player list: a valid mode and code,
      between one and `mode` members, no user twice, the host flag set on
      exactly the member `hostUserId` names, and `startedAt` recorded once
      the room plays. */
  predicate ValidRoom(r: Room, ps: seq<Player>) {
    && ValidMode(r.mode)
    && IsJoinCode(r.joinCode)
    && 1 <= |ps| <= r.mode
    && UniqueUsers(ps)
    && IsMember(ps, r.hostUserId)
    && (forall i :: 0 <= i < |ps| ==> (ps[i].isHost <==> ps[i].userId == r.hostUserId))
    && (r.status == Waiting ==> r.startedAt == None)
    && (r.status == Playing ==> r.startedAt != None)
  }

  /** No two live rooms share a join code. */
  ghost predicate CodesUnique(rooms: map<RoomId, Room>) {
    forall a, b :: a in rooms && b in rooms && a != b ==> rooms[a].joinCode != rooms[b].joinCode
  }

  /** The store invariant: every room has a player list and every player list
      a room, ids are below `nextId`, and each room is valid. */
  ghost predicate Invariant(t: Tables) {
    && t.rooms.Keys == t.players.Keys
    && (forall id :: id in t.rooms ==> id < t.nextId)
    && (forall id :: id in t.rooms ==> ValidRoom(t.rooms[id], t.players[id]))
    && CodesUnique(t.rooms)
  }

  /** The join codes of the live rooms. */
  function Codes(rooms: map<RoomId, Room>): set<string> {
    set id | id in rooms :: rooms[id].joinCode
  }

  /** `SELECT ... FROM rooms WHERE join_code = code`. */
  ghost function RoomByCode(rooms: map<RoomId, Room>, code: string): (r: Option<RoomId>)
    ensures r.Some? ==> r.value in rooms && rooms[r.value].joinCode == code
    ensures r.None? <==> code !in Codes(rooms)
  {
    if exists id :: id in rooms && rooms[id].joinCode == code then
      var id :| id in rooms && rooms[id].joinCode == code;
      Some(id)
    else
      None
  }

  /** With unique codes, looking up a room's own code finds that room. */
  lemma RoomByOwnCode(rooms: map<RoomId, Room>, id: RoomId)
    requires CodesUnique(rooms) && id in rooms
    ensures RoomByCode(rooms, rooms[id].joinCode) == Some(id)
  {
  }

  function CountHosts(ps: seq<Player>): nat {
    if ps == [] then 0 else (if ps[0].isHost then 1 else 0) + CountHosts(ps[1..])
  }

  lemma {:induction false} CountHostsFlags(ps: seq<Player>, h: UserId)
    requires UniqueUsers(ps)
    requires forall i :: 0 <= i < |ps| ==> (ps[i].isHost <==> ps[i].userId == h)
    ensures CountHosts(ps) == if IsMember(ps, h) then 1 else 0
  {
    if ps != [] {
      var rest := ps[1..];
      assert UniqueUsers(rest) by {
        forall i, j | 0 <= i < j < |rest| ensures rest[i].userId != rest[j].userId {
          assert rest[i] == ps[i + 1] && rest[j] == ps[j + 1];
        }
      }
      CountHostsFlags(rest, h);
      if ps[0].userId == h {
        assert !IsMember(rest, h) by {
          forall i | 0 <= i < |rest| ensures rest[i].userId != h {
            assert rest[i] == ps[i + 1];
          }
        }
        assert IsMember(ps, h) by { assert ps[0].userId == h; }
      } else {
        assert IsMember(ps, h) <==> IsMember(rest, h) by {
          if IsMember(ps, h) {
            var i :| 0 <= i < |ps| && ps[i].userId == h;
            assert rest[i - 1].userId == h;
          }
          if IsMember(rest, h) {
            var i :| 0 <= i < |rest| && rest[i].userId == h;
            assert ps[i + 1].userId == h;
          }
        }
      }
    }
  }

  /** A valid room has exactly one host, and it is the member `hostUserId`
      names. */
  lemma OneHost(r: Room, ps: seq<Player>)
    requires ValidRoom(r, ps)
    ensures CountHosts(ps) == 1
    ensures forall i :: 0 <= i < |ps| && ps[i].isHost ==> ps[i].userId == r.hostUserId
  {
    CountHostsFlags(ps, r.hostUserId);
  }

  /** Inserting a valid room under the next id, with a code no live room
      uses, keeps the invariant. */
  lemma InsertKeepsInvariant(t: Tables, r: Room, ps: seq<Player>)
    requires Invariant(t)
    requires ValidRoom(r, ps) && r.joinCode !in Codes(t.rooms)
    ensures Invariant(t.(rooms := t.rooms[t.nextId := r], players := t.players[t.nextId := ps],
                         nextId := t.nextId + 1))
  {
    UpdateKeepsRoomsValid(t, t.nextId, r, ps);
    InsertKeepsCodesUnique(t.rooms, t.nextId, r);
  }

  lemma InsertKeepsCodesUnique(rooms: map<RoomId, Room>, id: RoomId, r: Room)
    requires CodesUnique(rooms) && r.joinCode !in Codes(rooms)
    ensures CodesUnique(rooms[id := r])
  {
    var rooms' := rooms[id := r];
    forall a, b | a in rooms' && b in rooms' && a != b
      ensures rooms'[a].joinCode != rooms'[b].joinCode
    {
      if a == id {
        assert rooms'[b].joinCode in Codes(rooms);
      } else if b == id {
        assert rooms'[a].joinCode in Codes(rooms);
      }
    }
  }

  /** Replacing one room and its players by a valid pair with the same code
      keeps the invariant. */
  lemma UpdateKeepsInvariant(t: Tables, id: RoomId, r: Room, ps: seq<Player>)
    requires Invariant(t) && id in t.rooms
    requires ValidRoom(r, ps) && r.joinCode == t.rooms[id].joinCode
    ensures Invariant(t.(rooms := t.rooms[id := r], players := t.players[id := ps]))
  {
    UpdateKeepsRoomsValid(t, id, r, ps);
    UpdateKeepsCodesUnique(t.rooms, id, r);
  }

  lemma UpdateKeepsRoomsValid(t: Tables, id: RoomId, r: Room, ps: seq<Player>)
    requires forall x :: x in t.rooms ==> x in t.players && ValidRoom(t.rooms[x], t.players[x])
    requires ValidRoom(r, ps)
    ensures var t' := t.(rooms := t.rooms[id := r], players := t.players[id := ps]);
            forall x :: x in t'.rooms ==> ValidRoom(t'.rooms[x], t'.players[x])
  {
  }

  lemma UpdateKeepsCodesUnique(rooms: map<RoomId, Room>, id: RoomId, r: Room)
    requires CodesUnique(rooms) && id in rooms && r.joinCode == rooms[id].joinCode
    ensures CodesUnique(rooms[id := r])
  {
    var rooms' := rooms[id := r];
    forall a, b | a in rooms' && b in rooms' && a != b
      ensures rooms'[a].joinCode != rooms'[b].joinCode
    {
      assert rooms'[a].joinCode == rooms[a].joinCode;
      assert rooms'[b].joinCode == rooms[b].joinCode;
    }
  }

  /** Replacing one room's player list by a list that is valid for that
      room keeps the invariant. */
  lemma PlayersUpdateKeepsInvariant(t: Tables, id: RoomId, ps: seq<Player>)
    requires Invariant(t) && id in t.rooms
    requires ValidRoom(t.rooms[id], ps)
    ensures Invariant(t.(players := t.players[id := ps]))
  {
    var t' := t.(players := t.players[id := ps]);
    forall x | x in t'.rooms ensures ValidRoom(t'.rooms[x], t'.players[x]) {
      if x != id {
        assert t'.players[x] == t.players[x];
      }
    }
  }

  /** Deleting a room together with its player list keeps the invariant. */
  lemma DeleteKeepsInvariant(t: Tables, id: RoomId)
    requires Invariant(t)
    ensures Invariant(t.(rooms := t.rooms - {id}, players := t.players - {id}))
  {
  }

  /** How a room that survives a handler call may change: its code and mode
      never change, its status only moves forward, and once `startedAt` is
      recorded it is never reset. */
  predicate RoomEvolves(r: Room, r': Room) {
    && r'.joinCode == r.joinCode
    && r'.mode == r.mode
    && Rank(r.status) <= Rank(r'.status)
    && (r.startedAt.Some? ==> r'.startedAt == r.startedAt)
  }

  /** How the store may change under any handler call: ids move forward and
      are never reused, the game-state log is untouched, and surviving rooms
      only evolve. */
  ghost predicate Evolves(t: Tables, t': Tables) {
    && t.nextId <= t'.nextId
    && t'.gameStates == t.gameStates
    && (forall id :: id in t'.rooms && id !in t.rooms ==> t.nextId <= id)
    && (forall id :: id in t.rooms && id in t'.rooms ==> RoomEvolves(t.rooms[id], t'.rooms[id]))
  }

  lemma EvolvesTransitive(t1: Tables, t2: Tables, t3: Tables)
    requires Evolves(t1, t2) && Evolves(t2, t3)
    requires forall id :: id in t1.rooms ==> id < t1.nextId
    ensures Evolves(t1, t3)
  {
  }

  /** The database the handlers share. Each handler is one atomic step. */
  class Database {
    var rooms: map<RoomId, Room>
    var players: map<RoomId, seq<Player>>
    var gameStates: map<RoomId, seq<GameState>>
    var nextId: RoomId

    /** An empty store; the game-state log is whatever the game engine has
        written. */
    constructor (log: map<RoomId, seq<GameState>>)
      ensures Contents() == Tables(map[], map[], log, 1)
      ensures Valid()
    {
      rooms, players, gameStates, nextId := map[], map[], log, 1;
    }

    function Contents(): Tables
      reads this
    {
      Tables(rooms, players, gameStates, nextId)
    }

    ghost predicate Valid()
      reads this
    {
      Invariant(Contents())
    }
  }
}
