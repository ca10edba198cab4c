/** The process-wide room table, the short-id generator and the 30-second
    presence filter of lib/in-memory-store.ts. */
module InMemoryStore {
  import opened Wrappers

  /** A user's activity record, stored under the user's id. */
  datatype ActiveUser = ActiveUser(id: string, lastSeen: int, isTyping: bool)

  /** A room of the in-memory store. */
  datatype RoomData = RoomData(content: string, lastUpdate: int, users: map<string, ActiveUser>)

  /** The 62 characters a short id is drawn from: A-Z, a-z, 0-9. */
  const Alphabet: string := "ABCDEFGHIJKLMNOPQRSTUVWXYZabcdefghijklmnopqrstuvwxyz0123456789"

  /** Users idle for this many milliseconds or more are dropped by CleanupUsers. */
  const UserTimeout: int := 30000

  /** The module-level `rooms` record. */
  class RoomTable {
    var rooms: map<string, RoomData>

    constructor ()
      ensures rooms == map[]
    {
      rooms := map[];
    }

    /** The room stored under `roomId`, or None (JavaScript's undefined). */
    function GetRoom(roomId: string): (r: Option<RoomData>)
      reads this
      ensures r.Some? <==> roomId in rooms
      ensures r.Some? ==> r.value == rooms[roomId]
    {
      if roomId in rooms then Some(rooms[roomId]) else None
    }

    /** Stores `data` under `roomId`, replacing any earlier room. */
    method SetRoom(roomId: string, data: RoomData)
      modifies this
      ensures GetRoom(roomId) == Some(data)
      ensures forall other :: other != roomId ==> GetRoom(other) == old(GetRoom(other))
      ensures rooms == old(rooms)[roomId := data]
    {
      rooms := rooms[roomId := data];
    }

    /** Whether a room has been stored under `roomId` (a stored room object is always truthy). */
    function RoomExists(roomId: string): (b: bool)
      reads this
      ensures b <==> GetRoom(roomId).Some?
    {
      roomId in rooms
    }
  }

  /** `s` is a short id of length `n`: exactly `n` characters of the alphabet. */
  predicate IsShortId(s: string, n: nat) {
    |s| == n && forall i :: 0 <= i < |s| ==> s[i] in Alphabet
  }

  /** The alphabet position chosen by one draw `r` of Math.random(): floor(r * 62). */
  function Pick(r: real): (k: nat)
    requires 0.0 <= r < 1.0
    ensures k < |Alphabet|
  {
    (r * 62.0).Floor
  }

  /** Builds an id of `length` characters (8 when the caller gives none), one per random draw
      in [0, 1). */
  method GenerateShortId(draws: seq<real>, length: nat := 8) returns (id: string)
    requires |draws| == length
    requires forall i :: 0 <= i < |draws| ==> 0.0 <= draws[i] < 1.0
    ensures IsShortId(id, length)
    ensures forall i :: 0 <= i < length ==> id[i] == Alphabet[Pick(draws[i])]
  {
    id := "";
    for i := 0 to length
      invariant |id| == i
      invariant forall j :: 0 <= j < i ==> id[j] == Alphabet[Pick(draws[j])]
    {
      id := id + [Alphabet[Pick(draws[i])]];
    }
  }

  /** The users whose last activity is less than 30 seconds before `now`. */
  function ActiveUsers(users: map<string, ActiveUser>, now: int): (r: map<string, ActiveUser>)
    ensures forall k :: k in r <==> k in users && users[k].lastSeen > now - UserTimeout
    ensures forall k :: k in r ==> r[k] == users[k]
  {
    map k | k in users && now - users[k].lastSeen < UserTimeout :: users[k]
  }

  /** Copies every user seen within the last 30 seconds into a new record;
      the argument is a value and is left as it was. */
  method CleanupUsers(users: map<string, ActiveUser>, now: int) returns (active: map<string, ActiveUser>)
    ensures active == ActiveUsers(users, now)
  {
    active := map[];
    var pending := users.Keys;
    while pending != {}
      invariant pending <= users.Keys
      invariant forall k :: k in active <==> k in users && k !in pending && now - users[k].lastSeen < UserTimeout
      invariant forall k :: k in active ==> active[k] == users[k]
      decreases |pending|
    {
      var k :| k in pending;
      if now - users[k].lastSeen < UserTimeout {
        active := active[k := users[k]];
      }
      pending := pending - {k};
    }
  }

  /** Cleaning up twice at the same instant is cleaning up once. */
  lemma CleanupIdempotent(users: map<string, ActiveUser>, now: int)
    ensures ActiveUsers(ActiveUsers(users, now), now) == ActiveUsers(users, now)
  {
  }

  /** A user is kept exactly when idle for less than 30 seconds: 29999 ms stays, 30000 ms goes. */
  lemma CleanupBoundary(users: map<string, ActiveUser>, now: int, k: string)
    requires k in users
    ensures k in ActiveUsers(users, now) <==> users[k].lastSeen > now - UserTimeout
    ensures k in ActiveUsers(users, now) ==> ActiveUsers(users, now)[k] == users[k]
  {
  }
}
