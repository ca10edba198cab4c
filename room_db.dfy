/** The room and notebook reconciliation layer of lib/db.ts. The Supabase `rooms` table is a
    map from room id to room document; every operation reads one document, transforms it,
    filters presence and writes it back. */
module RoomDb {
  import opened Wrappers
  import opened Colors
  import InMemoryStore

  const RoomExpiryHours: int := 24
  /** A room lives this many milliseconds from its creation. */
  const RoomTtl: int := RoomExpiryHours * 60 * 60 * 1000
  /** The most times CreateRoom draws a fresh id after a collision. */
  const MaxAttempts: nat := 10
  /** Users idle this many milliseconds or more are no longer present. */
  const UserInactivityTimeout: int := 60 * 1000
  const RoomIdLength: nat := 4
  const NotebookIdLength: nat := 8

  datatype Notebook = Notebook(id: string, name: string, content: string, lastUpdate: int, color: string)

  datatype UserPresence = UserPresence(id: string, username: string, lastSeen: int)

  /** A row of the `rooms` table; timestamps are milliseconds since the epoch. */
  datatype RoomData = RoomData(
    id: string,
    createdAt: int,
    lastActive: int,
    expiresAt: int,
    notebooks: seq<Notebook>,
    users: seq<UserPresence>)

  /** The failures the layer reports. */
  datatype DbError = RoomNotFound | RoomExpired | IdExhausted | NotebookNotFound | LastNotebook

  /** The error string each failure is reported with. */
  function ErrorText(e: DbError): string {
    match e
    case RoomNotFound => "Room not found."
    case RoomExpired => "Room expired."
    case IdExhausted => "Failed to generate a unique room ID after multiple attempts."
    case NotebookNotFound => "Notebook not found in room."
    case LastNotebook => "Cannot delete the last notebook in a room."
  }

  // ----- presence -----

  predicate IsActive(u: UserPresence, now: int) {
    now - u.lastSeen < UserInactivityTimeout
  }

  /** The users seen less than 60 seconds before `now`, in their original order. */
  function ActiveUsers(users: seq<UserPresence>, now: int): (r: seq<UserPresence>)
    ensures |r| <= |users|
    ensures forall u :: u in r <==> u in users && IsActive(u, now)
  {
    if users == [] then []
    else if IsActive(users[0], now) then [users[0]] + ActiveUsers(users[1..], now)
    else ActiveUsers(users[1..], now)
  }

  predicate HasUser(users: seq<UserPresence>, userId: string) {
    exists i :: 0 <= i < |users| && users[i].id == userId
  }

  /** No user id occurs twice. */
  predicate UniqueUserIds(users: seq<UserPresence>) {
    forall i, j :: 0 <= i < j < |users| ==> users[i].id != users[j].id
  }

  /** One user entry after the `map` step of an upsert by `userId`. */
  function Refreshed(u: UserPresence, userId: string, username: string, now: int): UserPresence {
    if u.id == userId then u.(lastSeen := now, username := username) else u
  }

  /** The presence list after an upsert: every entry of `userId` is refreshed (time and name),
      others are untouched, and an absent user is appended. */
  function Upserted(users: seq<UserPresence>, userId: string, username: string, now: int): (r: seq<UserPresence>)
    ensures HasUser(users, userId) ==> |r| == |users|
    ensures !HasUser(users, userId) ==> |r| == |users| + 1 && r[|users|] == UserPresence(userId, username, now)
    ensures forall i :: 0 <= i < |users| && users[i].id == userId ==> r[i] == UserPresence(userId, username, now)
    ensures forall i :: 0 <= i < |users| && users[i].id != userId ==> r[i] == users[i]
  {
    var mapped := seq(|users|, i requires 0 <= i < |users| => Refreshed(users[i], userId, username, now));
    if HasUser(users, userId) then mapped else mapped + [UserPresence(userId, username, now)]
  }

  /** The presence upsert as written: a pass over the users that refreshes matches and raises
      `userFound`, then an append when nobody matched. */
  method UpsertPresence(users: seq<UserPresence>, userId: string, username: string, now: int)
    returns (updated: seq<UserPresence>)
    ensures updated == Upserted(users, userId, username, now)
  {
    var userFound := false;
    updated := [];
    for i := 0 to |users|
      invariant |updated| == i
      invariant forall j :: 0 <= j < i ==> updated[j] == Refreshed(users[j], userId, username, now)
      invariant userFound <==> exists j :: 0 <= j < i && users[j].id == userId
    {
      if users[i].id == userId {
        userFound := true;
        updated := updated + [users[i].(lastSeen := now, username := username)];
      } else {
        updated := updated + [users[i]];
      }
    }
    if !userFound {
      updated := updated + [UserPresence(userId, username, now)];
    }
  }

  /** The presence step every mutation shares: upsert, then drop inactive users. The caller
      is always present afterwards and nobody inactive is. */
  function Touched(users: seq<UserPresence>, userId: string, username: string, now: int): (r: seq<UserPresence>)
    ensures UserPresence(userId, username, now) in r
    ensures forall u :: u in r ==> IsActive(u, now) && (u in users || u.id == userId)
  {
    ActiveUsers(Upserted(users, userId, username, now), now)
  }

  // ----- notebooks -----

  predicate HasNotebook(notebooks: seq<Notebook>, notebookId: string) {
    exists i :: 0 <= i < |notebooks| && notebooks[i].id == notebookId
  }

  /** A notebook with its colour defaulted from its position when missing (empty, so falsy). */
  function Colored(nb: Notebook, index: nat): Notebook {
    if nb.color == "" then nb.(color := NotebookColor(index)) else nb
  }

  /** The notebooks as a fetch returns them: every missing colour filled in by position,
      nothing else touched. */
  function WithColors(notebooks: seq<Notebook>): (r: seq<Notebook>)
    ensures |r| == |notebooks|
    ensures forall i :: 0 <= i < |r| ==>
      && r[i].id == notebooks[i].id && r[i].name == notebooks[i].name
      && r[i].content == notebooks[i].content && r[i].lastUpdate == notebooks[i].lastUpdate
      && r[i].color == (if notebooks[i].color == "" then NotebookColor(i) else notebooks[i].color)
      && r[i].color != ""
  {
    seq(|notebooks|, i requires 0 <= i < |notebooks| => Colored(notebooks[i], i))
  }

  /** The notebooks after publishing `content` to `notebookId`: matching notebooks take the new
      content and time, and everything else stays where and as it was. */
  function WithContent(notebooks: seq<Notebook>, notebookId: string, content: string, now: int): (r: seq<Notebook>)
    ensures |r| == |notebooks|
    ensures forall i :: 0 <= i < |r| ==>
      && r[i].id == notebooks[i].id && r[i].name == notebooks[i].name && r[i].color == notebooks[i].color
      && r[i].content == (if notebooks[i].id == notebookId then content else notebooks[i].content)
      && r[i].lastUpdate == (if notebooks[i].id == notebookId then now else notebooks[i].lastUpdate)
  {
    seq(|notebooks|, i requires 0 <= i < |notebooks| =>
      if notebooks[i].id == notebookId then notebooks[i].(content := content, lastUpdate := now) else notebooks[i])
  }

  /** The notebook `add` creates at the end of a list of `count` notebooks. */
  function NewNotebook(notebookId: string, name: string, count: nat, now: int): Notebook {
    Notebook(notebookId, name, "", now, NotebookColor(count))
  }

  /** The notebooks other than `notebookId`, in their original order. */
  function Without(notebooks: seq<Notebook>, notebookId: string): (r: seq<Notebook>)
    ensures |r| <= |notebooks|
    ensures forall nb :: nb in r <==> nb in notebooks && nb.id != notebookId
    ensures !HasNotebook(notebooks, notebookId) ==> r == notebooks
    ensures HasNotebook(notebooks, notebookId) ==> |r| < |notebooks|
    ensures |notebooks| == 1 ==> r == if notebooks[0].id == notebookId then [] else notebooks
  {
    if notebooks == [] then []
    else if notebooks[0].id == notebookId then Without(notebooks[1..], notebookId)
    else
      assert HasNotebook(notebooks, notebookId) ==> HasNotebook(notebooks[1..], notebookId);
      [notebooks[0]] + Without(notebooks[1..], notebookId)
  }

  /** Deleting from a concatenation deletes from each part and keeps the parts in order, so
      the notebooks left keep their relative order. */
  lemma {:induction false} WithoutConcat(a: seq<Notebook>, b: seq<Notebook>, notebookId: string)
    ensures Without(a + b, notebookId) == Without(a, notebookId) + Without(b, notebookId)
  {
    if a == [] {
      assert a + b == b;
    } else {
      assert (a + b)[0] == a[0] && (a + b)[1..] == a[1..] + b;
      WithoutConcat(a[1..], b, notebookId);
    }
  }

  // ----- room documents -----

  /** A room is expired once its expiry instant lies strictly in the past: for a room that
      keeps its creation expiry, once more than 24 hours have passed since it was created. */
  predicate Expired(room: RoomData, now: int): (b: bool)
    ensures room.expiresAt == room.createdAt + RoomTtl ==> (b <==> now - room.createdAt > 24 * 60 * 60 * 1000)
  {
    room.expiresAt < now
  }

  /** The document a fresh room is inserted with. */
  function InitialRoom(roomId: string, username: string, userId: string, now: int): (r: RoomData)
    ensures WellFormed(roomId, r) && !Expired(r, now)
    ensures r.users == [UserPresence(userId, username, now)]
    ensures r.notebooks == [Notebook("main", "Main Notebook", "", now, "border-blue-300")]
  {
    RoomData(roomId, now, now, now + RoomTtl,
      [Notebook("main", "Main Notebook", "", now, NotebookColor(0))],
      [UserPresence(userId, username, now)])
  }

  /** The room as a fetch returns it: inactive users hidden, missing colours filled. */
  function Fetched(room: RoomData, now: int): (r: RoomData)
    ensures r.id == room.id && r.createdAt == room.createdAt && r.lastActive == room.lastActive
    ensures r.expiresAt == room.expiresAt
    ensures r.users == ActiveUsers(room.users, now) && r.notebooks == WithColors(room.notebooks)
  {
    room.(users := ActiveUsers(room.users, now), notebooks := WithColors(room.notebooks))
  }

  /** The answer of getRoomFromDb for `roomId` at `now`. */
  function Lookup(rooms: map<string, RoomData>, roomId: string, now: int): (r: Result<RoomData, DbError>)
    ensures r == Err(RoomNotFound) <==> roomId !in rooms
    ensures r == Err(RoomExpired) <==> roomId in rooms && Expired(rooms[roomId], now)
    ensures r.Ok? ==> roomId in rooms && r.value == Fetched(rooms[roomId], now)
  {
    if roomId !in rooms then Err(RoomNotFound)
    else if Expired(rooms[roomId], now) then Err(RoomExpired)
    else Ok(Fetched(rooms[roomId], now))
  }

  /** The table after getRoomFromDb: an expired room is deleted, anything else is left alone. */
  function AfterLookup(rooms: map<string, RoomData>, roomId: string, now: int): (r: map<string, RoomData>)
    ensures roomId in rooms && Expired(rooms[roomId], now) ==> r == rooms - {roomId}
    ensures !(roomId in rooms && Expired(rooms[roomId], now)) ==> r == rooms
  {
    if roomId in rooms && Expired(rooms[roomId], now) then rooms - {roomId} else rooms
  }

  /** The table after a mutation that produced `r`: written back only on success. */
  function Saved(rooms: map<string, RoomData>, roomId: string, r: Result<RoomData, DbError>): map<string, RoomData> {
    if r.Ok? then rooms[roomId := r.value] else rooms
  }

  /** The document updateRoomContentInDb writes for the live stored `room`. */
  function Published(room: RoomData, notebookId: string, content: string, userId: string, username: string, now: int)
    : (r: Result<RoomData, DbError>)
    ensures r.Err? <==> !HasNotebook(room.notebooks, notebookId)
    ensures r.Err? ==> r.error == NotebookNotFound
    ensures r.Ok? ==>
      && r.value == room.(notebooks := r.value.notebooks, users := r.value.users, lastActive := now)
      && r.value.notebooks == WithContent(WithColors(room.notebooks), notebookId, content, now)
      && r.value.users == Touched(ActiveUsers(room.users, now), userId, username, now)
  {
    var f := Fetched(room, now);
    var updated := WithContent(f.notebooks, notebookId, content, now);
    if !HasNotebook(updated, notebookId) then
      Err(NotebookNotFound)
    else
      assert HasNotebook(room.notebooks, notebookId) by {
        var i :| 0 <= i < |updated| && updated[i].id == notebookId;
        assert room.notebooks[i].id == notebookId;
      }
      Ok(room.(notebooks := updated, lastActive := now, users := Touched(f.users, userId, username, now)))
  }

  /** The document addNotebookToRoomInDb writes for the live stored `room`. */
  function NotebookAdded(room: RoomData, notebookId: string, name: string, userId: string, username: string, now: int)
    : (r: RoomData)
    ensures r == room.(notebooks := r.notebooks, users := r.users, lastActive := now)
    ensures r.notebooks == WithColors(room.notebooks) + [NewNotebook(notebookId, name, |room.notebooks|, now)]
    ensures r.users == Touched(ActiveUsers(room.users, now), userId, username, now)
  {
    var f := Fetched(room, now);
    room.(notebooks := f.notebooks + [NewNotebook(notebookId, name, |f.notebooks|, now)],
          lastActive := now,
          users := Touched(f.users, userId, username, now))
  }

  /** The document deleteNotebookFromRoomInDb writes for the live stored `room`, unless the
      room would be left without notebooks. */
  function NotebookDeleted(room: RoomData, notebookId: string, userId: string, username: string, now: int)
    : (r: Result<RoomData, DbError>)
    ensures r.Err? <==> Without(WithColors(room.notebooks), notebookId) == []
    ensures r.Err? ==> r.error == LastNotebook
    ensures r.Ok? ==>
      && r.value == room.(notebooks := r.value.notebooks, users := r.value.users, lastActive := now)
      && r.value.notebooks == Without(WithColors(room.notebooks), notebookId)
      && r.value.users == Touched(ActiveUsers(room.users, now), userId, username, now)
  {
    var f := Fetched(room, now);
    var updated := Without(f.notebooks, notebookId);
    if |updated| == 0 then Err(LastNotebook)
    else Ok(room.(notebooks := updated, lastActive := now, users := Touched(f.users, userId, username, now)))
  }

  /** The document updateUserPresenceInDb leaves for the live stored `room`: only the users and
      the activity time are written, so the stored notebooks stay exactly as they were. */
  function PresenceUpdated(room: RoomData, userId: string, username: string, now: int): (r: RoomData)
    ensures r.notebooks == room.notebooks
    ensures r == room.(users := r.users, lastActive := now)
    ensures r.users == Touched(ActiveUsers(room.users, now), userId, username, now)
  {
    room.(users := Touched(Fetched(room, now).users, userId, username, now), lastActive := now)
  }

  /** What the table keeps true of every row. */
  predicate WellFormed(roomId: string, room: RoomData) {
    && room.id == roomId
    && |room.notebooks| >= 1
    && room.expiresAt == room.createdAt + RoomTtl
    && UniqueUserIds(room.users)
  }

  /** Filtering keeps user ids unique. */
  lemma {:induction false} ActiveUsersUnique(users: seq<UserPresence>, now: int)
    requires UniqueUserIds(users)
    ensures UniqueUserIds(ActiveUsers(users, now))
  {
    if users != [] {
      ActiveUsersUnique(users[1..], now);
      var tail := ActiveUsers(users[1..], now);
      if IsActive(users[0], now) {
        forall j | 0 <= j < |tail| ensures users[0].id != tail[j].id {
          assert tail[j] in users[1..];
          var k :| 0 <= k < |users[1..]| && users[1..][k] == tail[j];
          assert users[k + 1] == tail[j];
        }
        var r := [users[0]] + tail;
        forall i, j | 0 <= i < j < |r| ensures r[i].id != r[j].id {
          if i > 0 { assert r[i] == tail[i - 1] && r[j] == tail[j - 1]; }
          else { assert r[j] == tail[j - 1]; }
        }
      }
    }
  }

  /** The upsert keeps user ids unique. */
  lemma UpsertedUnique(users: seq<UserPresence>, userId: string, username: string, now: int)
    requires UniqueUserIds(users)
    ensures UniqueUserIds(Upserted(users, userId, username, now))
  {
    var r := Upserted(users, userId, username, now);
    forall i, j | 0 <= i < j < |r| ensures r[i].id != r[j].id {
      if j == |users| {
        assert !HasUser(users, userId);
        assert users[i].id != userId;
      }
    }
  }

  /** The shared presence step keeps user ids unique. */
  lemma TouchedUnique(users: seq<UserPresence>, userId: string, username: string, now: int)
    requires UniqueUserIds(users)
    ensures UniqueUserIds(Touched(users, userId, username, now))
  {
    UpsertedUnique(users, userId, username, now);
    ActiveUsersUnique(Upserted(users, userId, username, now), now);
  }

  /** The `rooms` table. */
  class RoomStore {
    var rooms: map<string, RoomData>

    ghost predicate Valid()
      reads this
    {
      forall roomId :: roomId in rooms ==> WellFormed(roomId, rooms[roomId])
    }

    constructor ()
      ensures Valid() && rooms == map[]
    {
      rooms := map[];
    }

    /** createRoomInDb: draws[0] is tried first and every collision draws the next id; after
        MaxAttempts collisions the creation fails. `draws` are the ids generateShortId(4) yields,
        `attempts` the number of collisions seen. */
    method CreateRoom(username: string, userId: string, now: int, draws: seq<string>)
      returns (r: Result<string, DbError>, attempts: nat)
      requires Valid()
      requires |draws| == MaxAttempts + 1
      requires forall i :: 0 <= i < |draws| ==> InMemoryStore.IsShortId(draws[i], RoomIdLength)
      modifies this
      ensures Valid()
      ensures attempts <= MaxAttempts
      ensures forall j :: 0 <= j < attempts ==> draws[j] in old(rooms)
      ensures r.Err? <==> attempts == MaxAttempts
      ensures r.Err? ==> r.error == IdExhausted && rooms == old(rooms)
      ensures r.Ok? ==> r.value == draws[attempts] && r.value !in old(rooms)
      ensures r.Ok? ==> InMemoryStore.IsShortId(r.value, RoomIdLength)
      ensures r.Ok? ==> rooms == old(rooms)[r.value := InitialRoom(r.value, username, userId, now)]
    {
      var roomId := draws[0];
      var roomExists := true;
      attempts := 0;
      while roomExists && attempts < MaxAttempts
        invariant attempts <= MaxAttempts && roomId == draws[attempts]
        invariant forall j :: 0 <= j < attempts ==> draws[j] in rooms
        invariant !roomExists ==> roomId !in rooms
        invariant rooms == old(rooms)
      {
        roomExists := roomId in rooms;
        if roomExists {
          roomId := draws[attempts + 1];
          attempts := attempts + 1;
        }
      }
      if attempts >= MaxAttempts {
        return Err(IdExhausted), attempts;
      }
      rooms := rooms[roomId := InitialRoom(roomId, username, userId, now)];
      r := Ok(roomId);
    }

    /** getRoomFromDb: reaps an expired room; otherwise returns it with inactive users hidden
        and colours filled, writing nothing. */
    method GetRoom(roomId: string, now: int) returns (r: Result<RoomData, DbError>)
      requires Valid()
      modifies this
      ensures Valid()
      ensures r == Lookup(old(rooms), roomId, now)
      ensures rooms == AfterLookup(old(rooms), roomId, now)
    {
      if roomId !in rooms {
        return Err(RoomNotFound);
      }
      var room := rooms[roomId];
      if room.expiresAt < now {
        rooms := rooms - {roomId};
        return Err(RoomExpired);
      }
      room := room.(users := ActiveUsers(room.users, now));
      room := room.(notebooks := WithColors(room.notebooks));
      r := Ok(room);
    }

    /** updateRoomContentInDb. */
    method UpdateRoomContent(roomId: string, notebookId: string, newContent: string, userId: string, username: string, now: int)
      returns (r: Result<RoomData, DbError>)
      requires Valid()
      modifies this
      ensures Valid()
      ensures Lookup(old(rooms), roomId, now).Err? ==>
        r == Lookup(old(rooms), roomId, now) && rooms == AfterLookup(old(rooms), roomId, now)
      ensures Lookup(old(rooms), roomId, now).Ok? ==>
        && r == Published(old(rooms)[roomId], notebookId, newContent, userId, username, now)
        && rooms == Saved(old(rooms), roomId, r)
    {
      var got := GetRoom(roomId, now);
      if got.Err? {
        return got;
      }
      var room := got.value;
      var updatedNotebooks := WithContent(room.notebooks, notebookId, newContent, now);
      if !HasNotebook(updatedNotebooks, notebookId) {
        return Err(NotebookNotFound);
      }
      var updatedUsers := UpsertPresence(room.users, userId, username, now);
      var activeUsers := ActiveUsers(updatedUsers, now);
      ActiveUsersUnique(rooms[roomId].users, now);
      TouchedUnique(room.users, userId, username, now);
      var stored := rooms[roomId].(notebooks := updatedNotebooks, lastActive := now, users := activeUsers);
      rooms := rooms[roomId := stored];
      r := Ok(stored);
    }

    /** addNotebookToRoomInDb; `notebookId` is the id generateShortId(8) yields. */
    method AddNotebook(roomId: string, notebookId: string, notebookName: string, userId: string, username: string, now: int)
      returns (r: Result<RoomData, DbError>)
      requires Valid()
      requires InMemoryStore.IsShortId(notebookId, NotebookIdLength)
      modifies this
      ensures Valid()
      ensures Lookup(old(rooms), roomId, now).Err? ==>
        r == Lookup(old(rooms), roomId, now) && rooms == AfterLookup(old(rooms), roomId, now)
      ensures Lookup(old(rooms), roomId, now).Ok? ==>
        && r == Ok(NotebookAdded(old(rooms)[roomId], notebookId, notebookName, userId, username, now))
        && rooms == Saved(old(rooms), roomId, r)
    {
      var got := GetRoom(roomId, now);
      if got.Err? {
        return got;
      }
      var room := got.value;
      var newNotebook := Notebook(notebookId, notebookName, "", now, NotebookColor(|room.notebooks|));
      var updatedNotebooks := room.notebooks + [newNotebook];
      var updatedUsers := UpsertPresence(room.users, userId, username, now);
      var activeUsers := ActiveUsers(updatedUsers, now);
      ActiveUsersUnique(rooms[roomId].users, now);
      TouchedUnique(room.users, userId, username, now);
      var stored := rooms[roomId].(notebooks := updatedNotebooks, lastActive := now, users := activeUsers);
      rooms := rooms[roomId := stored];
      r := Ok(stored);
    }

    /** deleteNotebookFromRoomInDb. */
    method DeleteNotebook(roomId: string, notebookId: string, userId: string, username: string, now: int)
      returns (r: Result<RoomData, DbError>)
      requires Valid()
      modifies this
      ensures Valid()
      ensures Lookup(old(rooms), roomId, now).Err? ==>
        r == Lookup(old(rooms), roomId, now) && rooms == AfterLookup(old(rooms), roomId, now)
      ensures Lookup(old(rooms), roomId, now).Ok? ==>
        && r == NotebookDeleted(old(rooms)[roomId], notebookId, userId, username, now)
        && rooms == Saved(old(rooms), roomId, r)
    {
      var got := GetRoom(roomId, now);
      if got.Err? {
        return got;
      }
      var room := got.value;
      var updatedNotebooks := Without(room.notebooks, notebookId);
      if |updatedNotebooks| == 0 {
        return Err(LastNotebook);
      }
      var updatedUsers := UpsertPresence(room.users, userId, username, now);
      var activeUsers := ActiveUsers(updatedUsers, now);
      ActiveUsersUnique(rooms[roomId].users, now);
      TouchedUnique(room.users, userId, username, now);
      var stored := rooms[roomId].(notebooks := updatedNotebooks, lastActive := now, users := activeUsers);
      rooms := rooms[roomId := stored];
      r := Ok(stored);
    }

    /** updateUserPresenceInDb: the heartbeat. */
    method UpdateUserPresence(roomId: string, userId: string, username: string, now: int)
      returns (r: Result<RoomData, DbError>)
      requires Valid()
      modifies this
      ensures Valid()
      ensures Lookup(old(rooms), roomId, now).Err? ==>
        r == Lookup(old(rooms), roomId, now) && rooms == AfterLookup(old(rooms), roomId, now)
      ensures Lookup(old(rooms), roomId, now).Ok? ==>
        && r == Ok(PresenceUpdated(old(rooms)[roomId], userId, username, now))
        && rooms == Saved(old(rooms), roomId, r)
    {
      var got := GetRoom(roomId, now);
      if got.Err? {
        return got;
      }
      var room := got.value;
      var updatedUsers := UpsertPresence(room.users, userId, username, now);
      var activeUsers := ActiveUsers(updatedUsers, now);
      ActiveUsersUnique(rooms[roomId].users, now);
      TouchedUnique(room.users, userId, username, now);
      var stored := rooms[roomId].(users := activeUsers, lastActive := now);
      rooms := rooms[roomId := stored];
      r := Ok(stored);
    }
  }
}
