/** Properties of the room layer that relate several operations of lib/db.ts. */
module RoomDbProperties {
  import opened Wrappers
  import opened Colors
  import opened RoomDb

  /** A room fetched any time before it expires holds the single empty "main" notebook in the
      first palette colour, and still expires 24 hours after creation. */
  lemma CreateThenFetch(rooms: map<string, RoomData>, roomId: string, username: string, userId: string, now: int, later: int)
    requires now <= later <= now + RoomTtl
    ensures var r := Lookup(rooms[roomId := InitialRoom(roomId, username, userId, now)], roomId, later);
      && r.Ok?
      && r.value.notebooks == [Notebook("main", "Main Notebook", "", now, "border-blue-300")]
      && r.value.expiresAt == r.value.createdAt + RoomTtl
      && r.value.users == (if later - now < UserInactivityTimeout then [UserPresence(userId, username, now)] else [])
  {
    var room := InitialRoom(roomId, username, userId, now);
    ColorOfSmallIndex(0);
    assert ActiveUsers(room.users[1..], later) == [];
  }

  /** Fetching an expired room reports it expired and deletes it, so every later fetch of the
      same id reports it missing. */
  lemma ExpiredRoomIsReaped(rooms: map<string, RoomData>, roomId: string, now: int, later: int)
    requires roomId in rooms && Expired(rooms[roomId], now)
    ensures Lookup(rooms, roomId, now) == Err(RoomExpired)
    ensures ErrorText(Lookup(rooms, roomId, now).error) == "Room expired."
    ensures Lookup(AfterLookup(rooms, roomId, now), roomId, later) == Err(RoomNotFound)
    ensures ErrorText(Lookup(AfterLookup(rooms, roomId, now), roomId, later).error) == "Room not found."
  {
  }

  /** Every entry the shared presence step leaves for the acting user is the fresh one, and
      the fresh entry is always there. */
  lemma {:induction false} TouchedActingUser(users: seq<UserPresence>, userId: string, username: string, now: int)
    ensures UserPresence(userId, username, now) in Touched(users, userId, username, now)
    ensures forall u :: u in Touched(users, userId, username, now) && u.id == userId ==>
      u == UserPresence(userId, username, now)
  {
    var up := Upserted(users, userId, username, now);
    var entry := UserPresence(userId, username, now);
    if HasUser(users, userId) {
      var i :| 0 <= i < |users| && users[i].id == userId;
      assert up[i] == entry;
    } else {
      assert up[|users|] == entry;
    }
    assert entry in up;
    forall u | u in up && u.id == userId ensures u == entry {
      var k :| 0 <= k < |up| && up[k] == u;
    }
  }

  /** Two heartbeats in a row leave exactly one entry for the user, stamped with the second
      call's time. */
  lemma HeartbeatTwice(room: RoomData, userId: string, username: string, t1: int, t2: int)
    requires UniqueUserIds(room.users)
    ensures var r := PresenceUpdated(PresenceUpdated(room, userId, username, t1), userId, username, t2);
      && UniqueUserIds(r.users)
      && UserPresence(userId, username, t2) in r.users
      && (forall u :: u in r.users && u.id == userId ==> u == UserPresence(userId, username, t2))
      && r.notebooks == room.notebooks
  {
    var r1 := PresenceUpdated(room, userId, username, t1);
    ActiveUsersUnique(room.users, t1);
    TouchedUnique(ActiveUsers(room.users, t1), userId, username, t1);
    ActiveUsersUnique(r1.users, t2);
    TouchedUnique(ActiveUsers(r1.users, t2), userId, username, t2);
    TouchedActingUser(ActiveUsers(r1.users, t2), userId, username, t2);
  }

  /** A publish that succeeded is seen by the next fetch before expiry: every notebook with the
      published id carries the new content. */
  lemma PublishThenFetch(rooms: map<string, RoomData>, roomId: string, notebookId: string, content: string,
                         userId: string, username: string, now: int, later: int)
    requires roomId in rooms && !Expired(rooms[roomId], later)
    requires HasNotebook(rooms[roomId].notebooks, notebookId)
    ensures var r := Published(rooms[roomId], notebookId, content, userId, username, now);
      && r.Ok?
      && var f := Lookup(Saved(rooms, roomId, r), roomId, later);
      && f.Ok?
      && HasNotebook(f.value.notebooks, notebookId)
      && forall nb :: nb in f.value.notebooks && nb.id == notebookId ==> nb.content == content
  {
    var r := Published(rooms[roomId], notebookId, content, userId, username, now);
    var f := Lookup(Saved(rooms, roomId, r), roomId, later);
    var written := r.value.notebooks;
    assert f.value.notebooks == WithColors(written);
    var i :| 0 <= i < |rooms[roomId].notebooks| && rooms[roomId].notebooks[i].id == notebookId;
    assert f.value.notebooks[i].id == notebookId;
    forall nb | nb in f.value.notebooks && nb.id == notebookId ensures nb.content == content {
      var k :| 0 <= k < |f.value.notebooks| && f.value.notebooks[k] == nb;
      assert written[k].content == content;
    }
  }

  /** A colour once filled in is kept by every later fetch. */
  lemma {:induction false} WithColorsIdempotent(notebooks: seq<Notebook>)
    ensures WithColors(WithColors(notebooks)) == WithColors(notebooks)
  {
    var once := WithColors(notebooks);
    var twice := WithColors(once);
    forall i | 0 <= i < |once| ensures twice[i] == once[i] {
      assert once[i].color != "";
    }
  }

  /** Adding a notebook appends exactly one notebook with empty content and the colour of its
      position; the notebooks before it keep their place, id, name and content. Names are
      not checked for uniqueness. */
  lemma AddAppendsOne(room: RoomData, notebookId: string, name: string, userId: string, username: string, now: int)
    ensures var r := NotebookAdded(room, notebookId, name, userId, username, now);
      && |r.notebooks| == |room.notebooks| + 1
      && r.notebooks[|room.notebooks|] == Notebook(notebookId, name, "", now, NotebookColor(|room.notebooks|))
      && forall i :: 0 <= i < |room.notebooks| ==>
           r.notebooks[i].id == room.notebooks[i].id && r.notebooks[i].name == room.notebooks[i].name
           && r.notebooks[i].content == room.notebooks[i].content
  {
  }

  /** A list whose colours are all present is returned by a fetch exactly as stored. */
  lemma WithColorsFilled(notebooks: seq<Notebook>)
    requires AllColored(notebooks)
    ensures WithColors(notebooks) == notebooks
  {
  }

  /** Every notebook in the list has its colour. */
  predicate AllColored(notebooks: seq<Notebook>)
  {
    forall i :: 0 <= i < |notebooks| ==> notebooks[i].color != ""
  }

  /** The stored notebook list after the adds `added` (id, name, request time) are made one
      after another: each step is the list NotebookAdded writes, the fetched list plus one new
      notebook. */
  function AddedInTurn(notebooks: seq<Notebook>, added: seq<(string, string, int)>): seq<Notebook>
    decreases |added|
  {
    if added == [] then notebooks
    else AddedInTurn(WithColors(notebooks) + [NewNotebook(added[0].0, added[0].1, |notebooks|, added[0].2)], added[1..])
  }

  /** The notebooks the adds `added` (id, name, request time) create at positions `start`,
      `start` + 1, ... */
  function NewNotebooks(added: seq<(string, string, int)>, start: nat): (r: seq<Notebook>)
    ensures |r| == |added|
  {
    seq(|added|, j requires 0 <= j < |added| => NewNotebook(added[j].0, added[j].1, start + j, added[j].2))
  }

  /** Adding to a list whose colours are all present appends the new notebook and changes
      nothing else. */
  lemma AddToFilled(room: RoomData, notebookId: string, name: string, userId: string, username: string, now: int)
    requires AllColored(room.notebooks)
    ensures NotebookAdded(room, notebookId, name, userId, username, now).notebooks
      == room.notebooks + [NewNotebook(notebookId, name, |room.notebooks|, now)]
  {
    WithColorsFilled(room.notebooks);
  }

  /** The notebooks created by adds are the first one followed by those of the later adds. */
  lemma NewNotebooksCons(added: seq<(string, string, int)>, start: nat)
    requires added != []
    ensures NewNotebooks(added, start)
      == [NewNotebook(added[0].0, added[0].1, start, added[0].2)] + NewNotebooks(added[1..], start + 1)
  {
  }

  /** Appending a single element after a concatenation. */
  lemma AppendAssociates<T>(a: seq<T>, x: T, b: seq<T>)
    ensures a + [x] + b == a + ([x] + b)
  {
  }

  /** Notebooks added by successive requests, each at its own time, take the palette colours
      of their positions, cycling at ten: to a fresh room the first added notebook is coloured
      NotebookColor(1), the second NotebookColor(2), and so on; the notebooks already there
      are not touched. */
  lemma {:induction false} AddAllColors(notebooks: seq<Notebook>, added: seq<(string, string, int)>)
    requires AllColored(notebooks)
    ensures AddedInTurn(notebooks, added) == notebooks + NewNotebooks(added, |notebooks|)
    decreases |added|
  {
    if added == [] {
      assert NewNotebooks(added, |notebooks|) == [];
    } else {
      var first := NewNotebook(added[0].0, added[0].1, |notebooks|, added[0].2);
      WithColorsFilled(notebooks);
      assert AllColored(notebooks + [first]);
      AddAllColors(notebooks + [first], added[1..]);
      NewNotebooksCons(added, |notebooks|);
      AppendAssociates(notebooks, first, NewNotebooks(added[1..], |notebooks| + 1));
    }
  }

  /** Deleting the only notebook is refused and nothing is written. */
  lemma DeleteLastNotebookRefused(rooms: map<string, RoomData>, roomId: string, userId: string, username: string, now: int)
    requires roomId in rooms && |rooms[roomId].notebooks| == 1
    ensures var r := NotebookDeleted(rooms[roomId], rooms[roomId].notebooks[0].id, userId, username, now);
      r == Err(LastNotebook) && ErrorText(r.error) == "Cannot delete the last notebook in a room."
      && Saved(rooms, roomId, r) == rooms
  {
    var nbs := WithColors(rooms[roomId].notebooks);
    assert Without(nbs, nbs[0].id) == Without(nbs[1..], nbs[0].id);
  }

  /** Deleting an id no notebook has keeps the notebook list (colours filled) but still
      records the caller's presence and the activity time. */
  lemma DeleteUnknownNotebook(room: RoomData, notebookId: string, userId: string, username: string, now: int)
    requires |room.notebooks| >= 1 && !HasNotebook(room.notebooks, notebookId)
    ensures var r := NotebookDeleted(room, notebookId, userId, username, now);
      && r.Ok?
      && r.value.notebooks == WithColors(room.notebooks)
      && r.value.lastActive == now
      && UserPresence(userId, username, now) in r.value.users
  {
    var nbs := WithColors(room.notebooks);
    TouchedActingUser(ActiveUsers(room.users, now), userId, username, now);
  }

  /** Publishing to a notebook of a list whose colours are all present succeeds, writes the
      content into that list as stored, and keeps the expiry. */
  lemma PublishToFilled(room: RoomData, notebookId: string, content: string, userId: string, username: string, now: int)
    requires AllColored(room.notebooks) && HasNotebook(room.notebooks, notebookId)
    ensures var r := Published(room, notebookId, content, userId, username, now);
      && r.Ok?
      && r.value.notebooks == WithContent(room.notebooks, notebookId, content, now)
      && r.value.expiresAt == room.expiresAt
  {
    WithColorsFilled(room.notebooks);
  }

  /** Deleting from a list whose colours are all present, when something would be left,
      succeeds, writes the list as stored minus the deleted id, and keeps the expiry. */
  lemma DeleteFromFilled(room: RoomData, notebookId: string, userId: string, username: string, now: int)
    requires AllColored(room.notebooks) && Without(room.notebooks, notebookId) != []
    ensures var r := NotebookDeleted(room, notebookId, userId, username, now);
      && r.Ok?
      && r.value.notebooks == Without(room.notebooks, notebookId)
      && r.value.expiresAt == room.expiresAt
  {
    WithColorsFilled(room.notebooks);
  }
}
