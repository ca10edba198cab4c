/** The legacy single-document sync endpoint (app/api/sync/route.ts): one shared content field
    and a users map that evicts users idle for more than 30 seconds. */
module SyncRoute {
  import opened Wrappers
  import opened InMemoryStore

  /** Users idle for more than this many milliseconds are evicted. */
  const EvictAfter: int := 30000

  /** The users kept by a cleanup at `now`: idle for at most 30 seconds. */
  function Surviving(users: map<string, ActiveUser>, now: int): (r: map<string, ActiveUser>)
    ensures forall k :: k in r <==> k in users && users[k].lastSeen >= now - EvictAfter
    ensures forall k :: k in r ==> r[k] == users[k]
  {
    map k | k in users && now - users[k].lastSeen <= EvictAfter :: users[k]
  }

  /** A user idle exactly 30000 ms survives; one idle 30001 ms does not. */
  lemma SurvivingBoundary(users: map<string, ActiveUser>, now: int, k: string)
    requires k in users
    ensures now - users[k].lastSeen == EvictAfter ==> k in Surviving(users, now)
    ensures now - users[k].lastSeen == EvictAfter + 1 ==> k !in Surviving(users, now)
  {
  }

  /** A second cleanup at the same instant evicts nobody. */
  lemma SurvivingIdempotent(users: map<string, ActiveUser>, now: int)
    ensures Surviving(Surviving(users, now), now) == Surviving(users, now)
  {
  }

  /** The JSON body of a POST; a missing `userId` is the empty string and a missing `isTyping` false. */
  datatype PostBody = PostBody(content: Option<string>, userId: string, timestamp: Option<int>, isTyping: bool)

  /** What a handler answers: the GET snapshot, the POST acknowledgement, or the 500 error.
      The users array is given as the map it is read from (its order is not modelled). */
  datatype Response =
    | Snapshot(content: string, timestamp: int, userCount: nat, users: map<string, ActiveUser>)
    | Acknowledged(timestamp: int, userCount: nat, users: map<string, ActiveUser>)
    | Failure(message: string)

  /** The module-level `globalState`. */
  class SyncState {
    var content: string
    var lastUpdate: int
    var users: map<string, ActiveUser>

    /** Every user record is stored under its own id. */
    ghost predicate Valid()
      reads this
    {
      forall k :: k in users ==> users[k].id == k
    }

    /** The state at module load, `loadedAt` being the Date.now() of that moment. */
    constructor (loadedAt: int)
      ensures Valid()
      ensures content == "" && lastUpdate == loadedAt && users == map[]
    {
      content := "";
      lastUpdate := loadedAt;
      users := map[];
    }

    /** Deletes, one by one, the users idle for more than 30 seconds. */
    method CleanupUsers(now: int)
      requires Valid()
      modifies this
      ensures Valid()
      ensures users == Surviving(old(users), now)
      ensures content == old(content) && lastUpdate == old(lastUpdate)
    {
      ghost var before := users;
      var pending := users.Keys;
      while pending != {}
        invariant pending <= before.Keys
        invariant forall k :: k in users <==> k in before && (k in pending || now - before[k].lastSeen <= EvictAfter)
        invariant forall k :: k in users ==> users[k] == before[k]
        invariant content == old(content) && lastUpdate == old(lastUpdate)
        decreases |pending|
      {
        var k :| k in pending;
        if now - users[k].lastSeen > EvictAfter {
          users := users - {k};
        }
        pending := pending - {k};
      }
    }

    /** GET: refreshes the caller's last-seen time (keeping its typing flag), evicts idle
        users and reports the shared content. */
    method Get(userId: string, now: int) returns (resp: Response)
      requires Valid()
      modifies this
      ensures Valid()
      ensures content == old(content) && lastUpdate == old(lastUpdate)
      ensures users == Surviving(
        if userId == "" then old(users)
        else old(users)[userId := ActiveUser(userId, now,
          if userId in old(users) then old(users)[userId].isTyping else false)], now)
      ensures userId != "" ==> userId in users && users[userId].lastSeen == now
      ensures resp == Snapshot(content, lastUpdate, |users|, users)
    {
      if userId != "" {
        var typing := if userId in users then users[userId].isTyping else false;
        users := users[userId := ActiveUser(userId, now, typing)];
      }
      CleanupUsers(now);
      resp := Snapshot(content, lastUpdate, |users|, users);
    }

    /** POST: publishes `content` when the body carries it, records the caller's activity and
        typing flag, then evicts idle users. A body that is not JSON changes nothing. */
    method Post(body: Option<PostBody>, now: int) returns (resp: Response)
      requires Valid()
      modifies this
      ensures Valid()
      ensures body.None? ==>
        resp == Failure("Failed to update content")
        && content == old(content) && lastUpdate == old(lastUpdate) && users == old(users)
      ensures body.Some? && body.value.content.None? ==>
        content == old(content) && lastUpdate == old(lastUpdate)
      ensures body.Some? && body.value.content.Some? ==>
        content == body.value.content.value && lastUpdate == NumberOr(body.value.timestamp, now)
      ensures body.Some? ==> users == Surviving(
        if body.value.userId == "" then old(users)
        else old(users)[body.value.userId := ActiveUser(body.value.userId, now, body.value.isTyping)], now)
      ensures body.Some? && body.value.userId != "" ==>
        body.value.userId in users && users[body.value.userId].lastSeen == now
      ensures body.Some? ==> resp == Acknowledged(lastUpdate, |users|, users)
    {
      if body.None? {
        return Failure("Failed to update content");
      }
      var b := body.value;
      if b.content.Some? {
        content := b.content.value;
        lastUpdate := NumberOr(b.timestamp, now);
      }
      if b.userId != "" {
        users := users[b.userId := ActiveUser(b.userId, now, b.isTyping)];
      }
      CleanupUsers(now);
      resp := Acknowledged(lastUpdate, |users|, users);
    }
  }
}
