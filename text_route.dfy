/** The legacy text endpoint (app/api/text/route.ts): one shared text field and a users map
    that is never pruned. */
module TextRoute {
  import opened Wrappers
  import opened InMemoryStore

  /** The JSON body of a POST; a missing `userId` is the empty string. */
  datatype PostBody = PostBody(content: Option<string>, userId: string, timestamp: Option<int>)

  /** What a handler answers; the users array is given as the map it is read from. */
  datatype Response =
    | Snapshot(content: string, timestamp: int, userCount: nat, users: map<string, ActiveUser>)
    | Acknowledged(timestamp: int, userCount: nat)
    | Failure(message: string)

  /** `users[userId]` refreshed to `now`, keeping the typing flag it had (false for a newcomer);
      a falsy id changes nothing. */
  function Refreshed(users: map<string, ActiveUser>, userId: string, now: int): (r: map<string, ActiveUser>)
    ensures userId == "" ==> r == users
    ensures userId != "" ==> r.Keys == users.Keys + {userId}
    ensures userId != "" ==> r[userId] == ActiveUser(userId, now, userId in users && users[userId].isTyping)
    ensures forall k :: k in users && k != userId ==> r[k] == users[k]
  {
    if userId == "" then users
    else users[userId := ActiveUser(userId, now, if userId in users then users[userId].isTyping else false)]
  }

  /** The module-level `globalState`, with the ids of every caller seen so far. */
  class TextState {
    var text: string
    var lastUpdate: int
    var users: map<string, ActiveUser>
    ghost var seen: set<string>

    /** The users map holds exactly one record per distinct truthy id ever seen. */
    ghost predicate Valid()
      reads this
    {
      && users.Keys == seen
      && "" !in seen
      && forall k :: k in users ==> users[k].id == k
    }

    constructor (loadedAt: int)
      ensures Valid()
      ensures text == "" && lastUpdate == loadedAt && users == map[] && seen == {}
    {
      text := "";
      lastUpdate := loadedAt;
      users := map[];
      seen := {};
    }

    /** POST: replaces the text (`content || ""`), stamps it, and refreshes the caller. */
    method Post(body: Option<PostBody>, now: int) returns (resp: Response)
      requires Valid()
      modifies this
      ensures Valid()
      ensures body.None? ==>
        resp == Failure("Failed to update text")
        && text == old(text) && lastUpdate == old(lastUpdate) && users == old(users) && seen == old(seen)
      ensures body.Some? ==>
        && text == body.value.content.GetOr("")
        && lastUpdate == NumberOr(body.value.timestamp, now)
        && users == Refreshed(old(users), body.value.userId, now)
        && seen == old(seen) + (if body.value.userId == "" then {} else {body.value.userId})
        && resp == Acknowledged(lastUpdate, |seen|)
    {
      if body.None? {
        return Failure("Failed to update text");
      }
      var b := body.value;
      text := b.content.GetOr("");
      lastUpdate := NumberOr(b.timestamp, now);
      if b.userId != "" {
        var typing := if b.userId in users then users[b.userId].isTyping else false;
        users := users[b.userId := ActiveUser(b.userId, now, typing)];
        seen := seen + {b.userId};
      }
      resp := Acknowledged(lastUpdate, |users|);
    }

    /** GET: refreshes the caller and reports the text unchanged. */
    method Get(userId: string, now: int) returns (resp: Response)
      requires Valid()
      modifies this
      ensures Valid()
      ensures text == old(text) && lastUpdate == old(lastUpdate)
      ensures users == Refreshed(old(users), userId, now)
      ensures seen == old(seen) + (if userId == "" then {} else {userId})
      ensures resp == Snapshot(old(text), old(lastUpdate), |seen|, users)
    {
      if userId != "" {
        var typing := if userId in users then users[userId].isTyping else false;
        users := users[userId := ActiveUser(userId, now, typing)];
        seen := seen + {userId};
      }
      resp := Snapshot(text, lastUpdate, |users|, users);
    }
  }
}
