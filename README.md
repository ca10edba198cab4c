# Copy-ME shared notebooks, modelled in Dafny

Copy-ME lets people share text through short-lived rooms. A room has a four-character id and
lives 24 hours. It holds an ordered list of notebooks. Each notebook takes a border colour from a
ten-colour palette, chosen by its position. The room also keeps a presence list of the users seen
in the last minute. Every request that changes a room does the same four things:

1. read the room document;
2. transform it;
3. refresh the caller's presence and drop idle users;
4. write it back.

This project models that reconciliation layer and the small libraries around it:

- the palette;
- the process-local room table;
- the short-id generator;
- the error classifier and the input validators;
- the retry loop;
- the editor's bounded undo/redo history;
- the two legacy single-document endpoints, `sync` and `text`.

Each source file is one module:

| module | file | models |
|---|---|---|
| `Wrappers` | wrappers.dfy | `Option`, `Result`, and JavaScript's `x \|\| fallback` on a possibly missing number |
| `Colors` | colors.dfy | lib/colors.ts |
| `InMemoryStore` | in_memory_store.dfy | lib/in-memory-store.ts: the room table (a class), the id generator and the presence filter (loops) |
| `ErrorHandling` | error_handling.dfy | lib/error-handling.ts |
| `TextHistory` | text_history.dfy | hooks/use-text-history.ts: the hook's state as a class |
| `SyncRoute` | sync_route.dfy | app/api/sync/route.ts: the module-level state as a class |
| `TextRoute` | text_route.dfy | app/api/text/route.ts: the module-level state as a class |
| `RoomDb` | room_db.dfy | lib/db.ts: the `rooms` table as a class, plus one function per document transformation |
| `RoomDbProperties` | room_db_properties.dfy | properties that relate several lib/db.ts operations |

Some modelling conventions apply throughout:

- Clocks, `Math.random()` and the ids it produces are parameters. Each request gets one `now`.
- The Supabase `rooms` table is a `map` from room id to room document.
- JavaScript falsiness is explicit. A missing or empty `userId` is `""`. A missing `timestamp`
  is `None`, and `0` is falsy as well.

Behaviours of the code worth noting:

- A room counts as expired only when `expires_at < now`, strictly.
- The first fetch of an expired room reports "Room expired." and deletes the room. Later fetches
  report "Room not found.".
- Adding a notebook does not check that its name is unique.
- No operation moves `expires_at` forward.
- The validators' length limits count UTF-16 code units, as JavaScript's `length` does, so an
  emoji counts as two.

## Model

| member | source | states |
|---|---|---|
| Colors.NotebookColor | lib/colors.ts:15-17 | the colour at any position is a non-empty palette entry |
| Colors.PaletteDistinct | lib/colors.ts:2-13 | the palette has ten entries, all different |
| Colors.ColorOfSmallIndex | lib/colors.ts:2-17 | positions 0-9 read the palette directly; position 0 is "border-blue-300" |
| Colors.ColorPeriodic | lib/colors.ts:15-17 | the colour of position i + 10 equals the colour of position i |
| Colors.ConsecutiveColorsDistinct | lib/colors.ts:2-17 | any ten consecutive positions get ten different colours |
| InMemoryStore.RoomTable.constructor | lib/in-memory-store.ts:15 | the table starts empty |
| InMemoryStore.RoomTable.GetRoom | lib/in-memory-store.ts:17-19 | returns a room exactly when one is stored under the id, and returns that room |
| InMemoryStore.RoomTable.SetRoom | lib/in-memory-store.ts:21-23 | afterwards the id maps to the new room; every other id reads as before |
| InMemoryStore.RoomTable.RoomExists | lib/in-memory-store.ts:25-27 | true exactly when GetRoom finds a room |
| InMemoryStore.Pick | lib/in-memory-store.ts:33 | floor(r * 62) is a valid alphabet position for every draw r in [0, 1) |
| InMemoryStore.ActiveUsers | lib/in-memory-store.ts:39-50 | a user is in the result exactly when last seen less than 30000 ms before now, and keeps its record |
| InMemoryStore.GenerateShortId | lib/in-memory-store.ts:29-36 | the id has the requested length (8 when none is given) and only alphanumeric characters; character i is the one picked by draw i |
| InMemoryStore.CleanupUsers | lib/in-memory-store.ts:39-50 | returns exactly the users idle for less than 30 s, with their records unchanged |
| InMemoryStore.CleanupIdempotent | lib/in-memory-store.ts:39-50 | a second cleanup at the same instant removes nobody |
| InMemoryStore.CleanupBoundary | lib/in-memory-store.ts:41-45 | a user is kept exactly when last seen less than 30000 ms ago, and is kept unchanged |
| ErrorHandling.ParseCode | lib/error-handling.ts:14-45 | a recognised code string is the string value of the member it returns |
| ErrorHandling.ParseCodeName | lib/error-handling.ts:14-45 | every member's string value is recognised as that member, so the enumeration round-trips |
| ErrorHandling.CodeNameInjective | lib/error-handling.ts:14-45 | different enumeration members have different string values |
| ErrorHandling.ErrorMessagesTotal | lib/error-handling.ts:68-92 | ERROR_MESSAGES has a non-empty (truthy) text for every code |
| ErrorHandling.Message | lib/error-handling.ts:68-92 | every code's user-facing text is non-empty |
| ErrorHandling.GetErrorMessage | lib/error-handling.ts:97-111 | a string is shown as it is; an error with a known code shows that code's text; any other error shows its own message |
| ErrorHandling.HandleApiError | lib/error-handling.ts:116-180 | NETWORK_ERROR with status 0 exactly for a TypeError mentioning "fetch"; otherwise a non-zero status is preserved and a missing one becomes 500; SUPABASE_ERROR exactly for a status-less error whose code starts with "PGRST"; any other status-less error is UNKNOWN_ERROR/500 with `message \|\| ERROR_MESSAGES.UNKNOWN_ERROR`; every UNKNOWN_ERROR carries that message and every other code carries its ERROR_MESSAGES text; the code is always one of six |
| ErrorHandling.HandleApiErrorByStatus | lib/error-handling.ts:130-161 | statuses 404, 429 and 500 map to ROOM_NOT_FOUND, RATE_LIMIT_EXCEEDED and SERVER_ERROR; any other status maps to UNKNOWN_ERROR |
| ErrorHandling.ClassifiedErrorShowsGenericMessage | lib/error-handling.ts:97-180 | showing a classified error always gives the generic text for its code, never the raw message |
| ErrorHandling.TrimStart | lib/error-handling.ts:187 | the result is a suffix of the input; everything cut off is white space and the result does not start with white space |
| ErrorHandling.TrimEnd | lib/error-handling.ts:187 | the result is a prefix of the input; everything cut off is white space and the result does not end with white space |
| ErrorHandling.Trim | lib/error-handling.ts:187 | the result is a slice of the input with only white space outside it, and it neither starts nor ends with white space |
| ErrorHandling.TrimStable | lib/error-handling.ts:187 | a string with no white space at either end is its own trim |
| ErrorHandling.TrimIdempotent | lib/error-handling.ts:187 | trimming twice equals trimming once |
| ErrorHandling.Utf16Length | lib/error-handling.ts:187 | JavaScript's `length`: between one and two units per character; one per character without astral characters, two per character when all are astral |
| ErrorHandling.ValidateUsername | lib/error-handling.ts:186-195 | no error exactly when the trimmed name is 2 to 20 UTF-16 units long; otherwise INVALID_USERNAME with status 400 |
| ErrorHandling.ValidateRoomId | lib/error-handling.ts:197-206 | an error exactly when the id is blank: "Room ID is required", VALIDATION_ERROR, 400 |
| ErrorHandling.ValidateNotebookName | lib/error-handling.ts:208-224 | blank gives MISSING_REQUIRED_FIELD (checked first); a trimmed name over 50 UTF-16 units gives VALIDATION_ERROR; no error exactly for a non-blank name of at most 50 units |
| ErrorHandling.ValidatorsIgnoreSurroundingSpace | lib/error-handling.ts:185-225 | every validator gives the same verdict on a string and on its trim |
| ErrorHandling.AstralUsernameAccepted | lib/error-handling.ts:186-195 | a username of a single astral character (an emoji) passes, being two UTF-16 units long |
| ErrorHandling.AstralNotebookNameTooLong | lib/error-handling.ts:215-221 | a notebook name of 26 to 50 astral characters is over the 50-unit limit |
| ErrorHandling.StopsRetry | lib/error-handling.ts:246-249 | retrying stops early only on client-error statuses (404 and 400) |
| ErrorHandling.RetryOperation | lib/error-handling.ts:230-258 | see the note after this table |
| Wrappers.NumberOr | app/api/sync/route.ts:56 | `timestamp \|\| Date.now()`: the value when present and non-zero, else the fallback |
| TextHistory.Pushed | hooks/use-text-history.ts:44-53 | the new entry is last; the entries before it are the tail of history[..index+1]; the length is index + 2, capped at 100 by dropping the oldest entry |
| TextHistory.PushedThenUndo | hooks/use-text-history.ts:44-63 | after a push the previous current text sits just before the new entry, even when the oldest entry was dropped, so one undo returns to it |
| TextHistory.History.constructor | hooks/use-text-history.ts:17-20 | one-entry history holding the initial text (empty when none is given) at position 0, flag clear |
| TextHistory.History.Text | hooks/use-text-history.ts:78 | the exposed text is always an entry of the history |
| TextHistory.History.CanUndo | hooks/use-text-history.ts:82 | when true an earlier entry exists; when false the position is the first entry |
| TextHistory.History.CanRedo | hooks/use-text-history.ts:83 | when true a later entry exists; when false the position is the last entry |
| TextHistory.History.SetText | hooks/use-text-history.ts:33-56 | an armed flag is consumed and nothing else changes; an unchanged text is ignored; otherwise history becomes Pushed(...), the position moves to its end and Text() is the new text |
| TextHistory.History.Undo | hooks/use-text-history.ts:58-63 | steps back one and arms the flag when CanUndo(); otherwise changes nothing |
| TextHistory.History.Redo | hooks/use-text-history.ts:65-70 | steps forward one and arms the flag when CanRedo(); otherwise changes nothing |
| TextHistory.History.ResetHistory | hooks/use-text-history.ts:72-75 | history becomes [t] at position 0 |
| TextHistory.History.InitialTextChanged | hooks/use-text-history.ts:23-31 | afterwards Text() is the new initial text; the history is reset only if the current text differed |
| SyncRoute.Surviving | app/api/sync/route.ts:11-20 | a user survives exactly when last seen at most 30000 ms before now, and keeps its record |
| SyncRoute.SurvivingBoundary | app/api/sync/route.ts:11-20 | a user idle exactly 30000 ms survives; one idle 30001 ms is evicted |
| SyncRoute.SurvivingIdempotent | app/api/sync/route.ts:11-20 | a second cleanup at the same instant evicts nobody |
| SyncRoute.SyncState.constructor | app/api/sync/route.ts:4-8 | empty content, no users, stamped at load time |
| SyncRoute.SyncState.CleanupUsers | app/api/sync/route.ts:11-20 | the users become exactly those idle for at most 30 s; content and timestamp are untouched |
| SyncRoute.SyncState.Get | app/api/sync/route.ts:22-45 | the caller is refreshed with its typing flag kept; idle users are evicted; the caller is present with lastSeen = now; the reply is the content with the user count and users |
| SyncRoute.SyncState.Post | app/api/sync/route.ts:47-81 | content and timestamp change only when content is present; the caller is recorded with its typing flag; idle users are evicted; a bad body gives the 500 message and changes nothing |
| TextRoute.Refreshed | app/api/text/route.ts:20-27 | a truthy caller is added or refreshed with lastSeen = now, keeping its typing flag (false for a newcomer); every other user is unchanged; a falsy caller changes nothing |
| TextRoute.TextState.constructor | app/api/text/route.ts:4-8 | empty text, no users |
| TextRoute.TextState.Post | app/api/text/route.ts:10-41 | the text becomes `content \|\| ""` and the timestamp `timestamp \|\| now`; the user count is the number of distinct truthy ids ever seen (users are never pruned); a bad body gives the 500 message and changes nothing |
| TextRoute.TextState.Get | app/api/text/route.ts:43-63 | the text is unchanged; the caller is refreshed; the reply counts every distinct truthy id ever seen |
| RoomDb.ActiveUsers | lib/db.ts:141 | a user is kept exactly when active (idle for less than 60 s); the list never grows |
| RoomDb.Upserted | lib/db.ts:186-199 | entries with the caller's id are refreshed in place; other entries are unchanged; a new entry is appended only when no entry had the id |
| RoomDb.UpsertPresence | lib/db.ts:186-199 | the map-with-`userFound`-flag loop computes exactly Upserted |
| RoomDb.Touched | lib/db.ts:186-202 | after the presence step the caller is present with the fresh entry, and every entry is active and either was there before or belongs to the caller |
| RoomDb.WithColors | lib/db.ts:144-148 | same length and fields; a missing colour becomes NotebookColor(position); every colour is then present |
| RoomDb.WithContent | lib/db.ts:177-179 | notebooks with the target id get the new content and time; all others are unchanged; the order is kept |
| RoomDb.Without | lib/db.ts:291 | keeps exactly the notebooks with another id; an unknown id changes nothing; a known id shortens the list; a one-notebook list is emptied or kept |
| RoomDb.WithoutConcat | lib/db.ts:291 | deleting from a concatenation deletes from each part in order, so the notebooks left keep their relative order |
| RoomDb.Expired | lib/db.ts:134 | for a room that keeps its creation expiry, expired exactly when more than 24 hours have passed since creation |
| RoomDb.InitialRoom | lib/db.ts:74-101 | the inserted document is well formed and not yet expired, lists only the creator, and holds the single empty "main" notebook in blue |
| RoomDb.Fetched | lib/db.ts:139-148 | the room as returned: active users only, colours filled, every other field kept |
| RoomDb.Lookup | lib/db.ts:113-154 | "Room not found." exactly when absent; "Room expired." exactly when expires_at < now; otherwise the fetched room |
| RoomDb.AfterLookup | lib/db.ts:133-137 | an expired room is deleted; otherwise the table is unchanged |
| RoomDb.Published | lib/db.ts:165-221 | fails with "Notebook not found in room." exactly when no notebook has the id; otherwise writes the content into the fetched list, refreshes presence and stamps the activity time |
| RoomDb.NotebookAdded | lib/db.ts:223-278 | the fetched list plus one empty notebook coloured by the old count; presence refreshed |
| RoomDb.NotebookDeleted | lib/db.ts:280-330 | refused exactly when nothing would be left; otherwise the fetched list without the id, with presence refreshed |
| RoomDb.PresenceUpdated | lib/db.ts:332-375 | only users and activity time change; the stored notebooks stay exactly as stored |
| RoomDb.ActiveUsersUnique | lib/db.ts:141 | the inactivity filter keeps user ids unique |
| RoomDb.UpsertedUnique | lib/db.ts:186-199 | the upsert keeps user ids unique |
| RoomDb.TouchedUnique | lib/db.ts:186-202 | the upsert followed by the filter keeps user ids unique |
| RoomDb.RoomStore.constructor | lib/db.ts:40 | the table starts empty and well formed |
| RoomDb.RoomStore.CreateRoom | lib/db.ts:52-111 | the ids drawn before the winner were all taken; failure comes exactly after 10 collisions and writes nothing; success stores the initial room under a fresh 4-character id; every row stays well formed |
| RoomDb.RoomStore.GetRoom | lib/db.ts:113-163 | the result is Lookup, and the table becomes AfterLookup |
| RoomDb.RoomStore.UpdateRoomContent | lib/db.ts:165-221 | a lookup failure is passed on; otherwise the result is Published and only a success is written |
| RoomDb.RoomStore.AddNotebook | lib/db.ts:223-278 | given the 8-character id generateShortId(8) yields, a lookup failure is passed on; otherwise NotebookAdded is returned and written |
| RoomDb.RoomStore.DeleteNotebook | lib/db.ts:280-330 | a lookup failure is passed on; otherwise the result is NotebookDeleted and only a success is written |
| RoomDb.RoomStore.UpdateUserPresence | lib/db.ts:332-375 | a lookup failure is passed on; otherwise PresenceUpdated is returned and written |
| RoomDbProperties.CreateThenFetch | lib/db.ts:75-154 | until expiry a new room fetches with the single empty "main" notebook in blue, expires 24 h after creation, and lists its creator while the creator is active |
| RoomDbProperties.ExpiredRoomIsReaped | lib/db.ts:120-137 | an expired room reports "Room expired." once, and every later fetch reports "Room not found." |
| RoomDbProperties.TouchedActingUser | lib/db.ts:186-202 | after the presence step the caller has an entry, and every entry with its id is the fresh one |
| RoomDbProperties.HeartbeatTwice | lib/db.ts:332-375 | two heartbeats leave one entry for the user, stamped with the second time; ids stay unique; notebooks are untouched |
| RoomDbProperties.PublishThenFetch | lib/db.ts:165-221 | after a successful publish, a fetch before expiry shows the new content in every notebook with that id |
| RoomDbProperties.WithColorsIdempotent | lib/db.ts:144-148 | filling colours twice equals filling them once |
| RoomDbProperties.WithColorsFilled | lib/db.ts:144-148 | a list whose colours are all present is fetched exactly as stored |
| RoomDbProperties.AddAppendsOne | lib/db.ts:234-243 | an add appends exactly one empty notebook coloured NotebookColor(old count); earlier notebooks keep their place, id, name and content |
| RoomDbProperties.AddToFilled | lib/db.ts:234-243 | adding to a fully coloured list appends the new notebook and changes nothing else |
| RoomDbProperties.AddAllColors | lib/db.ts:229-243 | successive adds to a fully coloured list, each with its own request time, append notebook k at position n + k, coloured NotebookColor(n + k) and stamped with its own time, so colours cycle through the palette |
| RoomDbProperties.DeleteLastNotebookRefused | lib/db.ts:291-295 | deleting the only notebook is refused and nothing is written |
| RoomDbProperties.DeleteUnknownNotebook | lib/db.ts:291-311 | deleting an unknown id keeps the list with colours filled, but still records the caller and the activity time |
| RoomDbProperties.PublishToFilled | lib/db.ts:172-184 | publishing to an existing notebook of a fully coloured list succeeds, writes into the list as stored, and keeps the expiry |
| RoomDbProperties.DeleteFromFilled | lib/db.ts:286-295 | deleting from a fully coloured list that keeps something succeeds, writes the list without the id, and keeps the expiry |

`ErrorHandling.RetryOperation` states the following:

- maxAttempts is 3 when the caller gives none.
- With fewer than one attempt allowed, nothing is called and the call crashes.
- Otherwise it makes between 1 and maxAttempts calls.
- Every call before the last one threw an error other than 404 or 400.
- A success returns the last call's value.
- A failure is handleApiError of the last error. It happens only after maxAttempts calls, or
  right after a 404 or 400.

## Left out

- Supabase failures are not modelled: errors other than "no rows", failed inserts and updates, the
  rate-limit SyntaxError, and thrown exceptions in getRoomFromDb. The table is a total map, so
  every read and write succeeds.
- The 11th random id in createRoomInDb is drawn but never checked; the model takes it as input
  and ignores it, as the code does.
- Several `Date.now()` calls in one request are one `now` here. Millisecond drift between them is
  not modelled.
- Concurrency is not modelled. Interleaved read-modify-write requests can lose updates; each
  operation here runs alone.
- The randomness of generateShortId and the uniformity of its characters are not modelled. The
  draws are inputs.
- The order of the users array built by `Array.from(map.values())` is not modelled. The
  sync and text replies carry the users map.
- ErrorHandling.GetErrorMessage: an error object with no `message` property is not modelled.
  Such an object gets ERROR_MESSAGES.UNKNOWN_ERROR; here every error object has a message.
- HandleApiError receives only a name, message, status and code. JavaScript values of other
  shapes, and the logging, are not modelled.
- createError's timestamp and context are not modelled.
- withTimeout is not modelled. It rejects with TIMEOUT_ERROR/408 when its timer fires before
  the operation settles; which of the two settles first depends on elapsed time, which the model
  does not have.
- The exponential-backoff sleep in retryOperation is not modelled. It only delays the next
  attempt.
- ErrorHandling.RetryOperation requires at least maxAttempts scripted outcomes. The operation is
  external code, so its behaviour is given as a list.
- A JSON body that parses to something other than the expected fields is reduced to
  `Option<PostBody>`. `None` stands for a body that fails to parse.
- React's batching and stale closures in use-text-history are not modelled. Each method call
  sees the state left by the previous one.
- The `rooms` table is assumed to hold only rows written by these operations: every row has at
  least one notebook, expires 24 hours after creation and lists each user id once. Rows left by
  other code versions or written by hand are not modelled; the per-operation results (Lookup,
  Published, NotebookAdded, NotebookDeleted, PresenceUpdated) do not depend on this assumption.
- Prototype keys of plain JavaScript objects, such as `rooms["__proto__"]`, are not modelled.
- The API routes other than `sync` and `text`, the socket and stream routes, and the UI are not
  part of this model.
