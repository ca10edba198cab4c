/** Error codes, user-facing messages, error classification, input validators and
    the attempt logic of the retry helper (lib/error-handling.ts). */
module ErrorHandling {
  import opened Wrappers

  /** The members of the ErrorCodes enumeration. */
  datatype ErrorCode =
    | RoomNotFound | RoomExpired | RoomCreationFailed
    | InvalidUsername | UserNotFound
    | NotebookNotFound | NotebookNameExists | CannotDeleteLastNotebook
    | NetworkError | RateLimitExceeded | TimeoutError
    | DatabaseError | SupabaseError
    | ValidationError | MissingRequiredField
    | UnknownError | ServerError

  /** The string value of each enumeration member, as it travels in an error's `code`. */
  function CodeName(c: ErrorCode): string {
    match c
    case RoomNotFound => "ROOM_NOT_FOUND"
    case RoomExpired => "ROOM_EXPIRED"
    case RoomCreationFailed => "ROOM_CREATION_FAILED"
    case InvalidUsername => "INVALID_USERNAME"
    case UserNotFound => "USER_NOT_FOUND"
    case NotebookNotFound => "NOTEBOOK_NOT_FOUND"
    case NotebookNameExists => "NOTEBOOK_NAME_EXISTS"
    case CannotDeleteLastNotebook => "CANNOT_DELETE_LAST_NOTEBOOK"
    case NetworkError => "NETWORK_ERROR"
    case RateLimitExceeded => "RATE_LIMIT_EXCEEDED"
    case TimeoutError => "TIMEOUT_ERROR"
    case DatabaseError => "DATABASE_ERROR"
    case SupabaseError => "SUPABASE_ERROR"
    case ValidationError => "VALIDATION_ERROR"
    case MissingRequiredField => "MISSING_REQUIRED_FIELD"
    case UnknownError => "UNKNOWN_ERROR"
    case ServerError => "SERVER_ERROR"
  }

  /** The enumeration member whose string value is `s`, if any: the keys ERROR_MESSAGES answers for. */
  function ParseCode(s: string): (r: Option<ErrorCode>)
    ensures r.Some? ==> CodeName(r.value) == s
  {
    match s
    case "ROOM_NOT_FOUND" => Some(RoomNotFound)
    case "ROOM_EXPIRED" => Some(RoomExpired)
    case "ROOM_CREATION_FAILED" => Some(RoomCreationFailed)
    case "INVALID_USERNAME" => Some(InvalidUsername)
    case "USER_NOT_FOUND" => Some(UserNotFound)
    case "NOTEBOOK_NOT_FOUND" => Some(NotebookNotFound)
    case "NOTEBOOK_NAME_EXISTS" => Some(NotebookNameExists)
    case "CANNOT_DELETE_LAST_NOTEBOOK" => Some(CannotDeleteLastNotebook)
    case "NETWORK_ERROR" => Some(NetworkError)
    case "RATE_LIMIT_EXCEEDED" => Some(RateLimitExceeded)
    case "TIMEOUT_ERROR" => Some(TimeoutError)
    case "DATABASE_ERROR" => Some(DatabaseError)
    case "SUPABASE_ERROR" => Some(SupabaseError)
    case "VALIDATION_ERROR" => Some(ValidationError)
    case "MISSING_REQUIRED_FIELD" => Some(MissingRequiredField)
    case "UNKNOWN_ERROR" => Some(UnknownError)
    case "SERVER_ERROR" => Some(ServerError)
    case _ => None
  }

  /** Every member's string value is recognised as that member. */
  lemma ParseCodeName(c: ErrorCode)
    ensures ParseCode(CodeName(c)) == Some(c)
  {
    match c
    case RoomNotFound =>
    case RoomExpired =>
    case RoomCreationFailed =>
    case InvalidUsername =>
    case UserNotFound =>
    case NotebookNotFound =>
    case NotebookNameExists =>
    case CannotDeleteLastNotebook =>
    case NetworkError =>
    case RateLimitExceeded =>
    case TimeoutError =>
    case DatabaseError =>
    case SupabaseError =>
    case ValidationError =>
    case MissingRequiredField =>
    case UnknownError =>
    case ServerError =>
  }

  /** Different members have different string values, so a code read back names one member. */
  lemma CodeNameInjective(c: ErrorCode, d: ErrorCode)
    ensures CodeName(c) == CodeName(d) ==> c == d
  {
    ParseCodeName(c);
    ParseCodeName(d);
  }

  /** ERROR_MESSAGES: the user-friendly text for each error code. */
  const ErrorMessages: map<ErrorCode, string> := map[
    RoomNotFound := "Room not found. Please check the Room ID and try again.",
    RoomExpired := "This room has expired. Please create a new room.",
    RoomCreationFailed := "Failed to create room. Please try again.",
    InvalidUsername := "Username must be between 2 and 20 characters.",
    UserNotFound := "User not found in this room.",
    NotebookNotFound := "Notebook not found.",
    NotebookNameExists := "A notebook with this name already exists.",
    CannotDeleteLastNotebook := "Cannot delete the last notebook in a room.",
    NetworkError := "Network error. Please check your internet connection.",
    RateLimitExceeded := "Too many requests. Please wait a moment and try again.",
    TimeoutError := "Request timed out. Please try again.",
    DatabaseError := "Database error occurred. Please try again.",
    SupabaseError := "Database connection error. Please try again.",
    ValidationError := "Invalid input provided.",
    MissingRequiredField := "Required field is missing.",
    UnknownError := "An unexpected error occurred.",
    ServerError := "Server error occurred. Please try again."
  ]

  /** ERROR_MESSAGES has a non-empty (so truthy) entry for every error code. */
  lemma ErrorMessagesTotal(c: ErrorCode)
    ensures c in ErrorMessages && ErrorMessages[c] != ""
  {
    match c
    case RoomNotFound =>
    case RoomExpired =>
    case RoomCreationFailed =>
    case InvalidUsername =>
    case UserNotFound =>
    case NotebookNotFound =>
    case NotebookNameExists =>
    case CannotDeleteLastNotebook =>
    case NetworkError =>
    case RateLimitExceeded =>
    case TimeoutError =>
    case DatabaseError =>
    case SupabaseError =>
    case ValidationError =>
    case MissingRequiredField =>
    case UnknownError =>
    case ServerError =>
  }

  /** The message ERROR_MESSAGES gives for `c`. */
  function Message(c: ErrorCode): (m: string)
    ensures m != ""
  {
    ErrorMessagesTotal(c);
    ErrorMessages[c]
  }

  /** An AppError as createError builds it; the creation timestamp and context are not modelled. */
  datatype AppError = AppError(message: string, code: ErrorCode, statusCode: int)

  /** What getErrorMessage accepts: a plain string, or an error object with a message and an optional
      code (the empty string standing for a missing or falsy code). */
  datatype ErrorValue = Text(text: string) | Thrown(message: string, code: string)

  /** An AppError seen as an error object. */
  function FromAppError(e: AppError): ErrorValue {
    Thrown(e.message, CodeName(e.code))
  }

  /** The text shown to the user for an error. */
  function GetErrorMessage(e: ErrorValue): (m: string)
    ensures e.Text? ==> m == e.text
    ensures e.Thrown? && ParseCode(e.code).Some? ==> m == Message(ParseCode(e.code).value)
    ensures e.Thrown? && ParseCode(e.code).None? ==> m == e.message
  {
    match e
    case Text(s) => s
    case Thrown(message, code) =>
      if code != "" && ParseCode(code).Some? then Message(ParseCode(code).value) else message
  }

  /** The thrown value handleApiError inspects. A missing `status` is 0 and a missing
      `code` is the empty string, both falsy as in JavaScript. */
  datatype RawError = RawError(name: string, message: string, status: int, code: string)

  predicate StartsWith(s: string, prefix: string) {
    |prefix| <= |s| && s[..|prefix|] == prefix
  }

  /** `s` contains `part` as a contiguous substring (String.prototype.includes). */
  predicate Contains(s: string, part: string)
    decreases |s|
  {
    StartsWith(s, part) || (|s| > 0 && Contains(s[1..], part))
  }

  /** `message || ERROR_MESSAGES[UNKNOWN_ERROR]`. */
  function MessageOrUnknown(message: string): string {
    if message != "" then message else Message(UnknownError)
  }

  /** Classifies a thrown value, first matching rule wins: a failed fetch, then the HTTP status,
      then a PostgREST error code, then anything else. */
  function HandleApiError(e: RawError): (r: AppError)
    ensures r.code == NetworkError <==> e.name == "TypeError" && Contains(e.message, "fetch")
    ensures r.code == NetworkError ==> r == AppError(Message(NetworkError), NetworkError, 0)
    ensures r.code != NetworkError && e.status != 0 ==> r.statusCode == e.status
    ensures r.code != NetworkError && e.status == 0 ==> r.statusCode == 500
    ensures r.code == SupabaseError <==> r.code != NetworkError && e.status == 0 && StartsWith(e.code, "PGRST")
    ensures r.code != NetworkError && e.status == 0 && !StartsWith(e.code, "PGRST") ==>
      r == AppError(MessageOrUnknown(e.message), UnknownError, 500)
    ensures r.code in {NetworkError, RoomNotFound, RateLimitExceeded, ServerError, SupabaseError, UnknownError}
    ensures r.code == UnknownError ==> r.message == MessageOrUnknown(e.message)
    ensures r.code != UnknownError ==> r.message == Message(r.code)
  {
    if e.name == "TypeError" && Contains(e.message, "fetch") then
      AppError(Message(NetworkError), NetworkError, 0)
    else if e.status != 0 then
      if e.status == 404 then AppError(Message(RoomNotFound), RoomNotFound, 404)
      else if e.status == 429 then AppError(Message(RateLimitExceeded), RateLimitExceeded, 429)
      else if e.status == 500 then AppError(Message(ServerError), ServerError, 500)
      else AppError(MessageOrUnknown(e.message), UnknownError, e.status)
    else if StartsWith(e.code, "PGRST") then
      AppError(Message(SupabaseError), SupabaseError, 500)
    else
      AppError(MessageOrUnknown(e.message), UnknownError, 500)
  }

  /** HTTP statuses 404, 429 and 500 map to their own codes; every other status is UNKNOWN_ERROR. */
  lemma HandleApiErrorByStatus(e: RawError)
    requires !(e.name == "TypeError" && Contains(e.message, "fetch")) && e.status != 0
    ensures HandleApiError(e).code ==
      if e.status == 404 then RoomNotFound
      else if e.status == 429 then RateLimitExceeded
      else if e.status == 500 then ServerError
      else UnknownError
  {
  }

  /** Whatever handleApiError produces carries a known code, so getErrorMessage shows the
      generic text for that code and never the raw message kept in UNKNOWN_ERROR results. */
  lemma ClassifiedErrorShowsGenericMessage(e: RawError)
    ensures GetErrorMessage(FromAppError(HandleApiError(e))) == Message(HandleApiError(e).code)
  {
    ParseCodeName(HandleApiError(e).code);
  }

  // ----- validators -----

  /** The characters String.prototype.trim removes: white space and line terminators. */
  predicate IsTrimmable(c: char) {
    c == '\t' || c == '\n' || c == '\U{B}' || c == '\U{C}' || c == '\r' || c == ' '
    || c == '\U{A0}' || c == '\U{1680}' || ('\U{2000}' <= c <= '\U{200A}')
    || c == '\U{2028}' || c == '\U{2029}' || c == '\U{202F}' || c == '\U{205F}'
    || c == '\U{3000}' || c == '\U{FEFF}'
  }

  /** `s` without its leading trimmable characters. */
  function TrimStart(s: string): (r: string)
    ensures |r| <= |s| && r == s[|s| - |r|..]
    ensures r == [] || !IsTrimmable(r[0])
    ensures forall i :: 0 <= i < |s| - |r| ==> IsTrimmable(s[i])
  {
    if s != [] && IsTrimmable(s[0]) then TrimStart(s[1..]) else s
  }

  /** `s` without its trailing trimmable characters. */
  function TrimEnd(s: string): (r: string)
    ensures |r| <= |s| && r == s[..|r|]
    ensures r == [] || !IsTrimmable(r[|r| - 1])
    ensures forall i :: |r| <= i < |s| ==> IsTrimmable(s[i])
  {
    if s != [] && IsTrimmable(s[|s| - 1]) then TrimEnd(s[..|s| - 1]) else s
  }

  /** Every character of `s` before position `i` and from position `j` on is trimmable. */
  predicate SpaceOutside(s: string, i: nat, j: nat)
    requires i <= j <= |s|
  {
    && (forall k :: 0 <= k < i ==> IsTrimmable(s[k]))
    && (forall k :: j <= k < |s| ==> IsTrimmable(s[k]))
  }

  /** `r` is a slice of `s` and everything of `s` outside it is trimmable. */
  predicate SurroundedBySpace(s: string, r: string) {
    exists i: nat, j: nat :: i <= j <= |s| && r == s[i..j] && SpaceOutside(s, i, j)
  }

  /** A prefix `r` of a suffix `t` of `s` is the slice of `s` it sits at, and when what
      follows `r` in `t` is trimmable, so is what follows it in `s`. */
  lemma PrefixOfSuffix(s: string, t: string, r: string)
    requires |t| <= |s| && t == s[|s| - |t|..] && |r| <= |t| && r == t[..|r|]
    requires forall k :: |r| <= k < |t| ==> IsTrimmable(t[k])
    ensures r == s[|s| - |t|..|s| - |t| + |r|]
    ensures forall k :: |s| - |t| + |r| <= k < |s| ==> IsTrimmable(s[k])
  {
    var i := |s| - |t|;
    forall k | i + |r| <= k < |s| ensures IsTrimmable(s[k]) {
      assert s[k] == t[k - i];
    }
  }

  /** What TrimStart leaves and TrimEnd then keeps is a slice of `s` with only trimmable
      characters around it. */
  lemma TrimmedIsSlice(s: string)
    ensures SurroundedBySpace(s, TrimEnd(TrimStart(s)))
  {
    var t := TrimStart(s);
    var r := TrimEnd(t);
    var i, j := |s| - |t|, |s| - |t| + |r|;
    PrefixOfSuffix(s, t, r);
    assert i <= j <= |s| && r == s[i..j] && SpaceOutside(s, i, j);
  }

  /** String.prototype.trim: the slice of `s` left once the trimmable characters at both ends
      are cut off. */
  function Trim(s: string): (r: string)
    ensures |r| <= |s|
    ensures r == [] || (!IsTrimmable(r[0]) && !IsTrimmable(r[|r| - 1]))
    ensures SurroundedBySpace(s, r)
  {
    var t := TrimStart(s);
    var r := TrimEnd(t);
    assert r != [] ==> r[0] == t[0];
    TrimmedIsSlice(s);
    r
  }

  /** Trimming a string with no trimmable character at either end leaves it as it is. */
  lemma {:induction false} TrimStable(s: string)
    requires s == [] || (!IsTrimmable(s[0]) && !IsTrimmable(s[|s| - 1]))
    ensures Trim(s) == s
  {
  }

  /** Trimming twice is trimming once. */
  lemma TrimIdempotent(s: string)
    ensures Trim(Trim(s)) == Trim(s)
  {
    TrimStable(Trim(s));
  }

  /** A character outside the Basic Multilingual Plane, which UTF-16 stores as a surrogate pair. */
  predicate IsAstral(c: char) {
    c > '\U{FFFF}'
  }

  /** Every character of `s` is astral. */
  predicate AllAstral(s: string) {
    forall i :: 0 <= i < |s| ==> IsAstral(s[i])
  }

  /** No character of `s` is astral. */
  predicate NoAstral(s: string) {
    forall i :: 0 <= i < |s| ==> !IsAstral(s[i])
  }

  /** The JavaScript `length` of `s`: the number of UTF-16 code units, two for each astral
      character and one for every other. */
  function Utf16Length(s: string): (n: nat)
    ensures |s| <= n <= 2 * |s|
    ensures NoAstral(s) ==> n == |s|
    ensures AllAstral(s) ==> n == 2 * |s|
  {
    if s == [] then 0 else (if IsAstral(s[0]) then 2 else 1) + Utf16Length(s[1..])
  }

  /** validators.username: an error unless the trimmed name is 2 to 20 UTF-16 units long. */
  function ValidateUsername(username: string): (r: Option<AppError>)
    ensures r.None? <==> 2 <= Utf16Length(Trim(username)) <= 20
    ensures r.Some? ==> r.value == AppError(Message(InvalidUsername), InvalidUsername, 400)
  {
    if username == "" || Utf16Length(Trim(username)) < 2 || Utf16Length(Trim(username)) > 20 then
      Some(AppError(Message(InvalidUsername), InvalidUsername, 400))
    else
      None
  }

  /** validators.roomId: an error exactly when the id is blank. */
  function ValidateRoomId(roomId: string): (r: Option<AppError>)
    ensures r.Some? <==> Trim(roomId) == ""
    ensures r.Some? ==> r.value == AppError("Room ID is required", ValidationError, 400)
  {
    if roomId == "" || Utf16Length(Trim(roomId)) == 0 then
      Some(AppError("Room ID is required", ValidationError, 400))
    else
      None
  }

  /** validators.notebookName: a blank name is a missing field (checked first), a trimmed name
      over 50 UTF-16 units is invalid, anything else passes. */
  function ValidateNotebookName(name: string): (r: Option<AppError>)
    ensures Trim(name) == "" ==> r == Some(AppError("Notebook name is required", MissingRequiredField, 400))
    ensures Utf16Length(Trim(name)) > 50 ==>
      r == Some(AppError("Notebook name must be 50 characters or less", ValidationError, 400))
    ensures r.None? <==> Trim(name) != "" && Utf16Length(Trim(name)) <= 50
  {
    if name == "" || Utf16Length(Trim(name)) == 0 then
      Some(AppError("Notebook name is required", MissingRequiredField, 400))
    else if Utf16Length(Trim(name)) > 50 then
      Some(AppError("Notebook name must be 50 characters or less", ValidationError, 400))
    else
      None
  }

  /** Surrounding white space never changes a validator's verdict. */
  lemma ValidatorsIgnoreSurroundingSpace(s: string)
    ensures ValidateUsername(Trim(s)) == ValidateUsername(s)
    ensures ValidateRoomId(Trim(s)) == ValidateRoomId(s)
    ensures ValidateNotebookName(Trim(s)) == ValidateNotebookName(s)
  {
    TrimIdempotent(s);
    SameTrimSameUsernameVerdict(Trim(s), s);
    SameTrimSameRoomIdVerdict(Trim(s), s);
    SameTrimSameNameVerdict(Trim(s), s);
  }

  /** The username check looks only at the trimmed input. */
  lemma SameTrimSameUsernameVerdict(s: string, t: string)
    requires Trim(s) == Trim(t)
    ensures ValidateUsername(s) == ValidateUsername(t)
  {
  }

  /** The room id check looks only at the trimmed input. */
  lemma SameTrimSameRoomIdVerdict(s: string, t: string)
    requires Trim(s) == Trim(t)
    ensures ValidateRoomId(s) == ValidateRoomId(t)
  {
  }

  /** The notebook name check looks only at the trimmed input. */
  lemma SameTrimSameNameVerdict(s: string, t: string)
    requires Trim(s) == Trim(t)
    ensures ValidateNotebookName(s) == ValidateNotebookName(t)
  {
  }

  /** The username limits count UTF-16 units: a name made of one astral character (an emoji)
      is two units long and passes. */
  lemma AstralUsernameAccepted(c: char)
    requires IsAstral(c)
    ensures ValidateUsername([c]).None?
  {
    var name := [c];
    assert Utf16Length(name) == 2;
    assert !IsTrimmable(c);
    TrimStable(name);
  }

  /** The notebook name limit counts UTF-16 units: 26 to 50 astral characters are over it. */
  lemma AstralNotebookNameTooLong(name: string)
    requires 26 <= |name| <= 50
    requires AllAstral(name)
    ensures ValidateNotebookName(name) ==
      Some(AppError("Notebook name must be 50 characters or less", ValidationError, 400))
  {
    TrimStable(name);
  }

  // ----- retry -----

  /** What one invocation of the operation did: returned a value or threw. */
  datatype Attempt<T> = Returned(value: T) | Threw(error: RawError)

  /** What retryOperation ends with. Crashed: no attempt was made, so handleApiError is
      handed `undefined` and itself throws a TypeError. */
  datatype RetryResult<T> = Succeeded(value: T) | Failed(error: AppError) | Crashed

  /** Statuses on which retryOperation gives up at once: two client errors. */
  predicate StopsRetry(e: RawError): (b: bool)
    ensures b ==> 400 <= e.status < 500
  {
    e.status == 404 || e.status == 400
  }

  /** The attempt loop of retryOperation; `outcomes[i]` is what the (i+1)-th invocation of the
      operation does, `calls` how many invocations were made. */
  method RetryOperation<T>(outcomes: seq<Attempt<T>>, maxAttempts: int := 3) returns (r: RetryResult<T>, calls: nat)
    requires maxAttempts <= |outcomes|
    ensures maxAttempts < 1 ==> r == Crashed && calls == 0
    ensures maxAttempts >= 1 ==> 1 <= calls <= maxAttempts && !r.Crashed?
    ensures forall i :: 0 <= i < calls - 1 ==> outcomes[i].Threw? && !StopsRetry(outcomes[i].error)
    ensures r.Succeeded? ==> outcomes[calls - 1] == Returned(r.value)
    ensures r.Failed? ==> outcomes[calls - 1].Threw? && r.error == HandleApiError(outcomes[calls - 1].error)
    ensures r.Failed? ==> calls == maxAttempts || StopsRetry(outcomes[calls - 1].error)
  {
    var lastError: Option<RawError> := None;
    calls := 0;
    var attempt := 1;
    while attempt <= maxAttempts
      invariant 1 <= attempt && calls == attempt - 1
      invariant maxAttempts < 1 ==> calls == 0
      invariant maxAttempts >= 1 ==> calls <= maxAttempts
      invariant forall i :: 0 <= i < calls ==> outcomes[i].Threw? && !StopsRetry(outcomes[i].error)
      invariant lastError.None? <==> calls == 0
      invariant lastError.Some? ==> outcomes[calls - 1] == Threw(lastError.value)
    {
      calls := calls + 1;
      var outcome := outcomes[attempt - 1];
      if outcome.Returned? {
        return Succeeded(outcome.value), calls;
      }
      lastError := Some(outcome.error);
      if attempt == maxAttempts {
        break;
      }
      if StopsRetry(outcome.error) {
        break;
      }
      attempt := attempt + 1;
    }
    r := if lastError.Some? then Failed(HandleApiError(lastError.value)) else Crashed;
  }
}
