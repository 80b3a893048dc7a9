/**
 * The login-recording endpoint: a POST-only handler that validates a
 * submission through an ordered chain of checks (the first failure is the
 * one reported), appends a normalised record to an append-only store and
 * answers with a summary that leaves the password out. Errors that carry a
 * status pass through; every other failure becomes a fixed 500.
 *
 * File I/O, JSON and the clock are inputs: the store as it was read
 * (`None` when missing, unparsable or not an array), whether the write
 * succeeded, the generated id and the current time.
 */
module Login {
  import opened Wrappers
  import opened Text
  import opened Email

  /** The errors the endpoint reports, each with its HTTP status and status message. */
  datatype ErrorKind =
    | MethodNotAllowed
    | MissingFields
    | NameTooShort
    | InvalidEmail
    | PasswordTooShort
    | InvalidRole
    | InternalError
  {
    function Status(): int {
      match this
      case MethodNotAllowed => 405
      case InternalError => 500
      case _ => 400
    }

    function Message(): string {
      match this
      case MethodNotAllowed => "Method Not Allowed"
      case MissingFields => "All fields (name, email, password, role) are required"
      case NameTooShort => "Name must be at least 2 characters long"
      case InvalidEmail => "Please provide a valid email address"
      case PasswordTooShort => "Password must be at least 6 characters long"
      case InvalidRole => "Invalid role selected"
      case InternalError => "Internal Server Error - Unable to save user data"
    }
  }

  const SavedMessage := "User login data saved successfully"

  const ValidRoles: seq<string> := ["Student", "Teacher", "Admin", "Security Guard"]

  /** The request body as an object. A field is absent (`None`, standing for
      any falsy non-string value too) or a string. A non-null body that is not
      an object (a number, a string) has no such properties and reads as all
      fields `None`. */
  datatype Submission = Submission(
    name: Option<string>,
    email: Option<string>,
    password: Option<string>,
    role: Option<string>,
    loginTime: Option<string>)

  /** JavaScript truthiness of an optional string field. */
  predicate Truthy(f: Option<string>) {
    f.Some? && f.value != ""
  }

  // The five checks, in the order the handler applies them.

  predicate AllPresent(b: Submission) {
    Truthy(b.name) && Truthy(b.email) && Truthy(b.password) && Truthy(b.role)
  }

  /** The trimmed name is at least two UTF-16 code units long. */
  predicate NameOk(b: Submission) {
    b.name.Some? && Utf16Length(Trim(b.name.value)) >= 2
  }

  /** The trimmed e-mail matches `^[^\s@]+@[^\s@]+\.[^\s@]+$`. */
  predicate EmailOk(b: Submission) {
    b.email.Some? && MatchesEmail(Trim(b.email.value))
  }

  /** The raw, untrimmed password is at least six UTF-16 code units long. */
  predicate PasswordOk(b: Submission) {
    b.password.Some? && Utf16Length(b.password.value) >= 6
  }

  predicate RoleOk(b: Submission) {
    b.role.Some? && b.role.value in ValidRoles
  }

  predicate Valid(b: Submission) {
    AllPresent(b) && NameOk(b) && EmailOk(b) && PasswordOk(b) && RoleOk(b)
  }

  /** The validation chain. The reported error is the one of the earliest
      failing check, and every later check is then irrelevant. */
  function Validate(b: Submission): (v: Option<ErrorKind>)
    ensures v.None? <==> Valid(b)
    ensures v == Some(MissingFields) <==> !AllPresent(b)
    ensures v == Some(NameTooShort) <==> AllPresent(b) && !NameOk(b)
    ensures v == Some(InvalidEmail) <==> AllPresent(b) && NameOk(b) && !EmailOk(b)
    ensures v == Some(PasswordTooShort) <==> AllPresent(b) && NameOk(b) && EmailOk(b) && !PasswordOk(b)
    ensures v == Some(InvalidRole) <==> AllPresent(b) && NameOk(b) && EmailOk(b) && PasswordOk(b) && !RoleOk(b)
  {
    if !AllPresent(b) then Some(MissingFields)
    else if !NameOk(b) then Some(NameTooShort)
    else if !EmailOk(b) then Some(InvalidEmail)
    else if !PasswordOk(b) then Some(PasswordTooShort)
    else if !RoleOk(b) then Some(InvalidRole)
    else None
  }

  /** A stored user record. `id` is the generated numeric id. */
  datatype Record = Record(
    id: real,
    name: string,
    email: string,
    password: string,
    role: string,
    loginTime: string,
    createdAt: string)

  /** One element of the stored array: a record, or an element whose `email`
      is not a string (kept verbatim as its JSON text). */
  datatype Entry = UserEntry(user: Record) | OtherEntry(raw: string)

  /** What the response reports of the new record: everything but the password and creation time. */
  datatype UserView = UserView(id: real, name: string, email: string, role: string, loginTime: string)

  datatype Response = Response(success: bool, message: string, user: UserView, totalUsers: nat)

  /** A thrown value: an error built by `createError`, which carries a status
      code, or anything else (a `TypeError`, a file-system error), which does not. */
  datatype Thrown = Created(kind: ErrorKind) | Unexpected(description: string)

  const TypeErrorThrown := Unexpected("TypeError: user.email.toLowerCase is not a function")
  const WriteErrorThrown := Unexpected("Error: unable to write users.json")
  const NullBodyThrown := Unexpected("TypeError: Cannot destructure property 'name' of 'body' as it is null.")

  /** The outer catch: an error that carries a status code is re-raised as it
      is; anything else becomes the fixed internal error. */
  function Catch(t: Thrown): (e: ErrorKind)
    ensures t.Created? ==> e == t.kind
    ensures t.Unexpected? ==> e == InternalError
  {
    match t
    case Created(k) => k
    case Unexpected(_) => InternalError
  }

  /** A missing, unreadable, unparsable or non-array store reads as empty. */
  function LoadStore(stored: Option<seq<Entry>>): (users: seq<Entry>) {
    match stored
    case None => []
    case Some(users) => users
  }

  /** The key the duplicate check compares against: `email.trim().toLowerCase()`. */
  function EmailKey(email: string): (key: string) {
    Lower(Trim(email))
  }

  predicate IsMatch(e: Entry, key: string) {
    e.UserEntry? && Lower(e.user.email) == key
  }

  /** Every entry before position `i` is a record whose e-mail does not match. */
  predicate NoMatchBefore(users: seq<Entry>, key: string, i: int)
    requires 0 <= i <= |users|
  {
    forall j :: 0 <= j < i ==> users[j].UserEntry? && !IsMatch(users[j], key)
  }

  /** `users.find(user => user.email.toLowerCase() === key)`: `Some(found)`,
      or `None` when the scan reaches an element without a string e-mail
      before any match (the callback throws). The handler only logs a match. */
  function FindRepeat(users: seq<Entry>, key: string): (found: Option<bool>) {
    if users == [] then Some(false)
    else if users[0].OtherEntry? then None
    else if IsMatch(users[0], key) then Some(true)
    else FindRepeat(users[1..], key)
  }

  /** The scan finds a match exactly when some record matches and everything
      before it is a non-matching record; it throws exactly when an element
      without a string e-mail comes before any match. */
  lemma {:induction false} FindRepeatMeaning(users: seq<Entry>, key: string)
    ensures FindRepeat(users, key) == Some(true) <==>
              exists i :: 0 <= i < |users| && IsMatch(users[i], key) && NoMatchBefore(users, key, i)
    ensures FindRepeat(users, key).None? <==>
              exists i :: 0 <= i < |users| && users[i].OtherEntry? && NoMatchBefore(users, key, i)
    ensures FindRepeat(users, key) == Some(false) <==> NoMatchBefore(users, key, |users|)
  {
    if users != [] {
      assert NoMatchBefore(users, key, 0);
      if users[0].UserEntry? && !IsMatch(users[0], key) {
        FindRepeatMeaning(users[1..], key);
        FindRepeatStep(users, key);
        var tail := users[1..];
        if FindRepeat(users, key) == Some(true) {
          var i :| 0 <= i < |tail| && IsMatch(tail[i], key) && NoMatchBefore(tail, key, i);
          assert IsMatch(users[i + 1], key) && NoMatchBefore(users, key, i + 1);
        }
        if FindRepeat(users, key).None? {
          var i :| 0 <= i < |tail| && tail[i].OtherEntry? && NoMatchBefore(tail, key, i);
          assert users[i + 1].OtherEntry? && NoMatchBefore(users, key, i + 1);
        }
        if exists i :: 0 <= i < |users| && IsMatch(users[i], key) && NoMatchBefore(users, key, i) {
          var i :| 0 <= i < |users| && IsMatch(users[i], key) && NoMatchBefore(users, key, i);
          assert i > 0;
          assert IsMatch(tail[i - 1], key) && NoMatchBefore(tail, key, i - 1);
        }
        if exists i :: 0 <= i < |users| && users[i].OtherEntry? && NoMatchBefore(users, key, i) {
          var i :| 0 <= i < |users| && users[i].OtherEntry? && NoMatchBefore(users, key, i);
          assert i > 0;
          assert tail[i - 1].OtherEntry? && NoMatchBefore(tail, key, i - 1);
        }
      }
    }
  }

  /** How the scan conditions of `users` relate to those of its tail. */
  lemma FindRepeatStep(users: seq<Entry>, key: string)
    requires users != [] && IsMatch(users[0], key) == false && users[0].UserEntry?
    ensures forall i :: 1 <= i <= |users| ==>
              NoMatchBefore(users, key, i) == NoMatchBefore(users[1..], key, i - 1)
  {
    forall i | 1 <= i <= |users|
      ensures NoMatchBefore(users, key, i) == NoMatchBefore(users[1..], key, i - 1)
    {
      if NoMatchBefore(users[1..], key, i - 1) {
        forall j | 0 <= j < i ensures users[j].UserEntry? && !IsMatch(users[j], key) {
          if j > 0 { assert users[j] == users[1..][j - 1]; }
        }
      }
    }
  }

  /** The record the handler builds: name trimmed, e-mail trimmed and
      lower-cased, password and role as submitted, the submitted login time
      when truthy and the current time otherwise. */
  function NewRecord(b: Submission, id: real, now: string): (rec: Record)
    requires AllPresent(b)
  {
    Record(id, Trim(b.name.value), EmailKey(b.email.value), b.password.value, b.role.value,
           if Truthy(b.loginTime) then b.loginTime.value else now, now)
  }

  function Summarize(rec: Record, total: nat): (resp: Response) {
    Response(true, SavedMessage, UserView(rec.id, rec.name, rec.email, rec.role, rec.loginTime), total)
  }

  /** The body of the handler's `try` block. Destructuring a `null` or
      absent body throws a status-less `TypeError`. */
  function Attempt(body: Option<Submission>, stored: Option<seq<Entry>>, writeOk: bool, id: real,
                   now: string): (r: Result<(seq<Entry>, Response), Thrown>)
    ensures body.None? ==> r == Failure(NullBodyThrown)
  {
    if body.None? then Failure(NullBodyThrown)
    else
    var b := body.value;
    match Validate(b)
    case Some(e) => Failure(Created(e))
    case None =>
      var users := LoadStore(stored);
      if FindRepeat(users, EmailKey(b.email.value)).None? then Failure(TypeErrorThrown)
      else
        var rec := NewRecord(b, id, now);
        var users' := users + [UserEntry(rec)];
        if !writeOk then Failure(WriteErrorThrown)
        else Success((users', Summarize(rec, |users'|)))
  }

  /** The event handler, given the request method `verb` as `getMethod`
      reports it and the body `readBody` returned (`None` for `null` or no
      body): on success the new store contents and the response, on failure
      the HTTP error. A validation failure or a throwing duplicate scan comes
      before the write, so the store file is not touched then. */
  function Handle(verb: string, body: Option<Submission>, stored: Option<seq<Entry>>, writeOk: bool,
                  id: real, now: string): (r: Result<(seq<Entry>, Response), ErrorKind>)
    ensures r.Success? ==> var users := LoadStore(stored);
              && |r.value.0| == |users| + 1
              && r.value.0[..|users|] == users
              && r.value.1.totalUsers == |r.value.0|
    ensures r.Failure? && r.error.Status() == 400 <==>
              verb == "POST" && body.Some? && !Valid(body.value)
    ensures verb == "POST" && body.None? ==> r == Failure(InternalError)
  {
    if verb != "POST" then Failure(MethodNotAllowed)
    else match Attempt(body, stored, writeOk, id, now)
      case Success(v) => Success(v)
      case Failure(t) => Failure(Catch(t))
  }
}
