/**
 * Properties of the login endpoint: refusal of other methods, the order of
 * the validation chain, the append-only store update, normalisation of the
 * stored record, the sanitised response and the mapping of errors.
 */
module LoginProperties {
  import opened Wrappers
  import opened Text
  import opened Email
  import opened Login

  /** Any method other than POST is refused with 405, before the body or the store is looked at. */
  lemma NonPostRejected(verb: string, body: Option<Submission>, stored: Option<seq<Entry>>,
                        writeOk: bool, id: real, now: string)
    requires verb != "POST"
    ensures Handle(verb, body, stored, writeOk, id, now) == Failure(MethodNotAllowed)
  {
  }

  /** A `null` or absent body is not a missing-fields 400: destructuring it
      throws a status-less error, so the answer is the 500, whatever the
      store. A body object with no fields is the 400. */
  lemma NullBodyFails(stored: Option<seq<Entry>>, writeOk: bool, id: real, now: string)
    ensures Handle("POST", None, stored, writeOk, id, now) == Failure(InternalError)
    ensures Handle("POST", Some(Submission(None, None, None, None, None)), stored, writeOk, id, now)
            == Failure(MissingFields)
  {
  }

  /** On a POST the validation chain decides first: the earliest failing
      check's error (see `Validate`) is the response, and a submission that
      passes every check never gets a 400. */
  lemma ValidationDecides(b: Submission, stored: Option<seq<Entry>>, writeOk: bool,
                          id: real, now: string)
    ensures Validate(b).Some? ==> Handle("POST", Some(b), stored, writeOk, id, now) == Failure(Validate(b).value)
    ensures Validate(b).None? ==>
              var r := Handle("POST", Some(b), stored, writeOk, id, now);
              r.Success? || r == Failure(InternalError)
    ensures var r := Handle("POST", Some(b), stored, writeOk, id, now);
            r.Failure? && r.error.Status() == 400 <==> !Valid(b)
  {
    var v := Validate(b);
    assert v.Some? ==> v.value.Status() == 400;
  }

  /** The three length and membership boundaries in the source's own terms:
      trimmed name length, raw password length, and the four role literals. */
  lemma ValidationBoundaries(b: Submission)
    requires AllPresent(b)
    ensures Utf16Length(Trim(b.name.value)) < 2 ==> Validate(b) == Some(NameTooShort)
    ensures NameOk(b) && EmailOk(b) && Utf16Length(b.password.value) < 6 ==>
              Validate(b) == Some(PasswordTooShort)
    ensures NameOk(b) && EmailOk(b) && PasswordOk(b)
            && b.role.value !in {"Student", "Teacher", "Admin", "Security Guard"} ==>
              Validate(b) == Some(InvalidRole)
  {
  }

  /** A missing, unreadable or non-array store behaves exactly like an empty one. */
  lemma MissingStoreIsEmpty(verb: string, body: Option<Submission>, writeOk: bool, id: real,
                            now: string)
    ensures Handle(verb, body, None, writeOk, id, now) == Handle(verb, body, Some([]), writeOk, id, now)
  {
  }

  /** Success happens exactly when the request is a valid POST, the duplicate
      scan does not throw and the write succeeds. */
  lemma SuccessCondition(verb: string, b: Submission, stored: Option<seq<Entry>>, writeOk: bool,
                         id: real, now: string)
    ensures Handle(verb, Some(b), stored, writeOk, id, now).Success? <==>
              verb == "POST" && Valid(b) && writeOk
              && FindRepeat(LoadStore(stored), EmailKey(b.email.value)).Some?
  {
    if verb == "POST" {
      ValidationDecides(b, stored, writeOk, id, now);
    }
  }

  /** The success value of an accepted request. */
  lemma HandleAccepts(b: Submission, stored: Option<seq<Entry>>, id: real, now: string)
    requires Valid(b)
    requires FindRepeat(LoadStore(stored), EmailKey(b.email.value)).Some?
    ensures var users' := LoadStore(stored) + [UserEntry(NewRecord(b, id, now))];
            Handle("POST", Some(b), stored, true, id, now)
              == Success((users', Summarize(NewRecord(b, id, now), |users'|)))
  {
  }

  /** On success the new store is the old one with exactly one record
      appended, earlier entries unchanged, and `totalUsers` is its length;
      from a missing or unreadable store that is a store of one record. */
  lemma SuccessfulCallAppends(verb: string, b: Submission, stored: Option<seq<Entry>>, writeOk: bool,
                              id: real, now: string)
    requires Handle(verb, Some(b), stored, writeOk, id, now).Success?
    ensures var r := Handle(verb, Some(b), stored, writeOk, id, now);
            var users := LoadStore(stored);
            && AllPresent(b)
            && |r.value.0| == |users| + 1
            && r.value.0[..|users|] == users
            && r.value.0[|users|] == UserEntry(NewRecord(b, id, now))
            && r.value.1.totalUsers == |users| + 1
    ensures var r := Handle(verb, Some(b), stored, writeOk, id, now);
            stored.None? ==> r.value.0 == [UserEntry(NewRecord(b, id, now))] && r.value.1.totalUsers == 1
  {
    SuccessCondition(verb, b, stored, writeOk, id, now);
    HandleAccepts(b, stored, id, now);
    var users := LoadStore(stored);
    var users' := users + [UserEntry(NewRecord(b, id, now))];
    assert users'[..|users|] == users;
  }

  /** The stored record is the normalised submission, and the response's
      `user` is that record without its password and creation time. */
  lemma StoredRecordAndResponse(verb: string, b: Submission, stored: Option<seq<Entry>>,
                                writeOk: bool, id: real, now: string)
    requires Handle(verb, Some(b), stored, writeOk, id, now).Success?
    ensures var users := LoadStore(stored);
            var r := Handle(verb, Some(b), stored, writeOk, id, now).value;
            && |r.0| == |users| + 1 && r.0[|users|].UserEntry?
            && var rec := r.0[|users|].user;
            && rec.id == id
            && rec.name == Trim(b.name.value)
            && rec.email == Lower(Trim(b.email.value))
            && rec.password == b.password.value
            && rec.role == b.role.value
            && rec.loginTime == (if Truthy(b.loginTime) then b.loginTime.value else now)
            && rec.createdAt == now
            && r.1.success && r.1.message == SavedMessage
            && r.1.user == UserView(rec.id, rec.name, rec.email, rec.role, rec.loginTime)
  {
    SuccessfulCallAppends(verb, b, stored, writeOk, id, now);
  }

  /** A record that the endpoint could have written: trimmed name of at least
      two code units, lower-case e-mail of the accepted shape, password of at
      least six code units, one of the four roles. */
  ghost predicate WellFormedRecord(r: Record) {
    && NoOuterWhitespace(r.name) && Utf16Length(r.name) >= 2
    && EmailPattern(r.email) && Lower(r.email) == r.email
    && Utf16Length(r.password) >= 6
    && r.role in ValidRoles
  }

  ghost predicate WellFormedStore(users: seq<Entry>) {
    forall i :: 0 <= i < |users| ==> users[i].UserEntry? && WellFormedRecord(users[i].user)
  }

  /** A valid submission normalises to a well-formed record. */
  lemma NewRecordWellFormed(b: Submission, id: real, now: string)
    requires Valid(b)
    ensures WellFormedRecord(NewRecord(b, id, now))
  {
    var e := Trim(b.email.value);
    TrimMeaning(b.name.value);
    MatchesEmailCorrect(e);
    LowerKeepsPattern(e);
    LowerIdempotent(e);
  }

  /** Appending a well-formed record to a well-formed store keeps it well-formed. */
  lemma AppendWellFormed(users: seq<Entry>, rec: Record)
    requires WellFormedStore(users) && WellFormedRecord(rec)
    ensures WellFormedStore(users + [UserEntry(rec)])
  {
    var users' := users + [UserEntry(rec)];
    forall i | 0 <= i < |users'|
      ensures users'[i].UserEntry? && WellFormedRecord(users'[i].user)
    {
      if i < |users| { assert users'[i] == users[i]; }
    }
  }

  /** Every successful call keeps a store of well-formed records well-formed. */
  lemma HandlePreservesWellFormedStore(verb: string, b: Submission, stored: Option<seq<Entry>>,
                                       writeOk: bool, id: real, now: string)
    requires WellFormedStore(LoadStore(stored))
    requires Handle(verb, Some(b), stored, writeOk, id, now).Success?
    ensures WellFormedStore(Handle(verb, Some(b), stored, writeOk, id, now).value.0)
  {
    SuccessCondition(verb, b, stored, writeOk, id, now);
    HandleAccepts(b, stored, id, now);
    NewRecordWellFormed(b, id, now);
    AppendWellFormed(LoadStore(stored), NewRecord(b, id, now));
  }

  /** Over a store of records only, the duplicate scan never throws. */
  lemma RecordsNeverCrashScan(users: seq<Entry>, key: string)
    requires forall i :: 0 <= i < |users| ==> users[i].UserEntry?
    ensures FindRepeat(users, key).Some?
  {
    FindRepeatMeaning(users, key);
  }

  /** Appending a record never makes the duplicate scan throw where it did not before. */
  lemma {:induction false} ScanSurvivesAppend(users: seq<Entry>, key: string, rec: Record)
    requires FindRepeat(users, key).Some?
    ensures FindRepeat(users + [UserEntry(rec)], key).Some?
  {
    if users != [] && !IsMatch(users[0], key) {
      assert (users + [UserEntry(rec)])[1..] == users[1..] + [UserEntry(rec)];
      ScanSurvivesAppend(users[1..], key, rec);
    }
  }

  /** An existing record with the same e-mail, compared case-insensitively, is
      neither a rejection nor a replacement: the new record, which matches
      the same key, is appended after it and the store then holds both. */
  lemma RepeatLoginStillAppends(b: Submission, users: seq<Entry>, i: nat, id: real, now: string)
    requires Valid(b)
    requires forall k :: 0 <= k < |users| ==> users[k].UserEntry?
    requires i < |users| && IsMatch(users[i], EmailKey(b.email.value))
    ensures var rec := NewRecord(b, id, now);
            Handle("POST", Some(b), Some(users), true, id, now)
              == Success((users + [UserEntry(rec)], Summarize(rec, |users| + 1)))
    ensures IsMatch(UserEntry(NewRecord(b, id, now)), EmailKey(b.email.value))
  {
    RecordsNeverCrashScan(users, EmailKey(b.email.value));
    HandleAccepts(b, Some(users), id, now);
    NewRecordMatchesKey(b, id, now);
  }

  /** The record built from a submission matches the submission's own duplicate-check key. */
  lemma NewRecordMatchesKey(b: Submission, id: real, now: string)
    requires AllPresent(b)
    ensures IsMatch(UserEntry(NewRecord(b, id, now)), EmailKey(b.email.value))
  {
    LowerIdempotent(Trim(b.email.value));
  }

  /** Submitting the same payload twice yields two records, not one: the
      second call succeeds too and `totalUsers` grows by one again. */
  lemma SubmitTwice(b: Submission, stored: Option<seq<Entry>>, id1: real, now1: string,
                    id2: real, now2: string)
    requires Handle("POST", Some(b), stored, true, id1, now1).Success?
    ensures var (s1, r1) := Handle("POST", Some(b), stored, true, id1, now1).value;
            var second := Handle("POST", Some(b), Some(s1), true, id2, now2);
            && second.Success?
            && second.value.0 == s1 + [UserEntry(NewRecord(b, id2, now2))]
            && second.value.1.totalUsers == r1.totalUsers + 1
            && |second.value.0| == |LoadStore(stored)| + 2
  {
    var key := EmailKey(b.email.value);
    var users := LoadStore(stored);
    SuccessCondition("POST", b, stored, true, id1, now1);
    HandleAccepts(b, stored, id1, now1);
    var s1 := users + [UserEntry(NewRecord(b, id1, now1))];
    ScanSurvivesAppend(users, key, NewRecord(b, id1, now1));
    HandleAccepts(b, Some(s1), id2, now2);
  }

  /** The fixed 500 comes from the status-less errors only: a failed write or
      a throwing duplicate scan after a valid submission. */
  lemma ErrorMapping(verb: string, b: Submission, stored: Option<seq<Entry>>, writeOk: bool,
                     id: real, now: string)
    ensures var r := Handle(verb, Some(b), stored, writeOk, id, now);
            r == Failure(InternalError) <==>
              verb == "POST" && Valid(b)
              && (!writeOk || FindRepeat(LoadStore(stored), EmailKey(b.email.value)).None?)
  {
    if verb == "POST" {
      ValidationDecides(b, stored, writeOk, id, now);
      var v := Validate(b);
      assert v.Some? ==> v.value != InternalError;
    }
  }

  /** A stored element without a string e-mail that precedes any matching
      record makes a valid request fail with 500. */
  lemma MalformedEntryFailsRequest(b: Submission, users: seq<Entry>, writeOk: bool,
                                   id: real, now: string)
    requires Valid(b)
    requires users != [] && users[0].OtherEntry?
    ensures Handle("POST", Some(b), Some(users), writeOk, id, now) == Failure(InternalError)
  {
    assert FindRepeat(users, EmailKey(b.email.value)).None?;
  }
}
