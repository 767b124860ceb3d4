/** The account serializers of backend/users/serializers.py: registration,
    profile update and password update.

    Field validation follows Django REST framework's CharField pipeline: a
    missing required field gets "This field is required.", an empty one "This
    field may not be blank." and nothing else; otherwise every validator of the
    field runs (the declared ones in order, then the max-length and
    null-character checks CharField adds, then, for an EmailField, its own
    email check) and every failing one contributes its message. The
    serializer's `validate` runs only when no field failed. A value is
    stripped of surrounding whitespace before any check (`Strip`). */
module UserSerializers {
  import opened Common
  import opened UserModels
  import opened Validators
  import Store

  const UsernameTaken := "This username is already taken."
  const EmailTaken := "This email is already taken."
  const InvalidEmail := "Enter a valid email address."
  const NullCharacters := "Null characters are not allowed."
  const PasswordsMustMatch := "Passwords must match."
  const SameAsOld := "New password must be different from the old one."

  // ---------------------------------------------------------------------
  // The field pipeline

  function Messages(r: Result<string, string>): seq<string> {
    if r.Success? then [] else [r.error]
  }

  function When(c: bool, msg: string): seq<string> {
    if c then [msg] else []
  }

  predicate HasNul(v: string) {
    '\0' in v
  }

  /** `str.lstrip()` on ASCII whitespace. */
  function StripStart(s: string): (r: string)
    ensures |r| <= |s| && r == s[|s| - |r|..]
    ensures r == [] || !IsSpace(r[0])
    ensures forall i :: 0 <= i < |s| - |r| ==> IsSpace(s[i])
    decreases |s|
  {
    if s == [] || !IsSpace(s[0]) then s else StripStart(s[1..])
  }

  /** `str.rstrip()` on ASCII whitespace. */
  function StripEnd(s: string): (r: string)
    ensures |r| <= |s| && r == s[..|r|]
    ensures r == [] || !IsSpace(r[|r| - 1])
    ensures forall i :: |r| <= i < |s| ==> IsSpace(s[i])
    decreases |s|
  {
    if s == [] || !IsSpace(s[|s| - 1]) then s else StripEnd(s[..|s| - 1])
  }

  /** `str.strip()`, which CharField applies before any check (trim_whitespace). */
  function Strip(s: string): (r: string)
    ensures r == [] || (!IsSpace(r[0]) && !IsSpace(r[|r| - 1]))
  {
    var t := StripStart(s);
    var r := StripEnd(t);
    assert r == s[|s| - |t|..][..|r|] == s[|s| - |t|..|s| - |t| + |r|];
    r
  }

  /** Stripping is idempotent: a stripped value is left as it is. */
  lemma StripIdempotent(s: string)
    ensures Strip(Strip(s)) == Strip(s)
  {
    var r := Strip(s);
    if r != [] {
      assert StripStart(r) == r;
      assert StripEnd(r) == r;
    }
  }

  /** One CharField: a missing value, then a blank (after stripping) value,
      get their own single message; otherwise the field's `checks` on the
      stripped value are its messages. */
  function Field(value: Option<string>, required: bool, checks: seq<string>): (msgs: seq<string>)
    ensures msgs == [] <==> (value.None? ==> !required) && (value.Some? ==> Strip(value.value) != "" && checks == [])
    ensures value.None? && required ==> msgs == [FieldRequired]
    ensures value.Some? && Strip(value.value) == "" ==> msgs == [FieldBlank]
  {
    match value
    case None => if required then [FieldRequired] else []
    case Some(raw) => if Strip(raw) == "" then [FieldBlank] else checks
  }

  /** A stripped value never ends in a newline, so `$` cannot let one through. */
  lemma StrippedNoFinalNewline(v: string)
    requires v == [] || (!IsSpace(v[0]) && !IsSpace(v[|v| - 1]))
    ensures v == [] || v[|v| - 1] != '\n'
  {
  }

  // What each field accepts, stated on the stripped value.

  predicate UsernameAcceptable(users: seq<User>, unique: bool, v: string) {
    5 <= |v| <= MaxUsernameLength && AllIn(UsernameChar, v) && !(unique && HasUsername(users, v))
  }

  predicate EmailAcceptable(users: seq<User>, unique: bool, v: string, isEmail: string -> bool) {
    v != "" && isEmail(v) && !(unique && HasEmail(users, v)) && |v| <= MaxEmailLength && !HasNul(v)
  }

  predicate NameAcceptable(v: string) {
    2 <= |v| <= MaxNameLength && AllIn(NameChar, v)
  }

  predicate BirthdateAcceptable(v: string) {
    DateShape(v) && ParseDecimal(v[..4]) >= 1900
  }

  predicate PasswordAcceptable(v: string) {
    |v| >= 8 && Contains(Digit, v) && Contains(Upper, v) && Contains(Lower, v) && Contains(Special, v) && !HasNul(v)
  }

  predicate PlainAcceptable(v: string) {
    v != "" && !HasNul(v)
  }

  /** The username checks: `validate_username`, the optional
      UniqueValidator, max_length=30, then the null-character check. */
  function UsernameChecks(users: seq<User>, unique: bool, v: string): seq<string> {
    Messages(ValidateUsername(v)) + When(unique && HasUsername(users, v), UsernameTaken)
    + When(|v| > MaxUsernameLength, MaxLengthMessage(MaxUsernameLength)) + When(HasNul(v), NullCharacters)
  }

  lemma UsernameChecksMeaning(users: seq<User>, unique: bool, v: string)
    requires v == [] || v[|v| - 1] != '\n'
    ensures UsernameChecks(users, unique, v) == [] <==> UsernameAcceptable(users, unique, v)
  {
    UsernameRule(v);
    assert AllIn(UsernameChar, v) ==> !HasNul(v);
  }

  function UsernameMessages(users: seq<User>, unique: bool, value: Option<string>): seq<string> {
    Field(value, true, if value.None? then [] else UsernameChecks(users, unique, Strip(value.value)))
  }

  lemma UsernameMessagesMeaning(users: seq<User>, unique: bool, value: Option<string>)
    ensures UsernameMessages(users, unique, value) == [] <==>
      value.Some? && UsernameAcceptable(users, unique, Strip(value.value))
  {
    if value.Some? {
      StrippedNoFinalNewline(Strip(value.value));
      UsernameChecksMeaning(users, unique, Strip(value.value));
    }
  }

  /** The email checks: `validate_email`, the optional UniqueValidator,
      max_length=100, the null-character check, then EmailField's own email
      check; both email checks are Django's one validator, `isEmail`, so a
      malformed address is reported twice. */
  function EmailChecks(users: seq<User>, unique: bool, v: string, isEmail: string -> bool): seq<string> {
    When(!isEmail(v), InvalidEmail) + When(unique && HasEmail(users, v), EmailTaken)
    + When(|v| > MaxEmailLength, MaxLengthMessage(MaxEmailLength)) + When(HasNul(v), NullCharacters)
    + When(!isEmail(v), InvalidEmail)
  }

  function EmailMessages(users: seq<User>, unique: bool, value: Option<string>, isEmail: string -> bool): seq<string> {
    Field(value, true, if value.None? then [] else EmailChecks(users, unique, Strip(value.value), isEmail))
  }

  lemma EmailMessagesMeaning(users: seq<User>, unique: bool, value: Option<string>, isEmail: string -> bool)
    ensures EmailMessages(users, unique, value, isEmail) == [] <==>
      value.Some? && EmailAcceptable(users, unique, Strip(value.value), isEmail)
    ensures value.Some? && Strip(value.value) != "" && !isEmail(Strip(value.value)) ==>
      var msgs := EmailMessages(users, unique, value, isEmail);
      msgs[0] == InvalidEmail && msgs[|msgs| - 1] == InvalidEmail
  {
  }

  /** The name checks: `validate_name`, max_length=30, the null-character check. */
  function NameChecks(v: string): seq<string> {
    Messages(ValidateName(v)) + When(|v| > MaxNameLength, MaxLengthMessage(MaxNameLength)) + When(HasNul(v), NullCharacters)
  }

  lemma NameChecksMeaning(v: string)
    ensures NameChecks(v) == [] <==> NameAcceptable(v)
  {
    NameRule(v);
    assert AllIn(NameChar, v) ==> !HasNul(v);
  }

  function NameMessages(value: Option<string>): seq<string> {
    Field(value, true, if value.None? then [] else NameChecks(Strip(value.value)))
  }

  lemma NameMessagesMeaning(value: Option<string>)
    ensures NameMessages(value) == [] <==> value.Some? && NameAcceptable(Strip(value.value))
  {
    if value.Some? { NameChecksMeaning(Strip(value.value)); }
  }

  /** A well-shaped date holds only digits, dashes and at most a final newline. */
  lemma DateShapeNoNul(v: string)
    ensures DateShape(v) ==> !HasNul(v)
  {
    if DateShape(v) {
      forall i | 0 <= i < |v| ensures v[i] != '\0' {
        if i < 4 { assert v[..4][i] == v[i]; }
        else if 5 <= i < 7 { assert v[5..7][i - 5] == v[i]; }
        else if 8 <= i < 10 { assert v[8..10][i - 8] == v[i]; }
      }
    }
  }

  /** The birthdate checks: `validate_birthdate`, the null-character check. */
  function BirthdateChecks(v: string): seq<string> {
    Messages(ValidateBirthdate(v)) + When(HasNul(v), NullCharacters)
  }

  lemma BirthdateChecksMeaning(v: string)
    ensures BirthdateChecks(v) == [] <==> BirthdateAcceptable(v)
  {
    BirthdateRule(v);
    DateShapeNoNul(v);
  }

  /** The birthdate field is optional. */
  function BirthdateMessages(value: Option<string>): seq<string> {
    Field(value, false, if value.None? then [] else BirthdateChecks(Strip(value.value)))
  }

  lemma BirthdateMessagesMeaning(value: Option<string>)
    ensures BirthdateMessages(value) == [] <==> value.None? || BirthdateAcceptable(Strip(value.value))
  {
    if value.Some? { BirthdateChecksMeaning(Strip(value.value)); }
  }

  /** The password checks: `validate_password_strength`, the null-character check. */
  function PasswordChecks(v: string): seq<string> {
    Messages(ValidatePassword(v)) + When(HasNul(v), NullCharacters)
  }

  lemma PasswordChecksMeaning(v: string)
    ensures PasswordChecks(v) == [] <==> PasswordAcceptable(v)
  {
    PasswordRule(v);
  }

  function PasswordMessages(value: Option<string>): seq<string> {
    Field(value, true, if value.None? then [] else PasswordChecks(Strip(value.value)))
  }

  lemma PasswordMessagesMeaning(value: Option<string>)
    ensures PasswordMessages(value) == [] <==> value.Some? && PasswordAcceptable(Strip(value.value))
  {
    if value.Some? { PasswordChecksMeaning(Strip(value.value)); }
  }

  /** A CharField without validators of its own. */
  function PlainMessages(value: Option<string>): seq<string> {
    Field(value, true, if value.None? then [] else When(HasNul(Strip(value.value)), NullCharacters))
  }

  lemma PlainMessagesMeaning(value: Option<string>)
    ensures PlainMessages(value) == [] <==> value.Some? && PlainAcceptable(Strip(value.value))
  {
  }

  /** `serializer.errors` from the per-field messages, in declaration order;
      fields without messages do not appear. */
  function ToErrors(fields: seq<(string, seq<string>)>): (e: Errors)
    ensures forall i :: 0 <= i < |fields| && fields[i].1 != [] ==> fields[i].0 in e
    ensures forall k :: k in e ==> exists i :: 0 <= i < |fields| && fields[i].0 == k && fields[i].1 != []
    ensures e == map[] <==> forall i :: 0 <= i < |fields| ==> fields[i].1 == []
    decreases |fields|
  {
    if fields == [] then map[]
    else
      var e := ToErrors(fields[1..]);
      assert forall i :: 1 <= i < |fields| ==> fields[i] == fields[1..][i - 1];
      if fields[0].1 == [] then e else e[fields[0].0 := fields[0].1]
  }

  predicate DistinctNames(fields: seq<(string, seq<string>)>) {
    forall i, j :: 0 <= i < j < |fields| ==> fields[i].0 != fields[j].0
  }

  /** With distinct field names each failing field carries exactly its own messages. */
  lemma {:induction false} ToErrorsLookup(fields: seq<(string, seq<string>)>, i: nat)
    requires DistinctNames(fields) && i < |fields| && fields[i].1 != []
    ensures fields[i].0 in ToErrors(fields) && ToErrors(fields)[fields[i].0] == fields[i].1
    decreases |fields|
  {
    if i > 0 {
      var tail := fields[1..];
      assert tail[i - 1] == fields[i];
      assert DistinctNames(tail) by {
        forall a, b | 0 <= a < b < |tail| ensures tail[a].0 != tail[b].0 {
          assert tail[a] == fields[a + 1] && tail[b] == fields[b + 1];
        }
      }
      ToErrorsLookup(tail, i - 1);
      assert fields[0].0 != fields[i].0;
    }
  }

  // ---------------------------------------------------------------------
  // RegisterSerializer

  /** The request body: absent keys are None. */
  datatype RegisterInput = RegisterInput(
    username: Option<string>,
    email: Option<string>,
    firstName: Option<string>,
    lastName: Option<string>,
    birthdate: Option<string>,
    picture: Option<string>,
    password: Option<string>,
    confirmPassword: Option<string>)

  /** `validated_data`. */
  datatype RegisterData = RegisterData(
    username: string,
    email: string,
    firstName: string,
    lastName: string,
    birthdate: Option<string>,
    picture: Option<string>,
    password: string,
    confirmPassword: string)

  const RegisterFieldNames: seq<string> :=
    ["username", "email", "first_name", "last_name", "birthdate", "password", "confirm_password"]

  function RegisterFields(users: seq<User>, input: RegisterInput, isEmail: string -> bool)
    : (fields: seq<(string, seq<string>)>)
    ensures |fields| == 7 && forall i :: 0 <= i < 7 ==> fields[i].0 == RegisterFieldNames[i]
  {
    [ ("username", UsernameMessages(users, true, input.username)),
      ("email", EmailMessages(users, true, input.email, isEmail)),
      ("first_name", NameMessages(input.firstName)),
      ("last_name", NameMessages(input.lastName)),
      ("birthdate", BirthdateMessages(input.birthdate)),
      ("password", PasswordMessages(input.password)),
      ("confirm_password", PlainMessages(input.confirmPassword)) ]
  }

  /** The seven field names differ (already in their first letters). */
  lemma RegisterNamesDistinct(fields: seq<(string, seq<string>)>)
    requires |fields| == 7 && forall i :: 0 <= i < 7 ==> fields[i].0 == RegisterFieldNames[i]
    ensures DistinctNames(fields)
  {
    forall i, j | 0 <= i < j < 7 ensures fields[i].0 != fields[j].0 {
      assert RegisterFieldNames[i][0] != RegisterFieldNames[j][0];
    }
  }

  predicate RegisterFieldsPass(users: seq<User>, input: RegisterInput, isEmail: string -> bool) {
    && UsernameMessages(users, true, input.username) == []
    && EmailMessages(users, true, input.email, isEmail) == []
    && NameMessages(input.firstName) == []
    && NameMessages(input.lastName) == []
    && BirthdateMessages(input.birthdate) == []
    && PasswordMessages(input.password) == []
    && PlainMessages(input.confirmPassword) == []
  }

  /** The value of a field that is present, "" for one that is absent. */
  function Get(value: Option<string>): string {
    if value.Some? then value.value else ""
  }

  /** `validated_data` of a registration: every present field stripped. */
  function RegisterCleaned(input: RegisterInput): RegisterData {
    RegisterData(Strip(Get(input.username)), Strip(Get(input.email)), Strip(Get(input.firstName)),
                 Strip(Get(input.lastName)), if input.birthdate.Some? then Some(Strip(input.birthdate.value)) else None,
                 input.picture, Strip(Get(input.password)), Strip(Get(input.confirmPassword)))
  }

  /** `is_valid()`: field errors, else `validate`'s password-match check. */
  function RegisterValidate(users: seq<User>, input: RegisterInput, isEmail: string -> bool)
    : (r: Result<RegisterData, Errors>)
  {
    if !RegisterFieldsPass(users, input, isEmail) then Failure(ToErrors(RegisterFields(users, input, isEmail)))
    else if Strip(Get(input.password)) != Strip(Get(input.confirmPassword)) then Failure(map["password" := [PasswordsMustMatch]])
    else Success(RegisterCleaned(input))
  }

  lemma RegisterSucceeds(users: seq<User>, input: RegisterInput, isEmail: string -> bool)
    ensures RegisterValidate(users, input, isEmail).Success? <==>
      RegisterFieldsPass(users, input, isEmail) && Strip(Get(input.password)) == Strip(Get(input.confirmPassword))
  {
  }

  /** Registration is accepted exactly when every (stripped) field meets its
      rules and the two passwords agree. */
  lemma RegisterAcceptance(users: seq<User>, input: RegisterInput, isEmail: string -> bool)
    ensures RegisterValidate(users, input, isEmail).Success? <==>
      && input.username.Some? && UsernameAcceptable(users, true, Strip(input.username.value))
      && input.email.Some? && EmailAcceptable(users, true, Strip(input.email.value), isEmail)
      && input.firstName.Some? && NameAcceptable(Strip(input.firstName.value))
      && input.lastName.Some? && NameAcceptable(Strip(input.lastName.value))
      && (input.birthdate.Some? ==> BirthdateAcceptable(Strip(input.birthdate.value)))
      && input.password.Some? && PasswordAcceptable(Strip(input.password.value))
      && input.confirmPassword.Some? && Strip(input.confirmPassword.value) == Strip(input.password.value)
  {
    UsernameMessagesMeaning(users, true, input.username);
    EmailMessagesMeaning(users, true, input.email, isEmail);
    NameMessagesMeaning(input.firstName);
    NameMessagesMeaning(input.lastName);
    BirthdateMessagesMeaning(input.birthdate);
    PasswordMessagesMeaning(input.password);
    PlainMessagesMeaning(input.confirmPassword);
    RegisterSucceeds(users, input, isEmail);
  }

  /** When every field passes but the passwords differ, the only error is the
      mismatch, reported on `password`. */
  lemma RegisterMismatch(users: seq<User>, input: RegisterInput, isEmail: string -> bool)
    requires RegisterFieldsPass(users, input, isEmail)
    requires input.password.Some? && input.confirmPassword.Some?
    requires Strip(input.password.value) != Strip(input.confirmPassword.value)
    ensures RegisterValidate(users, input, isEmail) == Failure(map["password" := [PasswordsMustMatch]])
  {
  }

  /** When any field fails, the object-level check does not run: the errors
      are exactly the field errors, each failing field carries exactly its own
      messages, and no passing field appears. */
  lemma RegisterFieldErrorsFirst(users: seq<User>, input: RegisterInput, isEmail: string -> bool)
    requires !RegisterFieldsPass(users, input, isEmail)
    ensures RegisterValidate(users, input, isEmail).Failure?
    ensures RegisterValidate(users, input, isEmail).error == ToErrors(RegisterFields(users, input, isEmail))
    ensures forall i :: 0 <= i < 7 && RegisterFields(users, input, isEmail)[i].1 != [] ==>
      RegisterValidate(users, input, isEmail).error[RegisterFieldNames[i]] == RegisterFields(users, input, isEmail)[i].1
    ensures forall k :: k in RegisterValidate(users, input, isEmail).error ==>
      exists i :: 0 <= i < 7 && RegisterFieldNames[i] == k && RegisterFields(users, input, isEmail)[i].1 != []
  {
    var fields := RegisterFields(users, input, isEmail);
    RegisterNamesDistinct(fields);
    forall i | 0 <= i < 7 && fields[i].1 != [] ensures ToErrors(fields)[RegisterFieldNames[i]] == fields[i].1 {
      ToErrorsLookup(fields, i);
    }
  }

  /** `create`: copies the validated fields and stores the password only
      through `set_password` (`hasher`); the new row gets the next key. */
  function RegisterCreate(d: RegisterData, id: Id, hasher: string -> string): (u: User)
    ensures u.id == id && u.username == d.username && u.email == d.email
    ensures u.firstName == d.firstName && u.lastName == d.lastName
    ensures u.birthdate == d.birthdate && u.picture == d.picture
    ensures u.password == hasher(d.password)
    ensures !u.isOAuth && !u.isOnline
  {
    NewUser(id, d.username, d.email, d.firstName, d.lastName, d.birthdate, d.picture, hasher(d.password))
  }

  /** A birthdate that passed validation has been stripped, so it is exactly
      `YYYY-MM-DD` with a year from 1900: the date column takes it exactly
      when its month and day exist, and refuses it with the invalid-date
      message otherwise. */
  lemma ValidatedBirthdateForm(raw: string)
    requires BirthdateAcceptable(Strip(raw))
    ensures IsoDateForm(Strip(raw))
    ensures BirthdateError(Strip(raw)) == InvalidDateMessage(Strip(raw))
    ensures var v := Strip(raw);
      IsCalendarDate(v) <==>
        1 <= ParseDecimal(v[5..7]) <= 12 && 1 <= ParseDecimal(v[8..10]) <= DaysInMonth(ParseDecimal(v[..4]), ParseDecimal(v[5..7]))
  {
    var v := Strip(raw);
    StrippedNoFinalNewline(v);
    assert AllIn(Digit, v[..4]) && AllIn(Digit, v[5..7]) && AllIn(Digit, v[8..10]);
  }

  /** `1900-13-99` passes the birthdate field, yet the date column refuses it
      when the row is written, on INSERT and on UPDATE alike. */
  lemma ImpossibleBirthdateRefusedAtSave(users: seq<User>, u: User)
    requires u.birthdate == Some("1900-13-99")
    ensures BirthdateMessages(u.birthdate) == []
    ensures InsertRow(users, u) == Failure(InvalidDateMessage("1900-13-99"))
    ensures SaveRow(users, u) == Failure(InvalidDateMessage("1900-13-99"))
  {
    var b := "1900-13-99";
    BirthdateUncheckedExample();
    assert StripStart(b) == b && StripEnd(b) == b;
    assert !HasNul(b) by { assert forall i :: 0 <= i < |b| ==> b[i] != '\0'; }
    assert b[5..7] == "13" && "13"[..1] == "1" && "1"[..0] == "";
    assert ParseDecimal(b[5..7]) == 13;
    assert IsoDateForm(b) by { assert b[..4] == "1900" && b[8..10] == "99"; }
  }

  /** After validation the INSERT can fail only on the birthdate: the username
      and email are not in the table (the UniqueValidators ran on the same
      table), and every column fits its declared width. */
  lemma RegisterInsertOutcome(users: seq<User>, input: RegisterInput, isEmail: string -> bool,
                              next: Id, hasher: string -> string)
    requires RegisterValidate(users, input, isEmail).Success?
    ensures var d := RegisterValidate(users, input, isEmail).value;
      var r := InsertRow(users, RegisterCreate(d, next, hasher));
      && (r.Success? <==> StorableBirthdate(d.birthdate))
      && (r.Failure? ==> r == Failure(InvalidDateMessage(d.birthdate.value)))
    ensures WithinFieldLimits(RegisterCreate(RegisterValidate(users, input, isEmail).value, next, hasher))
  {
    RegisterFieldsFit(users, input, isEmail, next, hasher);
    UsernameMessagesMeaning(users, true, input.username);
    EmailMessagesMeaning(users, true, input.email, isEmail);
    BirthdateMessagesMeaning(input.birthdate);
    if input.birthdate.Some? {
      ValidatedBirthdateForm(input.birthdate.value);
    }
  }

  lemma RegisterFieldsFit(users: seq<User>, input: RegisterInput, isEmail: string -> bool,
                          next: Id, hasher: string -> string)
    requires RegisterValidate(users, input, isEmail).Success?
    ensures WithinFieldLimits(RegisterCreate(RegisterValidate(users, input, isEmail).value, next, hasher))
  {
    UsernameMessagesMeaning(users, true, input.username);
    EmailMessagesMeaning(users, true, input.email, isEmail);
    NameMessagesMeaning(input.firstName);
    NameMessagesMeaning(input.lastName);
  }

  /** `create` against the store: build the user, INSERT it with the next key. */
  method RegisterSave(db: Store.Database, d: RegisterData, hasher: string -> string) returns (r: Result<User, string>)
    requires db.Valid()
    modifies db
    ensures db.Valid()
    ensures InsertRow(old(db.users), RegisterCreate(d, old(db.nextUserId), hasher)).Success? ==>
      r == Success(RegisterCreate(d, old(db.nextUserId), hasher)) &&
      db.users == old(db.users) + [r.value] && db.nextUserId == old(db.nextUserId) + 1
    ensures InsertRow(old(db.users), RegisterCreate(d, old(db.nextUserId), hasher)).Failure? ==>
      r == Failure(InsertRow(old(db.users), RegisterCreate(d, old(db.nextUserId), hasher)).error) &&
      db.users == old(db.users) && db.nextUserId == old(db.nextUserId)
    ensures db.blacklist == old(db.blacklist) && db.friendships == old(db.friendships)
    ensures db.conversations == old(db.conversations) && db.messages == old(db.messages)
    ensures db.nextFriendshipId == old(db.nextFriendshipId) && db.nextConversationId == old(db.nextConversationId)
    ensures db.nextMessageId == old(db.nextMessageId)
  {
    var u := RegisterCreate(d, db.nextUserId, hasher);
    var inserted := InsertRow(db.users, u);
    if inserted.Failure? {
      return Failure(inserted.error);
    }
    InsertRowPreservesValid(db.users, u, db.nextUserId);
    db.ReplaceUsers(inserted.value, db.nextUserId + 1);
    return Success(u);
  }

  // ---------------------------------------------------------------------
  // UpdateProfileSerializer

  datatype ProfileInput = ProfileInput(
    username: Option<string>,
    email: Option<string>,
    firstName: Option<string>,
    lastName: Option<string>,
    birthdate: Option<string>)

  datatype ProfileData = ProfileData(
    username: string,
    email: string,
    firstName: string,
    lastName: string,
    birthdate: Option<string>)

  const ProfileFieldNames: seq<string> := ["username", "email", "first_name", "last_name", "birthdate"]

  /** The same fields as registration, without the uniqueness validators
      (the table's unique columns are left to the database). */
  function ProfileFields(input: ProfileInput, isEmail: string -> bool): (fields: seq<(string, seq<string>)>)
    ensures |fields| == 5 && forall i :: 0 <= i < 5 ==> fields[i].0 == ProfileFieldNames[i]
  {
    [ ("username", UsernameMessages([], false, input.username)),
      ("email", EmailMessages([], false, input.email, isEmail)),
      ("first_name", NameMessages(input.firstName)),
      ("last_name", NameMessages(input.lastName)),
      ("birthdate", BirthdateMessages(input.birthdate)) ]
  }

  predicate ProfileFieldsPass(input: ProfileInput, isEmail: string -> bool) {
    && UsernameMessages([], false, input.username) == []
    && EmailMessages([], false, input.email, isEmail) == []
    && NameMessages(input.firstName) == []
    && NameMessages(input.lastName) == []
    && BirthdateMessages(input.birthdate) == []
  }

  /** `is_valid()` of the profile form; `validated_data` holds the stripped values. */
  function ProfileValidate(input: ProfileInput, isEmail: string -> bool): (r: Result<ProfileData, Errors>)
  {
    if !ProfileFieldsPass(input, isEmail) then Failure(ToErrors(ProfileFields(input, isEmail)))
    else Success(ProfileData(Strip(Get(input.username)), Strip(Get(input.email)), Strip(Get(input.firstName)),
                             Strip(Get(input.lastName)),
                             if input.birthdate.Some? then Some(Strip(input.birthdate.value)) else None))
  }

  /** The profile form is accepted exactly when every stripped field meets
      the same rules as at registration, with no uniqueness check. */
  lemma ProfileAcceptance(input: ProfileInput, isEmail: string -> bool)
    ensures ProfileValidate(input, isEmail).Success? <==>
      && input.username.Some? && UsernameAcceptable([], false, Strip(input.username.value))
      && input.email.Some? && EmailAcceptable([], false, Strip(input.email.value), isEmail)
      && input.firstName.Some? && NameAcceptable(Strip(input.firstName.value))
      && input.lastName.Some? && NameAcceptable(Strip(input.lastName.value))
      && (input.birthdate.Some? ==> BirthdateAcceptable(Strip(input.birthdate.value)))
  {
    UsernameMessagesMeaning([], false, input.username);
    EmailMessagesMeaning([], false, input.email, isEmail);
    NameMessagesMeaning(input.firstName);
    NameMessagesMeaning(input.lastName);
    BirthdateMessagesMeaning(input.birthdate);
  }

  /** A rejected profile form reports each failing field with exactly its own messages. */
  lemma ProfileFieldErrors(input: ProfileInput, isEmail: string -> bool)
    ensures ProfileValidate(input, isEmail).Failure? ==>
      forall i :: 0 <= i < 5 && ProfileFields(input, isEmail)[i].1 != [] ==>
        ProfileValidate(input, isEmail).error[ProfileFieldNames[i]] == ProfileFields(input, isEmail)[i].1
  {
    var fields := ProfileFields(input, isEmail);
    assert DistinctNames(fields) by {
      forall i, j | 0 <= i < j < 5 ensures fields[i].0 != fields[j].0 {
        assert ProfileFieldNames[i][0] != ProfileFieldNames[j][0];
      }
    }
    forall i | 0 <= i < 5 && fields[i].1 != [] ensures ToErrors(fields)[ProfileFieldNames[i]] == fields[i].1 {
      ToErrorsLookup(fields, i);
    }
  }

  /** `save` on the fetched row: username and email are replaced only for a
      user who did not sign up through OAuth; names and birthdate always are
      (an absent birthdate clears it); every other column is kept. */
  function ApplyProfile(u: User, d: ProfileData): (r: User)
    ensures !u.isOAuth ==> r.username == d.username && r.email == d.email
    ensures u.isOAuth ==> r.username == u.username && r.email == u.email
    ensures r.firstName == d.firstName && r.lastName == d.lastName && r.birthdate == d.birthdate
    ensures r.(username := u.username, email := u.email, firstName := u.firstName,
               lastName := u.lastName, birthdate := u.birthdate) == u
  {
    var r := u.(firstName := d.firstName, lastName := d.lastName, birthdate := d.birthdate);
    if u.isOAuth then r else r.(username := d.username, email := d.email)
  }

  /** Applying the same update twice changes nothing more. */
  lemma ApplyProfileIdempotent(u: User, d: ProfileData)
    ensures ApplyProfile(ApplyProfile(u, d), d) == ApplyProfile(u, d)
  {
  }

  /** The whole of `save`: fetch the row by the requester's email, apply the
      update, write the row back. */
  function UpdateProfile(users: seq<User>, requestEmail: string, d: ProfileData): (r: Result<seq<User>, string>)
    ensures !HasEmail(users, requestEmail) ==> r == Failure(RowMissing)
  {
    match FindByEmail(users, requestEmail)
    case None => Failure(RowMissing)
    case Some(row) => SaveRow(users, ApplyProfile(row, d))
  }

  /** A successful profile update keeps the table valid and changes exactly
      the requester's row; for an OAuth user it can never fail on
      uniqueness, since username and email stay as they were, so it fails
      exactly when the new birthdate is not a real date. */
  lemma UpdateProfileValid(users: seq<User>, requestEmail: string, d: ProfileData)
    requires UsersTableValid(users)
    ensures UpdateProfile(users, requestEmail, d).Success? ==> UsersTableValid(UpdateProfile(users, requestEmail, d).value)
    ensures UpdateProfile(users, requestEmail, d).Success? ==>
      |UpdateProfile(users, requestEmail, d).value| == |users| &&
      forall i :: 0 <= i < |users| && users[i].email != requestEmail ==> UpdateProfile(users, requestEmail, d).value[i] == users[i]
    ensures UpdateProfile(users, requestEmail, d).Success? ==>
      forall i :: 0 <= i < |users| && users[i].email == requestEmail ==>
        UpdateProfile(users, requestEmail, d).value[i] == ApplyProfile(users[i], d)
    ensures HasEmail(users, requestEmail) && FindByEmail(users, requestEmail).value.isOAuth ==>
      (UpdateProfile(users, requestEmail, d).Success? <==> StorableBirthdate(d.birthdate))
  {
    if HasEmail(users, requestEmail) {
      var row := FindByEmail(users, requestEmail).value;
      var u := ApplyProfile(row, d);
      SaveRowPreservesValid(users, u);
      var k :| 0 <= k < |users| && users[k] == row;
      if UpdateProfile(users, requestEmail, d).Success? {
        assert forall j :: 0 <= j < |users| && users[j].id == row.id ==> j == k;
      }
    }
  }

  method SaveProfile(db: Store.Database, requestEmail: string, d: ProfileData) returns (r: Result<User, string>)
    requires db.Valid()
    modifies db
    ensures db.Valid()
    ensures UpdateProfile(old(db.users), requestEmail, d).Success? ==>
      r.Success? && db.users == UpdateProfile(old(db.users), requestEmail, d).value &&
      r.value == ApplyProfile(FindByEmail(old(db.users), requestEmail).value, d)
    ensures UpdateProfile(old(db.users), requestEmail, d).Failure? ==>
      r == Failure(UpdateProfile(old(db.users), requestEmail, d).error) && db.users == old(db.users)
    ensures db.blacklist == old(db.blacklist) && db.friendships == old(db.friendships)
    ensures db.conversations == old(db.conversations) && db.messages == old(db.messages)
    ensures db.nextUserId == old(db.nextUserId) && db.nextFriendshipId == old(db.nextFriendshipId)
    ensures db.nextConversationId == old(db.nextConversationId) && db.nextMessageId == old(db.nextMessageId)
  {
    var found := FindByEmail(db.users, requestEmail);
    if found.None? {
      return Failure(RowMissing);
    }
    var u := ApplyProfile(found.value, d);
    var saved := db.SaveUser(u);
    if saved.Failure? {
      return Failure(saved.error);
    }
    return Success(u);
  }

  // ---------------------------------------------------------------------
  // UpdatePasswordSerializer

  /** `is_valid()` for a password change by `user`: field errors first, then
      the mismatch, then `check_password` against the current password. */
  function PasswordUpdateValidate(user: User, newPassword: Option<string>, confirm: Option<string>,
                                  checkPassword: (User, string) -> bool): (r: Result<string, Errors>)
  {
    var newMsgs := PasswordMessages(newPassword);
    var confirmMsgs := PlainMessages(confirm);
    if newMsgs != [] || confirmMsgs != [] then
      Failure(ToErrors([("new_password", newMsgs), ("confirm_password", confirmMsgs)]))
    else if Strip(Get(newPassword)) != Strip(Get(confirm)) then Failure(map["new_password" := [PasswordsMustMatch]])
    else if checkPassword(user, Strip(Get(newPassword))) then Failure(map["new_password" := [SameAsOld]])
    else Success(Strip(Get(newPassword)))
  }

  /** A password change is accepted exactly when the new password meets the
      strength rules, the confirmation matches it and it is not the current
      password. Once both fields pass, a mismatch is reported even when the
      new password also equals the old one, and the "different" rule applies
      only to matching passwords. */
  lemma PasswordUpdateRules(user: User, newPassword: Option<string>, confirm: Option<string>,
                            checkPassword: (User, string) -> bool)
    ensures PasswordUpdateValidate(user, newPassword, confirm, checkPassword).Success? <==>
      && newPassword.Some? && PasswordAcceptable(Strip(newPassword.value))
      && confirm.Some? && Strip(confirm.value) == Strip(newPassword.value)
      && !checkPassword(user, Strip(newPassword.value))
    ensures PasswordUpdateValidate(user, newPassword, confirm, checkPassword).Success? ==>
      PasswordUpdateValidate(user, newPassword, confirm, checkPassword).value == Strip(newPassword.value)
    ensures PasswordMessages(newPassword) == [] && PlainMessages(confirm) == [] ==>
      (Strip(newPassword.value) != Strip(confirm.value) ==>
         PasswordUpdateValidate(user, newPassword, confirm, checkPassword) ==
         Failure(map["new_password" := [PasswordsMustMatch]])) &&
      (Strip(newPassword.value) == Strip(confirm.value) && checkPassword(user, Strip(newPassword.value)) ==>
         PasswordUpdateValidate(user, newPassword, confirm, checkPassword) == Failure(map["new_password" := [SameAsOld]]))
  {
    PasswordMessagesMeaning(newPassword);
    PlainMessagesMeaning(confirm);
  }

  /** `set_password` on the request's user object, then `save`. */
  function SetPassword(u: User, newPassword: string, hasher: string -> string): (r: User)
    ensures r.password == hasher(newPassword)
    ensures r.(password := u.password) == u
  {
    u.(password := hasher(newPassword))
  }

  /** When `checkPassword` is the hash comparison, the saved user passes the
      check with the new password and, for a hash without collisions on the
      two, no longer with the old raw password. */
  lemma SetPasswordChecks(u: User, oldRaw: string, newPassword: string, hasher: string -> string,
                          checkPassword: (User, string) -> bool)
    requires forall v: User, p: string :: checkPassword(v, p) <==> v.password == hasher(p)
    requires hasher(oldRaw) != hasher(newPassword)
    ensures checkPassword(SetPassword(u, newPassword, hasher), newPassword)
    ensures !checkPassword(SetPassword(u, newPassword, hasher), oldRaw)
  {
  }

  method SavePassword(db: Store.Database, requestUser: User, newPassword: string, hasher: string -> string)
    returns (r: Result<User, string>)
    requires db.Valid()
    modifies db
    ensures db.Valid()
    ensures SaveRow(old(db.users), SetPassword(requestUser, newPassword, hasher)).Success? ==>
      r == Success(SetPassword(requestUser, newPassword, hasher)) &&
      db.users == SaveRow(old(db.users), SetPassword(requestUser, newPassword, hasher)).value
    ensures SaveRow(old(db.users), SetPassword(requestUser, newPassword, hasher)).Failure? ==>
      r == Failure(SaveRow(old(db.users), SetPassword(requestUser, newPassword, hasher)).error) && db.users == old(db.users)
    ensures db.blacklist == old(db.blacklist) && db.friendships == old(db.friendships)
    ensures db.conversations == old(db.conversations) && db.messages == old(db.messages)
    ensures db.nextUserId == old(db.nextUserId) && db.nextFriendshipId == old(db.nextFriendshipId)
    ensures db.nextConversationId == old(db.nextConversationId) && db.nextMessageId == old(db.nextMessageId)
  {
    var u := SetPassword(requestUser, newPassword, hasher);
    var saved := db.SaveUser(u);
    if saved.Failure? {
      return Failure(saved.error);
    }
    return Success(u);
  }
}
