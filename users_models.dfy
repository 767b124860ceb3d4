/** The `Users` and `Blacklist` records of backend/users/models.py and the
    table-level rules the database enforces on them. */
module UserModels {
  import opened Common

  const MaxUsernameLength := 30
  const MaxEmailLength := 100
  const MaxNameLength := 30

  /** One row of the users table. `password` is the stored hash, never the
      raw text; `birthdate` is the ISO date (YYYY-MM-DD) or absent. */
  datatype User = User(
    id: Id,
    username: string,
    email: string,
    firstName: string,
    lastName: string,
    birthdate: Option<string>,
    picture: Option<string>,
    password: string,
    isOAuth: bool,
    isOnline: bool)

  /** A user as first saved: `IsOAuth` and `IsOnline` take their defaults. */
  function NewUser(id: Id, username: string, email: string, firstName: string, lastName: string,
                   birthdate: Option<string>, picture: Option<string>, password: string): (u: User)
    ensures !u.isOAuth && !u.isOnline
    ensures u.id == id && u.username == username && u.email == email && u.password == password
  {
    User(id, username, email, firstName, lastName, birthdate, picture, password, false, false)
  }

  /** The column widths declared on the model. */
  predicate WithinFieldLimits(u: User) {
    && |u.username| <= MaxUsernameLength
    && |u.email| <= MaxEmailLength
    && |u.firstName| <= MaxNameLength
    && |u.lastName| <= MaxNameLength
  }

  // ---------------------------------------------------------------------
  // The birthdate column: `DateField(null=True, blank=True)`

  /** The Gregorian leap-year rule of Python's `datetime`. */
  predicate IsLeapYear(y: nat) {
    y % 4 == 0 && (y % 100 != 0 || y % 400 == 0)
  }

  function DaysInMonth(y: nat, m: nat): (n: nat)
    requires 1 <= m <= 12
    ensures 28 <= n <= 31
    ensures n == 29 <==> m == 2 && IsLeapYear(y)
  {
    if m == 2 then (if IsLeapYear(y) then 29 else 28)
    else if m == 4 || m == 6 || m == 9 || m == 11 then 30
    else 31
  }

  /** Exactly `YYYY-MM-DD` in ASCII digits, the form in which a date is
      written and read back. */
  predicate IsoDateForm(s: string) {
    && |s| == 10 && s[4] == '-' && s[7] == '-'
    && AllAsciiDigits(s[..4]) && AllAsciiDigits(s[5..7]) && AllAsciiDigits(s[8..10])
  }

  /** A date `datetime.date` accepts: year from 1, month 1 to 12, day within
      the month. */
  predicate IsCalendarDate(s: string) {
    && IsoDateForm(s)
    && 1 <= ParseDecimal(s[..4])
    && 1 <= ParseDecimal(s[5..7]) <= 12
    && 1 <= ParseDecimal(s[8..10]) <= DaysInMonth(ParseDecimal(s[..4]), ParseDecimal(s[5..7]))
  }

  /** The column accepts NULL or a real date. */
  predicate StorableBirthdate(b: Option<string>) {
    b.None? || IsCalendarDate(b.value)
  }

  function InvalidDateMessage(v: string): string {
    "\U{201C}" + v + "\U{201D} value has the correct format (YYYY-MM-DD) but it is an invalid date."
  }

  function DateFormatMessage(v: string): string {
    "\U{201C}" + v + "\U{201D} value has an invalid date format. It must be in YYYY-MM-DD format."
  }

  /** The ValidationError `DateField.to_python` raises while `save()` prepares
      the value: well-formed but impossible, or not a date at all. */
  function BirthdateError(v: string): string {
    if IsoDateForm(v) then InvalidDateMessage(v) else DateFormatMessage(v)
  }

  /** The value of the two-digit and the four-digit fields of a date. */
  lemma TwoDigits(s: string)
    requires |s| == 2 && AllAsciiDigits(s)
    ensures ParseDecimal(s) == 10 * DigitValue(s[0]) + DigitValue(s[1])
  {
    var p := s[..1];
    assert p[..0] == [] && p[0] == s[0];
    assert ParseDecimal(s) == 10 * ParseDecimal(p) + DigitValue(s[1]);
  }

  lemma FourDigits(s: string)
    requires |s| == 4 && AllAsciiDigits(s)
    ensures ParseDecimal(s) == 1000 * DigitValue(s[0]) + 100 * DigitValue(s[1]) + 10 * DigitValue(s[2]) + DigitValue(s[3])
  {
    var p := s[..3];
    assert p[..2] == s[..2] && p[2] == s[2];
    assert ParseDecimal(s) == 10 * ParseDecimal(p) + DigitValue(s[3]);
    assert ParseDecimal(p) == 10 * ParseDecimal(s[..2]) + DigitValue(s[2]);
    TwoDigits(s[..2]);
  }

  /** 2000 is a leap year (divisible by 400), so 29 February exists. */
  lemma LeapDayIn2000()
    ensures IsCalendarDate("2000-02-29")
  {
    var s := "2000-02-29";
    FourDigits(s[..4]);
    TwoDigits(s[5..7]);
    TwoDigits(s[8..10]);
    assert ParseDecimal(s[..4]) == 2000 && ParseDecimal(s[5..7]) == 2 && ParseDecimal(s[8..10]) == 29;
  }

  /** 1900 is not a leap year (divisible by 100, not by 400). */
  lemma NoLeapDayIn1900()
    ensures IsoDateForm("1900-02-29") && !IsCalendarDate("1900-02-29")
  {
    var s := "1900-02-29";
    FourDigits(s[..4]);
    TwoDigits(s[5..7]);
    TwoDigits(s[8..10]);
    assert ParseDecimal(s[..4]) == 1900 && ParseDecimal(s[5..7]) == 2 && ParseDecimal(s[8..10]) == 29;
  }

  /** February never has 30 days. */
  lemma NoThirtiethOfFebruary()
    ensures IsoDateForm("1990-02-30") && !IsCalendarDate("1990-02-30")
  {
    var s := "1990-02-30";
    TwoDigits(s[5..7]);
    TwoDigits(s[8..10]);
    assert ParseDecimal(s[5..7]) == 2 && ParseDecimal(s[8..10]) == 30;
  }

  /** The users table: rows in primary-key order, username and email unique,
      every birthdate a real date. */
  ghost predicate UsersTableValid(users: seq<User>) {
    && (forall i, j :: 0 <= i < j < |users| ==> users[i].id < users[j].id)
    && (forall i, j :: 0 <= i < j < |users| ==> users[i].username != users[j].username)
    && (forall i, j :: 0 <= i < j < |users| ==> users[i].email != users[j].email)
    && (forall i :: 0 <= i < |users| ==> StorableBirthdate(users[i].birthdate))
  }

  /** `str(user)`. */
  function Display(u: User): string {
    u.username
  }

  /** Because usernames are unique, `str` tells any two users of the table apart. */
  lemma DisplayIdentifiesUser(users: seq<User>, i: nat, j: nat)
    requires UsersTableValid(users)
    requires i < |users| && j < |users|
    ensures Display(users[i]) == Display(users[j]) <==> i == j
  {
    if i < j {
      assert users[i].username != users[j].username;
    } else if j < i {
      assert users[j].username != users[i].username;
    }
  }

  predicate HasUsername(users: seq<User>, name: string) {
    exists i :: 0 <= i < |users| && users[i].username == name
  }

  predicate HasEmail(users: seq<User>, email: string) {
    exists i :: 0 <= i < |users| && users[i].email == email
  }

  predicate HasId(users: seq<User>, id: Id) {
    exists i :: 0 <= i < |users| && users[i].id == id
  }

  /** `Users.objects.get(username=name)` (None for DoesNotExist). */
  function FindByUsername(users: seq<User>, name: string): (r: Option<User>)
    ensures r.Some? <==> HasUsername(users, name)
    ensures r.Some? ==> r.value in users && r.value.username == name
    decreases |users|
  {
    if users == [] then None
    else if users[0].username == name then Some(users[0])
    else
      var r := FindByUsername(users[1..], name);
      assert HasUsername(users, name) ==> users[0].username == name || HasUsername(users[1..], name) by {
        if HasUsername(users, name) {
          var i :| 0 <= i < |users| && users[i].username == name;
          if i > 0 { assert users[1..][i - 1].username == name; }
        }
      }
      r
  }

  /** `Users.objects.get(pk=id)` (None for DoesNotExist). */
  function FindById(users: seq<User>, id: Id): (r: Option<User>)
    ensures r.Some? <==> HasId(users, id)
    ensures r.Some? ==> r.value in users && r.value.id == id
    decreases |users|
  {
    if users == [] then None
    else if users[0].id == id then Some(users[0])
    else
      var r := FindById(users[1..], id);
      assert HasId(users, id) ==> users[0].id == id || HasId(users[1..], id) by {
        if HasId(users, id) {
          var i :| 0 <= i < |users| && users[i].id == id;
          if i > 0 { assert users[1..][i - 1].id == id; }
        }
      }
      r
  }

  /** `Users.objects.get(email=email)` (None for DoesNotExist). */
  function FindByEmail(users: seq<User>, email: string): (r: Option<User>)
    ensures r.Some? <==> HasEmail(users, email)
    ensures r.Some? ==> r.value in users && r.value.email == email
    decreases |users|
  {
    if users == [] then None
    else if users[0].email == email then Some(users[0])
    else
      var r := FindByEmail(users[1..], email);
      assert HasEmail(users, email) ==> users[0].email == email || HasEmail(users[1..], email) by {
        if HasEmail(users, email) {
          var i :| 0 <= i < |users| && users[i].email == email;
          if i > 0 { assert users[1..][i - 1].email == email; }
        }
      }
      r
  }

  /** The primary keys of the table: what a foreign key to `Users` may name. */
  function UserIds(users: seq<User>): (ids: set<Id>)
    ensures forall i :: 0 <= i < |users| ==> users[i].id in ids
    ensures forall x :: x in ids ==> HasId(users, x)
  {
    set i | 0 <= i < |users| :: users[i].id
  }

  /** In a valid table a username names at most one row. */
  lemma UsernameDeterminesUser(users: seq<User>, u: User, v: User)
    requires UsersTableValid(users)
    requires u in users && v in users && u.username == v.username
    ensures u == v
  {
    var i :| 0 <= i < |users| && users[i] == u;
    var j :| 0 <= j < |users| && users[j] == v;
    if i != j { assert false; }
  }

  /** Position of the row with primary key `id`, or -1. */
  function IndexOfUser(users: seq<User>, id: Id): (k: int)
    ensures -1 <= k < |users|
    ensures k == -1 <==> !HasId(users, id)
    ensures k >= 0 ==> users[k].id == id
    decreases |users|
  {
    if users == [] then -1
    else if users[0].id == id then 0
    else
      var k := IndexOfUser(users[1..], id);
      assert forall i :: 1 <= i < |users| ==> users[i] == users[1..][i - 1];
      if k == -1 then -1 else k + 1
  }

  const IntegrityError := "UNIQUE constraint failed"
  const RowMissing := "Users matching query does not exist."

  /** Another row than the one with primary key `id` already uses `name`/`email`. */
  predicate UsernameTakenByOther(users: seq<User>, id: Id, name: string) {
    exists i :: 0 <= i < |users| && users[i].id != id && users[i].username == name
  }

  predicate EmailTakenByOther(users: seq<User>, id: Id, email: string) {
    exists i :: 0 <= i < |users| && users[i].id != id && users[i].email == email
  }

  /** `user.save()` for a user that has a primary key: an UPDATE of every column
      of that row. Preparing the birthdate for the date column comes first and
      raises on a string that is not a real date; the database then refuses a
      new username or email that belongs to another row. */
  function SaveRow(users: seq<User>, u: User): (r: Result<seq<User>, string>)
    ensures r.Failure? <==>
      || !StorableBirthdate(u.birthdate) || !HasId(users, u.id)
      || UsernameTakenByOther(users, u.id, u.username) || EmailTakenByOther(users, u.id, u.email)
    ensures !StorableBirthdate(u.birthdate) ==> r == Failure(BirthdateError(u.birthdate.value))
    ensures r.Success? ==> r.value == users[IndexOfUser(users, u.id) := u]
  {
    var k := IndexOfUser(users, u.id);
    if !StorableBirthdate(u.birthdate) then Failure(BirthdateError(u.birthdate.value))
    else if k < 0 then Failure(RowMissing)
    else if UsernameTakenByOther(users, u.id, u.username) || EmailTakenByOther(users, u.id, u.email) then
      Failure(IntegrityError)
    else Success(users[k := u])
  }

  /** A successful save keeps the users table valid, and saving a row back with
      its username and email unchanged fails only on its birthdate. */
  lemma SaveRowPreservesValid(users: seq<User>, u: User)
    requires UsersTableValid(users)
    ensures SaveRow(users, u).Success? ==> UsersTableValid(SaveRow(users, u).value)
    ensures (exists i :: 0 <= i < |users| && users[i].id == u.id &&
               users[i].username == u.username && users[i].email == u.email) ==>
            (SaveRow(users, u).Success? <==> StorableBirthdate(u.birthdate))
  {
    var k := IndexOfUser(users, u.id);
    if SaveRow(users, u).Success? {
      var users' := users[k := u];
      forall i, j | 0 <= i < j < |users'|
        ensures users'[i].id < users'[j].id
        ensures users'[i].username != users'[j].username && users'[i].email != users'[j].email
      {
        if i != k && j != k {
        } else if i == k {
          assert users[j].id != u.id by { assert users[k].id < users[j].id; }
        } else {
          assert users[i].id != u.id by { assert users[i].id < users[k].id; }
        }
      }
    }
    if exists i :: 0 <= i < |users| && users[i].id == u.id &&
                   users[i].username == u.username && users[i].email == u.email {
      var i :| 0 <= i < |users| && users[i].id == u.id &&
               users[i].username == u.username && users[i].email == u.email;
      assert forall j :: 0 <= j < |users| && users[j].username == u.username ==> j == i;
      assert forall j :: 0 <= j < |users| && users[j].email == u.email ==> j == i;
    }
  }

  /** A save never introduces a new primary key. */
  lemma SaveRowKeepsKeys(users: seq<User>, u: User, next: Id)
    requires forall i :: 0 <= i < |users| ==> users[i].id < next
    ensures SaveRow(users, u).Success? ==>
      |SaveRow(users, u).value| == |users| &&
      forall i :: 0 <= i < |users| ==> SaveRow(users, u).value[i].id == users[i].id && users[i].id < next
    ensures SaveRow(users, u).Success? ==> UserIds(SaveRow(users, u).value) == UserIds(users)
  {
    if SaveRow(users, u).Success? {
      SameKeysSameIds(users, SaveRow(users, u).value);
    }
  }

  /** Two tables with the same key at every position have the same keys. */
  lemma SameKeysSameIds(users: seq<User>, users': seq<User>)
    requires |users'| == |users| && forall i :: 0 <= i < |users| ==> users'[i].id == users[i].id
    ensures UserIds(users') == UserIds(users)
  {
    forall x | x in UserIds(users') ensures x in UserIds(users) {
      var i :| 0 <= i < |users'| && users'[i].id == x;
      assert users[i].id == x;
    }
    forall x | x in UserIds(users) ensures x in UserIds(users') {
      var i :| 0 <= i < |users| && users[i].id == x;
      assert users'[i].id == x;
    }
  }

  /** `user.save()` for a user without a primary key: an INSERT. A birthdate
      that is not a real date raises before the query; the database refuses
      a username or email that is already in the table. */
  function InsertRow(users: seq<User>, u: User): (r: Result<seq<User>, string>)
    ensures r.Failure? <==> !StorableBirthdate(u.birthdate) || HasUsername(users, u.username) || HasEmail(users, u.email)
    ensures !StorableBirthdate(u.birthdate) ==> r == Failure(BirthdateError(u.birthdate.value))
    ensures StorableBirthdate(u.birthdate) && r.Failure? ==> r.error == IntegrityError
    ensures r.Success? ==> r.value == users + [u]
  {
    if !StorableBirthdate(u.birthdate) then Failure(BirthdateError(u.birthdate.value))
    else if exists i :: 0 <= i < |users| && (users[i].username == u.username || users[i].email == u.email) then
      Failure(IntegrityError)
    else Success(users + [u])
  }

  /** Appending a row adds exactly its key. */
  lemma AppendIds(users: seq<User>, u: User)
    ensures UserIds(users + [u]) == UserIds(users) + {u.id}
  {
    var users' := users + [u];
    forall x | x in UserIds(users') ensures x in UserIds(users) + {u.id} {
      var i :| 0 <= i < |users'| && users'[i].id == x;
      if i < |users| { assert users[i].id == x; }
    }
    forall x | x in UserIds(users) ensures x in UserIds(users') {
      var i :| 0 <= i < |users| && users[i].id == x;
      assert users'[i].id == x;
    }
    assert u.id in UserIds(users') by { assert users'[|users|] == u; }
  }

  /** An insert with the next primary key keeps the table valid. */
  lemma InsertRowPreservesValid(users: seq<User>, u: User, next: Id)
    requires UsersTableValid(users) && forall i :: 0 <= i < |users| ==> users[i].id < next
    requires u.id == next
    ensures InsertRow(users, u).Success? ==>
      UsersTableValid(InsertRow(users, u).value) &&
      forall i :: 0 <= i < |InsertRow(users, u).value| ==> InsertRow(users, u).value[i].id < next + 1
    ensures InsertRow(users, u).Success? ==> UserIds(InsertRow(users, u).value) == UserIds(users) + {u.id}
  {
    if InsertRow(users, u).Success? {
      var users' := users + [u];
      AppendIds(users, u);
      forall i | 0 <= i < |users'| ensures StorableBirthdate(users'[i].birthdate) {
        if i < |users| { assert users'[i] == users[i]; }
      }
      forall i, j | 0 <= i < j < |users'|
        ensures users'[i].id < users'[j].id && users'[i].username != users'[j].username && users'[i].email != users'[j].email
      {
        if j < |users| { assert users'[i] == users[i] && users'[j] == users[j]; }
      }
    }
  }

  /** The users table after deleting the row with key `uid`. */
  function WithoutUser(users: seq<User>, uid: Id): (r: seq<User>)
    ensures forall j :: 0 <= j < |r| ==> r[j] in users && r[j].id != uid
    decreases |users|
  {
    if users == [] then []
    else
      var rest := WithoutUser(users[1..], uid);
      if users[0].id == uid then rest else [users[0]] + rest
  }

  /** Every other user's row survives. */
  lemma {:induction false} WithoutUserKeeps(users: seq<User>, uid: Id)
    ensures forall j :: 0 <= j < |users| && users[j].id != uid ==> users[j] in WithoutUser(users, uid)
    decreases |users|
  {
    if users != [] {
      var tail := users[1..];
      WithoutUserKeeps(tail, uid);
      forall j | 1 <= j < |users| && users[j].id != uid ensures users[j] in WithoutUser(users, uid) {
        assert users[j] == tail[j - 1];
      }
    }
  }

  /** `u` may be put in front of `rest`: smaller key, different username and email. */
  ghost predicate FitsBefore(u: User, rest: seq<User>) {
    StorableBirthdate(u.birthdate) &&
    forall j :: 0 <= j < |rest| ==>
      u.id < rest[j].id && u.username != rest[j].username && u.email != rest[j].email
  }

  lemma ConsValid(u: User, rest: seq<User>)
    requires UsersTableValid(rest) && FitsBefore(u, rest)
    ensures UsersTableValid([u] + rest)
  {
    var r := [u] + rest;
    forall i, j | 0 <= i < j < |r|
      ensures r[i].id < r[j].id && r[i].username != r[j].username && r[i].email != r[j].email
    {
      if i > 0 { assert r[i] == rest[i - 1] && r[j] == rest[j - 1]; }
    }
  }

  /** Every row kept from the tail of a valid table fits after its head. */
  lemma HeadFitsBeforeKept(users: seq<User>, uid: Id)
    requires UsersTableValid(users) && users != []
    ensures FitsBefore(users[0], WithoutUser(users[1..], uid))
  {
    var tail := users[1..];
    var rest := WithoutUser(tail, uid);
    forall j | 0 <= j < |rest|
      ensures users[0].id < rest[j].id && users[0].username != rest[j].username && users[0].email != rest[j].email
    {
      var t :| 0 <= t < |tail| && tail[t] == rest[j];
      assert users[1 + t] == rest[j];
    }
  }

  /** Deleting a user keeps the table valid and removes exactly that key. */
  lemma {:induction false} WithoutUserValid(users: seq<User>, uid: Id, next: Id)
    requires UsersTableValid(users) && forall i :: 0 <= i < |users| ==> users[i].id < next
    ensures UsersTableValid(WithoutUser(users, uid))
    ensures forall i :: 0 <= i < |WithoutUser(users, uid)| ==> WithoutUser(users, uid)[i].id < next
    ensures !HasId(WithoutUser(users, uid), uid)
    decreases |users|
  {
    if users != [] {
      var tail := users[1..];
      assert UsersTableValid(tail);
      WithoutUserValid(tail, uid, next);
      if users[0].id != uid {
        HeadFitsBeforeKept(users, uid);
        ConsValid(users[0], WithoutUser(tail, uid));
      }
    }
  }

  /** Deleting user `uid` removes exactly that primary key. */
  lemma WithoutUserIds(users: seq<User>, uid: Id)
    ensures UserIds(WithoutUser(users, uid)) == UserIds(users) - {uid}
  {
    var r := WithoutUser(users, uid);
    WithoutUserKeeps(users, uid);
    forall x | x in UserIds(r) ensures x in UserIds(users) - {uid} {
      var j :| 0 <= j < |r| && r[j].id == x;
      var i :| 0 <= i < |users| && users[i] == r[j];
    }
    forall x | x in UserIds(users) - {uid} ensures x in UserIds(r) {
      var i :| 0 <= i < |users| && users[i].id == x;
      var j :| 0 <= j < |r| && r[j] == users[i];
    }
  }

  // ---------------------------------------------------------------------
  // Blacklist

  /** `user` has blocked `blockedUser`. */
  datatype BlacklistEntry = BlacklistEntry(user: Id, blockedUser: Id)

  /** `unique_together = ("user", "blocked_user")`: the ORDERED pair is unique. */
  ghost predicate BlacklistUnique(bl: seq<BlacklistEntry>) {
    forall i, j :: 0 <= i < j < |bl| ==> bl[i] != bl[j]
  }

  /** The database accepts a new entry exactly when its ordered pair is new. */
  function CanAddBlock(bl: seq<BlacklistEntry>, user: Id, blocked: Id): (r: bool)
    requires BlacklistUnique(bl)
    ensures r <==> BlacklistUnique(bl + [BlacklistEntry(user, blocked)])
  {
    var e := BlacklistEntry(user, blocked);
    var r := e !in bl;
    assert !r ==> !BlacklistUnique(bl + [e]) by {
      if !r {
        var i :| 0 <= i < |bl| && bl[i] == e;
        assert (bl + [e])[i] == (bl + [e])[|bl|];
      }
    }
    r
  }

  /** Blocking is directional: A blocking B never prevents B from blocking A. */
  lemma ReverseBlockAllowed(bl: seq<BlacklistEntry>, a: Id, b: Id)
    requires BlacklistUnique(bl)
    requires a != b
    requires BlacklistEntry(b, a) !in bl
    requires BlacklistEntry(a, b) in bl
    ensures CanAddBlock(bl, b, a)
    ensures BlacklistEntry(a, b) in bl + [BlacklistEntry(b, a)]
  {
  }

  /** The blacklist after deleting user `uid`: entries naming them on either
      side are removed (CASCADE on both foreign keys). */
  function BlacklistWithoutUser(bl: seq<BlacklistEntry>, uid: Id): (r: seq<BlacklistEntry>)
    ensures forall j :: 0 <= j < |r| ==> r[j] in bl && r[j].user != uid && r[j].blockedUser != uid
    ensures forall e :: e in bl && e.user != uid && e.blockedUser != uid ==> e in r
    ensures BlacklistUnique(bl) ==> BlacklistUnique(r)
    decreases |bl|
  {
    if bl == [] then []
    else
      var rest := BlacklistWithoutUser(bl[1..], uid);
      if bl[0].user == uid || bl[0].blockedUser == uid then rest
      else
        assert BlacklistUnique(bl) ==> forall j :: 0 <= j < |rest| ==> rest[j] != bl[0] by {
          if BlacklistUnique(bl) {
            forall j | 0 <= j < |rest| ensures rest[j] != bl[0] {
              var t :| 0 <= t < |bl[1..]| && bl[1..][t] == rest[j];
              assert bl[1 + t] == rest[j];
            }
          }
        }
        [bl[0]] + rest
  }

  lemma BlacklistWithoutUserUnique(bl: seq<BlacklistEntry>, uid: Id)
    requires BlacklistUnique(bl)
    ensures BlacklistUnique(BlacklistWithoutUser(bl, uid))
    ensures forall e :: e in BlacklistWithoutUser(bl, uid) ==> e.user != uid && e.blockedUser != uid
  {
  }

  /** Both foreign keys of every entry name users in `ids`. */
  ghost predicate BlacklistUsersIn(bl: seq<BlacklistEntry>, ids: set<Id>) {
    forall i :: 0 <= i < |bl| ==> bl[i].user in ids && bl[i].blockedUser in ids
  }

  /** After the CASCADE for user `uid` no entry names `uid`, and every entry
      still names users of `ids`. */
  lemma BlacklistWithoutUserUsersIn(bl: seq<BlacklistEntry>, uid: Id, ids: set<Id>)
    requires BlacklistUsersIn(bl, ids)
    ensures BlacklistUsersIn(BlacklistWithoutUser(bl, uid), ids - {uid})
  {
    var r := BlacklistWithoutUser(bl, uid);
    forall j | 0 <= j < |r| ensures r[j].user in ids - {uid} && r[j].blockedUser in ids - {uid} {
      var t :| 0 <= t < |bl| && bl[t] == r[j];
    }
  }
}
