/** The login backend of backend/users/authentication.py: a user is looked up
    by a single identifier compared with both the username and the email
    column, and accepted when the password checks. `checkPassword` stands
    for Django's `check_password`, which compares against the stored hash. */
module Authentication {
  import opened Common
  import opened UserModels

  /** `Q(username=ident) | Q(email=ident)` for one row. */
  predicate Matches(u: User, ident: string) {
    u.username == ident || u.email == ident
  }

  /** Positions, from `lo` on and in table order, of the rows the query returns. */
  function MatchingFrom(users: seq<User>, ident: string, lo: nat): (r: seq<nat>)
    requires lo <= |users|
    ensures forall j :: 0 <= j < |r| ==> lo <= r[j] < |users| && Matches(users[r[j]], ident)
    ensures forall i :: lo <= i < |users| && Matches(users[i], ident) ==> i in r
    ensures forall j, k :: 0 <= j < k < |r| ==> r[j] < r[k]
    decreases |users| - lo
  {
    if lo == |users| then []
    else
      var rest := MatchingFrom(users, ident, lo + 1);
      if Matches(users[lo], ident) then [lo] + rest else rest
  }

  function Matching(users: seq<User>, ident: string): seq<nat> {
    MatchingFrom(users, ident, 0)
  }

  /** What `authenticate` does: return the user, return None, or let
      `MultipleObjectsReturned` escape from `get`. */
  datatype AuthOutcome = Authenticated(user: User) | Rejected | MultipleMatches

  /** `authenticate(request, username, password)`. A missing identifier
      matches no row (both columns are NOT NULL); a missing password never
      checks. */
  function Authenticate(users: seq<User>, ident: Option<string>, password: Option<string>,
                        checkPassword: (User, string) -> bool): AuthOutcome
  {
    if ident.None? then Rejected
    else
      var m := Matching(users, ident.value);
      if |m| == 0 then Rejected
      else if |m| > 1 then MultipleMatches
      else if password.Some? && checkPassword(users[m[0]], password.value) then Authenticated(users[m[0]])
      else Rejected
  }

  /** A strictly increasing sequence of naturals spreads at least one per step. */
  lemma {:induction false} IncreasingSpread(m: seq<nat>)
    requires forall j, k :: 0 <= j < k < |m| ==> m[j] < m[k]
    requires |m| > 0
    ensures m[|m| - 1] >= m[0] + |m| - 1
  {
    if |m| > 1 {
      IncreasingSpread(m[..|m| - 1]);
      assert m[..|m| - 1][|m| - 2] == m[|m| - 2];
    }
  }

  /** When exactly the row at `i` matches, the query returns that row alone. */
  lemma SingleMatch(users: seq<User>, ident: string, i: nat)
    requires i < |users| && Matches(users[i], ident)
    requires forall j :: 0 <= j < |users| && Matches(users[j], ident) ==> j == i
    ensures Matching(users, ident) == [i]
  {
    var m := Matching(users, ident);
    assert i in m;
    IncreasingSpread(m);
    assert m[0] == i && m[|m| - 1] == i;
  }

  /** Two or more rows come back exactly when two rows match. */
  lemma SeveralMatches(users: seq<User>, ident: string)
    ensures |Matching(users, ident)| > 1 <==>
      exists i, j :: 0 <= i < j < |users| && Matches(users[i], ident) && Matches(users[j], ident)
  {
    var m := Matching(users, ident);
    if |m| > 1 {
      assert m[0] < m[1];
      assert Matches(users[m[0]], ident) && Matches(users[m[1]], ident);
    }
    if exists i, j :: 0 <= i < j < |users| && Matches(users[i], ident) && Matches(users[j], ident) {
      var i, j :| 0 <= i < j < |users| && Matches(users[i], ident) && Matches(users[j], ident);
      assert i in m && j in m;
      var a :| 0 <= a < |m| && m[a] == i;
      var b :| 0 <= b < |m| && m[b] == j;
      assert a != b;
    }
  }

  /** Exactly one row comes back exactly when one row matches and no other. */
  lemma OneMatch(users: seq<User>, ident: string)
    ensures |Matching(users, ident)| == 1 <==>
      exists i :: 0 <= i < |users| && Matches(users[i], ident) &&
        (forall j :: 0 <= j < |users| && Matches(users[j], ident) ==> j == i)
  {
    var m := Matching(users, ident);
    if |m| == 1 {
      var i := m[0];
      assert 0 <= i < |users| && Matches(users[i], ident);
      assert forall j :: 0 <= j < |users| && Matches(users[j], ident) ==> j == i;
    }
    if exists i :: 0 <= i < |users| && Matches(users[i], ident) &&
        (forall j :: 0 <= j < |users| && Matches(users[j], ident) ==> j == i) {
      var i :| 0 <= i < |users| && Matches(users[i], ident) &&
        (forall j :: 0 <= j < |users| && Matches(users[j], ident) ==> j == i);
      SingleMatch(users, ident, i);
    }
  }

  /** A login succeeds exactly when the identifier names one row, by username
      or by email, and the password checks against that row. */
  lemma AuthenticatedMeaning(users: seq<User>, ident: string, password: Option<string>,
                             checkPassword: (User, string) -> bool)
    ensures Authenticate(users, Some(ident), password, checkPassword).Authenticated? <==>
      exists i :: 0 <= i < |users| && Matches(users[i], ident) &&
        (forall j :: 0 <= j < |users| && Matches(users[j], ident) ==> j == i) &&
        password.Some? && checkPassword(users[i], password.value)
  {
    OneMatch(users, ident);
    var m := Matching(users, ident);
    if |m| == 1 {
      assert forall j :: 0 <= j < |users| && Matches(users[j], ident) ==> j == m[0];
    }
  }

  /** The user a successful login returns is a row of the table that the
      identifier names and whose password checks. */
  lemma AuthenticatedUser(users: seq<User>, ident: string, password: Option<string>,
                          checkPassword: (User, string) -> bool)
    ensures Authenticate(users, Some(ident), password, checkPassword).Authenticated? ==>
      var u := Authenticate(users, Some(ident), password, checkPassword).user;
      u in users && Matches(u, ident) && password.Some? && checkPassword(u, password.value)
  {
  }

  /** `get` raises `MultipleObjectsReturned` exactly when two rows match,
      whatever the password. */
  lemma MultipleMatchesMeaning(users: seq<User>, ident: string, password: Option<string>,
                               checkPassword: (User, string) -> bool)
    ensures Authenticate(users, Some(ident), password, checkPassword).MultipleMatches? <==>
      exists i, j :: 0 <= i < j < |users| && Matches(users[i], ident) && Matches(users[j], ident)
  {
    SeveralMatches(users, ident);
  }

  /** In a valid table two rows can match only across columns: one by its
      username, the other by its email. */
  lemma MultipleMatchesCrossColumns(users: seq<User>, ident: string, password: Option<string>,
                                    checkPassword: (User, string) -> bool)
    requires UsersTableValid(users)
    ensures Authenticate(users, Some(ident), password, checkPassword).MultipleMatches? ==>
      exists i, j :: 0 <= i < |users| && 0 <= j < |users| && i != j &&
        users[i].username == ident && users[j].email == ident
  {
    MultipleMatchesMeaning(users, ident, password, checkPassword);
    if Authenticate(users, Some(ident), password, checkPassword).MultipleMatches? {
      var i, j :| 0 <= i < j < |users| && Matches(users[i], ident) && Matches(users[j], ident);
      assert !(users[i].username == ident && users[j].username == ident);
      assert !(users[i].email == ident && users[j].email == ident);
    }
  }

  /** `check_password` against a hash: when it compares the stored hash with
      the hash of the given text, the user whose username or email is given
      logs in with the password whose hash is stored, provided no other row
      has that text in its other column. */
  lemma LoginWithOwnPassword(users: seq<User>, i: nat, byEmail: bool, raw: string,
                             hasher: string -> string, checkPassword: (User, string) -> bool)
    requires UsersTableValid(users) && i < |users|
    requires forall v: User, p: string :: checkPassword(v, p) <==> v.password == hasher(p)
    requires users[i].password == hasher(raw)
    requires var ident := if byEmail then users[i].email else users[i].username;
      forall j :: 0 <= j < |users| && j != i ==> !Matches(users[j], ident)
    ensures Authenticate(users, Some(if byEmail then users[i].email else users[i].username), Some(raw), checkPassword)
            == Authenticated(users[i])
  {
    var ident := if byEmail then users[i].email else users[i].username;
    SingleMatch(users, ident, i);
  }
}
