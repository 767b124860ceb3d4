/** The `Friendships` model of backend/friendships/models.py: its status
    values, its default, and the rule, checked by `clean` on every save of a
    new row, that two users share at most one friendship whichever of them
    is `user1`. The table is a sequence of rows in primary-key order. */
module FriendshipModels {
  import opened Common

  datatype FriendshipStatus = Pending | Accepted | Rejected

  /** `status = CharField(..., default=PENDING)` */
  const DefaultStatus := Pending

  const AlreadyExists := "This friendship already exists."

  /** The value stored in the `status` column. */
  function StatusName(s: FriendshipStatus): (name: string)
    ensures |name| <= 10
  {
    match s
    case Pending => "PENDING"
    case Accepted => "ACCEPTED"
    case Rejected => "REJECTED"
  }

  /** Reading the column back: only the three choices are statuses. */
  function ParseStatus(name: string): (r: Option<FriendshipStatus>)
    ensures r.Some? ==> StatusName(r.value) == name
    ensures r.Some? <==> name == "PENDING" || name == "ACCEPTED" || name == "REJECTED"
  {
    if name == "PENDING" then Some(Pending)
    else if name == "ACCEPTED" then Some(Accepted)
    else if name == "REJECTED" then Some(Rejected)
    else None
  }

  lemma StatusRoundTrip(s: FriendshipStatus)
    ensures ParseStatus(StatusName(s)) == Some(s)
  {
  }

  datatype Friendship = Friendship(id: Id, user1: Id, user2: Id, status: FriendshipStatus)

  /** `Q(user1=a, user2=b) | Q(user1=b, user2=a)` */
  predicate Between(f: Friendship, a: Id, b: Id) {
    (f.user1 == a && f.user2 == b) || (f.user1 == b && f.user2 == a)
  }

  predicate AnyBetween(rows: seq<Friendship>, a: Id, b: Id) {
    exists i :: 0 <= i < |rows| && Between(rows[i], a, b)
  }

  /** `Friendships.objects.filter(Q(...) | Q(...)).exists()` */
  function ExistsBetween(rows: seq<Friendship>, a: Id, b: Id): (r: bool)
    ensures r <==> AnyBetween(rows, a, b)
    decreases |rows|
  {
    if rows == [] then false
    else if Between(rows[0], a, b) then true
    else
      var r := ExistsBetween(rows[1..], a, b);
      assert AnyBetween(rows, a, b) ==> r by {
        if AnyBetween(rows, a, b) {
          var i :| 0 <= i < |rows| && Between(rows[i], a, b);
          assert i > 0 && Between(rows[1..][i - 1], a, b);
        }
      }
      r
  }

  // ---------------------------------------------------------------------
  // The table invariant

  ghost predicate IdsIncreasing(rows: seq<Friendship>) {
    forall i, j :: 0 <= i < j < |rows| ==> rows[i].id < rows[j].id
  }

  ghost predicate IdsBelow(rows: seq<Friendship>, next: Id) {
    forall i :: 0 <= i < |rows| ==> rows[i].id < next
  }

  /** No two rows join the same two users, in either order. */
  ghost predicate PairsUnique(rows: seq<Friendship>) {
    forall i, j :: 0 <= i < j < |rows| ==> !Between(rows[j], rows[i].user1, rows[i].user2)
  }

  ghost predicate TableValid(rows: seq<Friendship>, next: Id) {
    IdsIncreasing(rows) && IdsBelow(rows, next) && PairsUnique(rows)
  }

  /** `clean`: the uniqueness check runs only for a row without a primary key. */
  function Clean(rows: seq<Friendship>, user1: Id, user2: Id, isNew: bool): (err: Option<string>)
    ensures err.Some? <==> isNew && AnyBetween(rows, user1, user2)
    ensures err.Some? ==> err.value == AlreadyExists
  {
    if isNew && ExistsBetween(rows, user1, user2) then Some(AlreadyExists) else None
  }

  /** `Friendships.objects.create(user1=..., user2=..., status=...)`: `save`
      runs `clean` first and inserts only when it passes; the new row gets the
      next primary key. */
  function Create(rows: seq<Friendship>, next: Id, user1: Id, user2: Id, status: FriendshipStatus)
    : (r: Result<seq<Friendship>, string>)
    ensures r.Failure? <==> AnyBetween(rows, user1, user2)
    ensures r.Failure? ==> r.error == AlreadyExists
    ensures r.Success? ==> r.value == rows + [Friendship(next, user1, user2, status)]
  {
    match Clean(rows, user1, user2, true)
    case Some(msg) => Failure(msg)
    case None => Success(rows + [Friendship(next, user1, user2, status)])
  }

  /** A successful create keeps the table valid, and a create in either order
      for two users that already share a row fails. */
  lemma CreatePreservesValid(rows: seq<Friendship>, next: Id, user1: Id, user2: Id, status: FriendshipStatus)
    requires TableValid(rows, next)
    ensures Create(rows, next, user1, user2, status).Success? ==>
      TableValid(Create(rows, next, user1, user2, status).value, next + 1)
    ensures Create(rows, next, user1, user2, status).Success? <==> Create(rows, next, user2, user1, status).Success?
  {
    var f := Friendship(next, user1, user2, status);
    if Create(rows, next, user1, user2, status).Success? {
      var rows' := rows + [f];
      forall i, j | 0 <= i < j < |rows'| ensures !Between(rows'[j], rows'[i].user1, rows'[i].user2) {
        if j == |rows| {
          assert !Between(rows[i], user1, user2);
        }
      }
    }
    assert AnyBetween(rows, user1, user2) ==> AnyBetween(rows, user2, user1) by {
      if AnyBetween(rows, user1, user2) {
        var i :| 0 <= i < |rows| && Between(rows[i], user1, user2);
        assert Between(rows[i], user2, user1);
      }
    }
    assert AnyBetween(rows, user2, user1) ==> AnyBetween(rows, user1, user2) by {
      if AnyBetween(rows, user2, user1) {
        var i :| 0 <= i < |rows| && Between(rows[i], user2, user1);
        assert Between(rows[i], user1, user2);
      }
    }
  }

  /** Re-saving an existing row (it has a primary key) never fails `clean`. */
  lemma ResaveAlwaysPasses(rows: seq<Friendship>, f: Friendship)
    ensures Clean(rows, f.user1, f.user2, false).None?
  {
  }

  // ---------------------------------------------------------------------
  // Row access by primary key

  /** Position of the row with primary key `id`, or -1. */
  function IndexOf(rows: seq<Friendship>, id: Id): (k: int)
    ensures -1 <= k < |rows|
    ensures k == -1 <==> forall i :: 0 <= i < |rows| ==> rows[i].id != id
    ensures k >= 0 ==> rows[k].id == id
    decreases |rows|
  {
    if rows == [] then -1
    else if rows[0].id == id then 0
    else
      var k := IndexOf(rows[1..], id);
      assert forall i :: 1 <= i < |rows| ==> rows[i] == rows[1..][i - 1];
      if k == -1 then -1 else k + 1
  }

  /** UPDATE of one row that keeps its primary key and its two users. */
  lemma UpdatePreservesValid(rows: seq<Friendship>, next: Id, k: nat, f: Friendship)
    requires TableValid(rows, next) && k < |rows|
    requires f.id == rows[k].id && f.user1 == rows[k].user1 && f.user2 == rows[k].user2
    ensures TableValid(rows[k := f], next)
  {
    var rows' := rows[k := f];
    forall i, j | 0 <= i < j < |rows'| ensures !Between(rows'[j], rows'[i].user1, rows'[i].user2) {
      assert !Between(rows[j], rows[i].user1, rows[i].user2);
    }
  }

  /** DELETE of one row keeps the table valid and removes exactly that key. */
  lemma RemovePreservesValid(rows: seq<Friendship>, next: Id, k: nat)
    requires TableValid(rows, next) && k < |rows|
    ensures TableValid(RemoveAt(rows, k), next)
    ensures forall i :: 0 <= i < |RemoveAt(rows, k)| ==> RemoveAt(rows, k)[i].id != rows[k].id
  {
    var r := RemoveAt(rows, k);
    forall i, j | 0 <= i < j < |r| ensures r[i].id < r[j].id && !Between(r[j], r[i].user1, r[i].user2) {
      var i' := if i < k then i else i + 1;
      var j' := if j < k then j else j + 1;
      assert r[i] == rows[i'] && r[j] == rows[j'] && i' < j';
    }
    forall i | 0 <= i < |r| ensures r[i].id != rows[k].id {
      if i < k { assert rows[i].id < rows[k].id; } else { assert rows[k].id < rows[i + 1].id; }
    }
  }

  /** The table after deleting user `uid`: CASCADE removes every friendship
      naming them on either side. */
  function WithoutUser(rows: seq<Friendship>, uid: Id): (r: seq<Friendship>)
    ensures forall j :: 0 <= j < |r| ==> r[j] in rows && r[j].user1 != uid && r[j].user2 != uid
    decreases |rows|
  {
    if rows == [] then []
    else
      var rest := WithoutUser(rows[1..], uid);
      if rows[0].user1 == uid || rows[0].user2 == uid then rest else [rows[0]] + rest
  }

  /** Every friendship not involving the deleted user survives. */
  lemma {:induction false} WithoutUserKeeps(rows: seq<Friendship>, uid: Id)
    ensures forall j :: 0 <= j < |rows| && rows[j].user1 != uid && rows[j].user2 != uid ==>
      rows[j] in WithoutUser(rows, uid)
    decreases |rows|
  {
    if rows != [] {
      var tail := rows[1..];
      WithoutUserKeeps(tail, uid);
      forall j | 1 <= j < |rows| && rows[j].user1 != uid && rows[j].user2 != uid
        ensures rows[j] in WithoutUser(rows, uid)
      {
        assert rows[j] == tail[j - 1];
      }
    }
  }

  /** Deleting a user keeps the table valid. */
  lemma {:induction false} WithoutUserValid(rows: seq<Friendship>, next: Id, uid: Id)
    requires TableValid(rows, next)
    ensures TableValid(WithoutUser(rows, uid), next)
    decreases |rows|
  {
    if rows != [] {
      var tail := rows[1..];
      assert TableValid(tail, next);
      WithoutUserValid(tail, next, uid);
      var rest := WithoutUser(tail, uid);
      forall j | 0 <= j < |rest| ensures rows[0].id < rest[j].id && !Between(rest[j], rows[0].user1, rows[0].user2) {
        var t :| 0 <= t < |tail| && tail[t] == rest[j];
        assert rows[1 + t] == rest[j];
      }
      if rows[0].user1 != uid && rows[0].user2 != uid {
        var r := [rows[0]] + rest;
        assert WithoutUser(rows, uid) == r;
        forall i, j | 0 <= i < j < |r| ensures r[i].id < r[j].id && !Between(r[j], r[i].user1, r[i].user2) {
          if i > 0 { assert r[i] == rest[i - 1] && r[j] == rest[j - 1]; }
        }
      }
    }
  }

  // ---------------------------------------------------------------------
  // References to users

  /** Both users of every row are in `ids` (`user1` and `user2` are
      foreign keys to `Users`). */
  ghost predicate UsersIn(rows: seq<Friendship>, ids: set<Id>) {
    forall i :: 0 <= i < |rows| ==> rows[i].user1 in ids && rows[i].user2 in ids
  }

  /** A new row between two stored users. */
  lemma CreateUsersIn(rows: seq<Friendship>, next: Id, user1: Id, user2: Id, status: FriendshipStatus, ids: set<Id>)
    requires UsersIn(rows, ids) && user1 in ids && user2 in ids
    ensures Create(rows, next, user1, user2, status).Success? ==> UsersIn(Create(rows, next, user1, user2, status).value, ids)
  {
    if Create(rows, next, user1, user2, status).Success? {
      var rows' := rows + [Friendship(next, user1, user2, status)];
      forall i | 0 <= i < |rows'| ensures rows'[i].user1 in ids && rows'[i].user2 in ids {
        if i < |rows| { assert rows'[i] == rows[i]; }
      }
    }
  }

  /** An UPDATE that keeps the row's two users. */
  lemma UpdateUsersIn(rows: seq<Friendship>, k: nat, f: Friendship, ids: set<Id>)
    requires UsersIn(rows, ids) && k < |rows| && f.user1 == rows[k].user1 && f.user2 == rows[k].user2
    ensures UsersIn(rows[k := f], ids)
  {
  }

  /** A DELETE of one row. */
  lemma RemoveUsersIn(rows: seq<Friendship>, k: nat, ids: set<Id>)
    requires UsersIn(rows, ids) && k < |rows|
    ensures UsersIn(RemoveAt(rows, k), ids)
  {
    var r := RemoveAt(rows, k);
    forall i | 0 <= i < |r| ensures r[i].user1 in ids && r[i].user2 in ids {
      assert r[i] == rows[if i < k then i else i + 1];
    }
  }

  /** After the CASCADE for user `uid` no row names `uid`, and every row
      still names users of `ids`. */
  lemma WithoutUserUsersIn(rows: seq<Friendship>, uid: Id, ids: set<Id>)
    requires UsersIn(rows, ids)
    ensures UsersIn(WithoutUser(rows, uid), ids - {uid})
  {
    var r := WithoutUser(rows, uid);
    forall j | 0 <= j < |r| ensures r[j].user1 in ids - {uid} && r[j].user2 in ids - {uid} {
      var t :| 0 <= t < |rows| && rows[t] == r[j];
    }
  }
}
