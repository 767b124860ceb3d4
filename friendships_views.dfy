/** `FriendshipsView` of backend/friendships/views.py: listing and
    retrieving friendships, sending a friend request, answering it and
    deleting a friendship. Each handler is a function from the tables it
    reads to the response and the new friendships table; the methods at
    the end apply it to the database (and, for a request, notify the
    receiver through the channel layer). The `pk` of the URL is digits only
    (`<int:pk>`), None when the URL has none; `action` is the raw value of
    `request.data.get("action")`. */
module FriendshipViews {
  import opened Common
  import opened UserModels
  import opened FriendshipModels
  import opened FriendshipPermissions
  import opened FriendshipSerializers
  import Consumers
  import Store

  const AlreadyAccepted := "The friendship has already been accepted."
  const FriendshipAccepted := "Friendship accepted"
  const InvalidAction := "Invalid action"

  function FriendshipNotFound(): string {
    NotFoundDetail("Friendships")
  }

  /** A handler's response and the friendships table it leaves. */
  datatype Change = Change(response: Response, rows: seq<Friendship>)

  // ---------------------------------------------------------------------
  // get

  /** `Friendships.objects.filter(Q(user1=uid) | Q(user2=uid))`, as keys in
      table order. */
  function Listed(rows: seq<Friendship>, uid: Id): seq<Id>
    decreases |rows|
  {
    if rows == [] then []
    else (if HasObjectPermission(rows[0], uid) then [rows[0].id] else []) + Listed(rows[1..], uid)
  }

  /** A row of the table that `uid` takes part in, by key. */
  ghost predicate ListedRow(rows: seq<Friendship>, uid: Id, id: Id) {
    exists i :: 0 <= i < |rows| && rows[i].id == id && HasObjectPermission(rows[i], uid)
  }

  /** The list holds the key of every friendship the user takes part in and
      no other key. */
  lemma {:induction false} ListedMeaning(rows: seq<Friendship>, uid: Id, id: Id)
    ensures id in Listed(rows, uid) <==> ListedRow(rows, uid, id)
    decreases |rows|
  {
    if rows != [] {
      ListedMeaning(rows[1..], uid, id);
      if ListedRow(rows[1..], uid, id) {
        var i :| 0 <= i < |rows[1..]| && rows[1..][i].id == id && HasObjectPermission(rows[1..][i], uid);
        assert rows[i + 1] == rows[1..][i];
      }
      if ListedRow(rows, uid, id) {
        var i :| 0 <= i < |rows| && rows[i].id == id && HasObjectPermission(rows[i], uid);
        if i > 0 {
          assert rows[1..][i - 1] == rows[i];
          assert ListedRow(rows[1..], uid, id);
        }
      }
    }
  }

  /** `get(request, pk)`: without a key (or with key 0, which is falsy) the
      requester's friendships; otherwise the row, 404 when there is none,
      403 when the requester is not one of its users. */
  function Get(rows: seq<Friendship>, requester: Id, pk: Option<nat>): Response {
    if pk.None? || pk.value == 0 then OkList(Listed(rows, requester))
    else
      var k := IndexOf(rows, pk.value);
      if k < 0 then NotFound(FriendshipNotFound())
      else if !HasObjectPermission(rows[k], requester) then Forbidden(PermissionDenied)
      else OkObject(pk.value)
  }

  /** In a table with unique keys the position of a key is the one row
      holding it. */
  lemma IndexOfUnique(rows: seq<Friendship>, next: Id, k: nat)
    requires TableValid(rows, next) && k < |rows|
    ensures IndexOf(rows, rows[k].id) == k
  {
  }

  /** Retrieving a key answers 404 exactly when no row has it, 403 exactly
      when a row has it but the requester is not one of its users, and the
      row exactly when the requester takes part in it; the list and the
      retrieval agree on which keys the requester may see. */
  lemma GetMeaning(rows: seq<Friendship>, next: Id, requester: Id, pk: nat)
    requires TableValid(rows, next) && pk > 0
    ensures Get(rows, requester, Some(pk)) == NotFound(FriendshipNotFound()) <==>
      forall i :: 0 <= i < |rows| ==> rows[i].id != pk
    ensures Get(rows, requester, Some(pk)) == OkObject(pk) <==> ListedRow(rows, requester, pk)
    ensures Get(rows, requester, Some(pk)) == OkObject(pk) <==> pk in Listed(rows, requester)
    ensures Get(rows, requester, Some(pk)) == Forbidden(PermissionDenied) <==>
      exists i :: 0 <= i < |rows| && rows[i].id == pk && !HasObjectPermission(rows[i], requester)
  {
    ListedMeaning(rows, requester, pk);
    if ListedRow(rows, requester, pk) {
      var i :| 0 <= i < |rows| && rows[i].id == pk && HasObjectPermission(rows[i], requester);
      IndexOfUnique(rows, next, i);
    }
    if exists i :: 0 <= i < |rows| && rows[i].id == pk && !HasObjectPermission(rows[i], requester) {
      var i :| 0 <= i < |rows| && rows[i].id == pk && !HasObjectPermission(rows[i], requester);
      IndexOfUnique(rows, next, i);
    }
  }

  // ---------------------------------------------------------------------
  // post

  /** A request's response, the tables it leaves and the user, if any,
      whose room is told about it. */
  datatype PostChange = PostChange(response: Response, rows: seq<Friendship>, next: Id, notify: Option<Id>)

  /** The validation `post(request)` acts on may be stored: a validated
      friend shares no friendship with the requester yet. */
  ghost predicate Storable(v: RequestValidation, rows: seq<Friendship>, requester: User) {
    v.Validated? ==> !AnyBetween(rows, requester.id, v.friend.id)
  }

  /** `post(request)` once `is_valid()` has given `v`: on success create the
      row and notify the receiver, `receiver_id` being the side of the new
      row that is not the requester. */
  function Post(v: RequestValidation, rows: seq<Friendship>, next: Id, requester: User): PostChange
    requires Storable(v, rows, requester)
  {
    match v
    case Invalid(e) => PostChange(BadRequestErrors(e), rows, next, None)
    case FriendNotFound => PostChange(NotFound(NotFoundDetail("Users")), rows, next, None)
    case Validated(friend) =>
      var rows' := CreateRequest(rows, next, requester, friend).value;
      var f := rows'[|rows'| - 1];
      var receiver := if f.user1 != requester.id then f.user1 else f.user2;
      PostChange(OkObject(f.id), rows', next + 1, Some(receiver))
  }

  /** What the serializer validates can be stored. */
  lemma ValidatedIsStorable(users: seq<User>, bl: seq<BlacklistEntry>, rows: seq<Friendship>,
                            requester: User, value: Option<string>)
    ensures Storable(ValidateRequest(users, bl, rows, requester, value), rows, requester)
  {
    ValidateRequestAcceptance(users, bl, rows, requester, value);
  }

  /** A request succeeds exactly when validation passed. It then appends
      one PENDING row from the requester to the friend under the next key
      and notifies the friend; otherwise nothing is stored and nobody is
      notified, and the response carries the errors or the 404. */
  lemma PostMeaning(v: RequestValidation, rows: seq<Friendship>, next: Id, requester: User)
    requires Storable(v, rows, requester)
    ensures (Post(v, rows, next, requester).response.OkObject? <==> v.Validated?) &&
      (Post(v, rows, next, requester).notify.Some? <==> v.Validated?)
    ensures v.Validated? ==>
      Post(v, rows, next, requester) ==
        PostChange(OkObject(next), rows + [Friendship(next, requester.id, v.friend.id, Pending)], next + 1,
                   Some(v.friend.id))
    ensures v.Invalid? ==> Post(v, rows, next, requester) == PostChange(BadRequestErrors(v.errors), rows, next, None)
    ensures v.FriendNotFound? ==>
      Post(v, rows, next, requester) == PostChange(NotFound(NotFoundDetail("Users")), rows, next, None)
  {
  }

  /** The friend a validated request names is never the requester, so the
      notification goes to the other user. */
  lemma ValidatedFriendIsOther(users: seq<User>, bl: seq<BlacklistEntry>, rows: seq<Friendship>,
                               requester: User, value: Option<string>)
    requires UsersTableValid(users) && requester in users
    ensures ValidateRequest(users, bl, rows, requester, value).Validated? ==>
      ValidateRequest(users, bl, rows, requester, value).friend.id != requester.id
  {
    if ValidateRequest(users, bl, rows, requester, value).Validated? {
      ValidateRequestAcceptance(users, bl, rows, requester, value);
      var friend := ValidateRequest(users, bl, rows, requester, value).friend;
      var i :| 0 <= i < |users| && users[i] == friend;
      var j :| 0 <= j < |users| && users[j] == requester;
      assert users[i].username != users[j].username;
      if i < j {
        assert users[i].id < users[j].id;
      } else {
        assert users[j].id < users[i].id;
      }
    }
  }

  /** A request keeps the friendships table valid. */
  lemma PostValid(v: RequestValidation, rows: seq<Friendship>, next: Id, requester: User)
    requires TableValid(rows, next) && Storable(v, rows, requester)
    ensures TableValid(Post(v, rows, next, requester).rows, Post(v, rows, next, requester).next)
  {
    if v.Validated? {
      CreatePreservesValid(rows, next, requester.id, v.friend.id, DefaultStatus);
    }
  }

  /** A request names only stored users: the requester and the user the
      serializer found by username. */
  lemma PostUsersIn(users: seq<User>, bl: seq<BlacklistEntry>, rows: seq<Friendship>, next: Id,
                    requester: User, value: Option<string>)
    requires UsersIn(rows, UserIds(users)) && requester in users
    requires Storable(ValidateRequest(users, bl, rows, requester, value), rows, requester)
    ensures UsersIn(Post(ValidateRequest(users, bl, rows, requester, value), rows, next, requester).rows, UserIds(users))
  {
    var v := ValidateRequest(users, bl, rows, requester, value);
    if v.Validated? {
      ValidateRequestAcceptance(users, bl, rows, requester, value);
      CreateUsersIn(rows, next, requester.id, v.friend.id, DefaultStatus, UserIds(users));
    }
  }

  // ---------------------------------------------------------------------
  // patch

  /** The row with key `pk` is a PENDING request addressed to `requester`
      by someone else. */
  ghost predicate AwaitsAnswerFrom(rows: seq<Friendship>, k: nat, pk: nat, requester: Id) {
    k < |rows| && rows[k].id == pk && rows[k].user2 == requester && rows[k].user1 != requester &&
    rows[k].status == Pending
  }

  /** `patch(request, pk)`: only the receiver answers, only a PENDING
      request, and only with "accept" (the row becomes ACCEPTED and is saved)
      or "reject" (the row is deleted). */
  function Patch(rows: seq<Friendship>, requester: Id, pk: Option<nat>, action: Option<Json>): Change {
    var k := if pk.None? then -1 else IndexOf(rows, pk.value);
    if k < 0 then Change(NotFound(FriendshipNotFound()), rows)
    else
      var f := rows[k];
      if !HasObjectPermission(f, requester) then Change(Forbidden(PermissionDenied), rows)
      else if f.user1 == requester then Change(Forbidden(PermissionDenied), rows)
      else if f.status != Pending then Change(BadRequestDetail(AlreadyAccepted), rows)
      else if action == Some(JString("accept")) then Change(OkDetail(FriendshipAccepted), rows[k := f.(status := Accepted)])
      else if action == Some(JString("reject")) then Change(NoContent, RemoveAt(rows, k))
      else Change(BadRequestDetail(InvalidAction), rows)
  }

  /** Accepting succeeds exactly on a PENDING request addressed to the
      requester, and changes that row's status and nothing else. */
  lemma PatchAcceptMeaning(rows: seq<Friendship>, next: Id, requester: Id, pk: nat, action: Option<Json>)
    requires TableValid(rows, next)
    ensures Patch(rows, requester, Some(pk), action).response == OkDetail(FriendshipAccepted) <==>
      action == Some(JString("accept")) && exists k: nat :: AwaitsAnswerFrom(rows, k, pk, requester)
    ensures forall k: nat :: AwaitsAnswerFrom(rows, k, pk, requester) && action == Some(JString("accept")) ==>
      Patch(rows, requester, Some(pk), action).rows == rows[k := rows[k].(status := Accepted)]
  {
    forall k: nat | AwaitsAnswerFrom(rows, k, pk, requester) {
      IndexOfUnique(rows, next, k);
    }
    var k := IndexOf(rows, pk);
    if k >= 0 && Patch(rows, requester, Some(pk), action).response == OkDetail(FriendshipAccepted) {
      assert AwaitsAnswerFrom(rows, k, pk, requester);
    }
  }

  /** Rejecting succeeds exactly on a PENDING request addressed to the
      requester, and deletes that row and only it. */
  lemma PatchRejectMeaning(rows: seq<Friendship>, next: Id, requester: Id, pk: nat, action: Option<Json>)
    requires TableValid(rows, next)
    ensures Patch(rows, requester, Some(pk), action).response == NoContent <==>
      action == Some(JString("reject")) && exists k: nat :: AwaitsAnswerFrom(rows, k, pk, requester)
  {
    forall k: nat | AwaitsAnswerFrom(rows, k, pk, requester) {
      IndexOfUnique(rows, next, k);
    }
    var k := IndexOf(rows, pk);
    if k >= 0 {
      var c := Patch(rows, requester, Some(pk), action);
      if c.response == NoContent {
        assert AwaitsAnswerFrom(rows, k, pk, requester);
      }
    }
  }

  /** The rejected request is the one row deleted. */
  lemma PatchRejectRow(rows: seq<Friendship>, next: Id, requester: Id, pk: nat, k: nat)
    requires TableValid(rows, next) && AwaitsAnswerFrom(rows, k, pk, requester)
    ensures Patch(rows, requester, Some(pk), Some(JString("reject"))) == Change(NoContent, RemoveAt(rows, k))
  {
    IndexOfUnique(rows, next, k);
  }

  /** Every other answer leaves the table as it was: a missing key (404),
      an outsider or the sender (403), a request no longer PENDING (400,
      whatever its status) and any other action (400). */
  lemma PatchRefusals(rows: seq<Friendship>, requester: Id, pk: Option<nat>, action: Option<Json>)
    ensures var c := Patch(rows, requester, pk, action);
      c.response != OkDetail(FriendshipAccepted) && c.response != NoContent ==> c.rows == rows
    ensures pk.Some? && IndexOf(rows, pk.value) >= 0 ==>
      var f := rows[IndexOf(rows, pk.value)];
      (f.user1 == requester ==> Patch(rows, requester, pk, action) == Change(Forbidden(PermissionDenied), rows)) &&
      (f.user2 == requester && f.user1 != requester && f.status != Pending ==>
        Patch(rows, requester, pk, action) == Change(BadRequestDetail(AlreadyAccepted), rows))
    ensures pk.None? ==> Patch(rows, requester, pk, action) == Change(NotFound(FriendshipNotFound()), rows)
  {
  }

  /** An answer keeps the friendships table valid. */
  lemma PatchValid(rows: seq<Friendship>, next: Id, requester: Id, pk: Option<nat>, action: Option<Json>)
    requires TableValid(rows, next)
    ensures TableValid(Patch(rows, requester, pk, action).rows, next)
  {
    var k := if pk.None? then -1 else IndexOf(rows, pk.value);
    if k >= 0 {
      UpdatePreservesValid(rows, next, k, rows[k].(status := Accepted));
      RemovePreservesValid(rows, next, k);
    }
  }

  // ---------------------------------------------------------------------
  // delete

  /** `delete(request, pk)`: either user deletes the row, except that
      "cancel_pending" deletes only a PENDING one. */
  function Delete(rows: seq<Friendship>, requester: Id, pk: Option<nat>, action: Option<Json>): Change {
    var k := if pk.None? then -1 else IndexOf(rows, pk.value);
    if k < 0 then Change(NotFound(FriendshipNotFound()), rows)
    else
      var f := rows[k];
      if !HasObjectPermission(f, requester) then Change(Forbidden(PermissionDenied), rows)
      else if action == Some(JString("cancel_pending")) then
        if f.status == Pending then Change(NoContent, RemoveAt(rows, k))
        else Change(BadRequestDetail(AlreadyAccepted), rows)
      else Change(NoContent, RemoveAt(rows, k))
  }

  /** A deletion succeeds exactly when the requester is one of the row's
      users and, for "cancel_pending", the row is still PENDING; it removes
      that row alone, and otherwise the table is unchanged. */
  lemma DeleteMeaning(rows: seq<Friendship>, next: Id, requester: Id, pk: nat, action: Option<Json>)
    requires TableValid(rows, next)
    ensures Delete(rows, requester, Some(pk), action).response == NoContent <==>
      exists k :: 0 <= k < |rows| && rows[k].id == pk && HasObjectPermission(rows[k], requester) &&
        (action == Some(JString("cancel_pending")) ==> rows[k].status == Pending)
    ensures forall k :: 0 <= k < |rows| && rows[k].id == pk ==>
      var c := Delete(rows, requester, Some(pk), action);
      c.rows == if c.response == NoContent then RemoveAt(rows, k) else rows
  {
    forall k | 0 <= k < |rows| && rows[k].id == pk {
      IndexOfUnique(rows, next, k);
    }
  }

  /** A deletion keeps the table valid, and a deleted key is gone: asking
      for it again is a 404. */
  lemma DeleteValid(rows: seq<Friendship>, next: Id, requester: Id, pk: nat, action: Option<Json>)
    requires TableValid(rows, next) && pk > 0
    ensures TableValid(Delete(rows, requester, Some(pk), action).rows, next)
    ensures Delete(rows, requester, Some(pk), action).response == NoContent ==>
      Get(Delete(rows, requester, Some(pk), action).rows, requester, Some(pk)) == NotFound(FriendshipNotFound())
  {
    var k := IndexOf(rows, pk);
    if k >= 0 {
      RemovePreservesValid(rows, next, k);
    }
  }

  // ---------------------------------------------------------------------
  // The protocol of one request

  /** After a request is sent, its sender cannot answer it, and its
      receiver can accept it, which makes them friends under the same key. */
  lemma RequestThenAnswer(v: RequestValidation, rows: seq<Friendship>, next: Id, requester: User)
    requires TableValid(rows, next) && Storable(v, rows, requester)
    requires v.Validated? && v.friend.id != requester.id
    ensures var rows' := Post(v, rows, next, requester).rows;
      Patch(rows', requester.id, Some(next), Some(JString("accept"))) == Change(Forbidden(PermissionDenied), rows') &&
      Patch(rows', v.friend.id, Some(next), Some(JString("accept"))) ==
        Change(OkDetail(FriendshipAccepted), rows + [Friendship(next, requester.id, v.friend.id, Accepted)])
  {
    PostValid(v, rows, next, requester);
    var rows' := rows + [Friendship(next, requester.id, v.friend.id, Pending)];
    assert Post(v, rows, next, requester).rows == rows';
    IndexOfUnique(rows', next + 1, |rows|);
    assert rows + [Friendship(next, requester.id, v.friend.id, Accepted)]
      == rows'[|rows| := rows'[|rows|].(status := Accepted)];
  }

  // ---------------------------------------------------------------------
  // The handlers on the database

  /** `post`: `is_valid()`, then the request is stored and the receiver's
      room gets a friend-request event; a refused request changes nothing.
      The requester is the authenticated user, a row of the users table. */
  method PostFriendship(db: Store.Database, layer: Consumers.ChannelLayer?, requester: User, value: Option<string>)
    returns (r: Response)
    requires db.Valid() && requester in db.users
    modifies db, layer
    ensures db.Valid()
    ensures var v := ValidateRequest(old(db.users), old(db.blacklist), old(db.friendships), requester, value);
      Storable(v, old(db.friendships), requester) &&
      var p := Post(v, old(db.friendships), old(db.nextFriendshipId), requester);
      r == p.response && db.friendships == p.rows && db.nextFriendshipId == p.next &&
      (layer != null ==>
        layer.groups == old(layer.groups) &&
        layer.queues == if p.notify.None? then old(layer.queues)
                        else Consumers.Deliver(old(layer.queues), Consumers.Members(old(layer.groups), Consumers.RoomName(p.notify.value)),
                                               Consumers.FriendRequestEvent))
    ensures db.users == old(db.users) && db.blacklist == old(db.blacklist)
    ensures db.conversations == old(db.conversations) && db.messages == old(db.messages)
    ensures db.nextUserId == old(db.nextUserId)
    ensures db.nextConversationId == old(db.nextConversationId) && db.nextMessageId == old(db.nextMessageId)
  {
    var v := ValidateRequest(db.users, db.blacklist, db.friendships, requester, value);
    ValidatedIsStorable(db.users, db.blacklist, db.friendships, requester, value);
    var p := Post(v, db.friendships, db.nextFriendshipId, requester);
    PostValid(v, db.friendships, db.nextFriendshipId, requester);
    PostUsersIn(db.users, db.blacklist, db.friendships, db.nextFriendshipId, requester, value);
    db.ReplaceFriendships(p.rows, p.next);
    if p.notify.Some? {
      Consumers.SendFriendRequest(layer, p.notify.value);
    }
    r := p.response;
  }

  /** `patch`: the answer's new table replaces the old one. */
  method PatchFriendship(db: Store.Database, requester: Id, pk: Option<nat>, action: Option<Json>)
    returns (r: Response)
    requires db.Valid()
    modifies db
    ensures db.Valid()
    ensures Change(r, db.friendships) == Patch(old(db.friendships), requester, pk, action)
    ensures db.users == old(db.users) && db.blacklist == old(db.blacklist)
    ensures db.conversations == old(db.conversations) && db.messages == old(db.messages)
    ensures db.nextUserId == old(db.nextUserId) && db.nextFriendshipId == old(db.nextFriendshipId)
    ensures db.nextConversationId == old(db.nextConversationId) && db.nextMessageId == old(db.nextMessageId)
  {
    var c := Patch(db.friendships, requester, pk, action);
    PatchValid(db.friendships, db.nextFriendshipId, requester, pk, action);
    var k := if pk.None? then -1 else IndexOf(db.friendships, pk.value);
    if k >= 0 {
      UpdateUsersIn(db.friendships, k, db.friendships[k].(status := Accepted), UserIds(db.users));
      RemoveUsersIn(db.friendships, k, UserIds(db.users));
    }
    db.ReplaceFriendships(c.rows, db.nextFriendshipId);
    r := c.response;
  }

  /** `delete`: the deletion's new table replaces the old one. */
  method DeleteFriendship(db: Store.Database, requester: Id, pk: Option<nat>, action: Option<Json>)
    returns (r: Response)
    requires db.Valid()
    modifies db
    ensures db.Valid()
    ensures Change(r, db.friendships) == Delete(old(db.friendships), requester, pk, action)
    ensures db.users == old(db.users) && db.blacklist == old(db.blacklist)
    ensures db.conversations == old(db.conversations) && db.messages == old(db.messages)
    ensures db.nextUserId == old(db.nextUserId) && db.nextFriendshipId == old(db.nextFriendshipId)
    ensures db.nextConversationId == old(db.nextConversationId) && db.nextMessageId == old(db.nextMessageId)
  {
    var c := Delete(db.friendships, requester, pk, action);
    var k := if pk.None? then -1 else IndexOf(db.friendships, pk.value);
    if k >= 0 {
      RemovePreservesValid(db.friendships, db.nextFriendshipId, k);
      RemoveUsersIn(db.friendships, k, UserIds(db.users));
    }
    db.ReplaceFriendships(c.rows, db.nextFriendshipId);
    r := c.response;
  }
}
