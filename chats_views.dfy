/** backend/chats/views.py: `MessagesService`, which updates flags on all
    messages of a conversation at once, and `ConversationsView`, which lists
    the conversations a user sees, opens (or reopens) one and hides one.
    Each view is a function from the tables it reads to the response and
    the tables it leaves; the methods apply it to the database, updating
    message rows one at a time as the bulk UPDATE does. */
module ChatViews {
  import opened Common
  import opened UserModels
  import opened ChatModels
  import opened ChatSerializers
  import Store

  function ConversationNotFound(): string {
    NotFoundDetail("Conversations")
  }

  // ---------------------------------------------------------------------
  // MessagesService.mark_messages_as_read

  /** `conversation.messages_set.all().exclude(sender=receiver)` for one
      row: a message of the conversation that the receiver did not send (a
      sender set to NULL is not the receiver). */
  predicate MarksRead(m: Message, conv: Id, receiver: Id) {
    m.conversation == conv && m.sender != Some(receiver)
  }

  /** The message table after `.update(IsReadByReceiver=True)`. */
  function MarkRead(msgs: seq<Message>, conv: Id, receiver: Id): seq<Message> {
    seq(|msgs|, j requires 0 <= j < |msgs| =>
      if MarksRead(msgs[j], conv, receiver) then msgs[j].(isReadByReceiver := true) else msgs[j])
  }

  /** Afterwards a message is read exactly when it was read before or it is
      one the receiver got in that conversation; the receiver's own
      messages, other conversations' messages and every other column are
      untouched. Marking twice is marking once. */
  lemma MarkReadMeaning(msgs: seq<Message>, conv: Id, receiver: Id)
    ensures SameKeys(msgs, MarkRead(msgs, conv, receiver))
    ensures forall j :: 0 <= j < |msgs| ==>
      (MarkRead(msgs, conv, receiver)[j].isReadByReceiver <==> msgs[j].isReadByReceiver || MarksRead(msgs[j], conv, receiver))
    ensures forall j :: 0 <= j < |msgs| ==>
      MarkRead(msgs, conv, receiver)[j].(isReadByReceiver := msgs[j].isReadByReceiver) == msgs[j]
    ensures forall j :: 0 <= j < |msgs| && (msgs[j].conversation != conv || msgs[j].sender == Some(receiver)) ==>
      MarkRead(msgs, conv, receiver)[j] == msgs[j]
    ensures MarkRead(MarkRead(msgs, conv, receiver), conv, receiver) == MarkRead(msgs, conv, receiver)
  {
  }

  // ---------------------------------------------------------------------
  // MessagesService.hide_messages_for_user

  /** The message table after `messages.update(IsVisibleToUser1=False)`
      (`side1`) or `messages.update(IsVisibleToUser2=False)`. */
  function HideFor(msgs: seq<Message>, conv: Id, side1: bool): seq<Message> {
    seq(|msgs|, j requires 0 <= j < |msgs| =>
      if msgs[j].conversation != conv then msgs[j]
      else if side1 then msgs[j].(isVisibleToUser1 := false)
      else msgs[j].(isVisibleToUser2 := false))
  }

  /** Every message of the conversation is hidden on the chosen side; the
      other side's flag and every message of other conversations are
      untouched. */
  lemma HideForMeaning(msgs: seq<Message>, conv: Id, side1: bool)
    ensures SameKeys(msgs, HideFor(msgs, conv, side1))
    ensures forall j :: 0 <= j < |msgs| && msgs[j].conversation == conv ==>
      if side1 then !HideFor(msgs, conv, side1)[j].isVisibleToUser1 &&
                    HideFor(msgs, conv, side1)[j].isVisibleToUser2 == msgs[j].isVisibleToUser2
      else !HideFor(msgs, conv, side1)[j].isVisibleToUser2 &&
           HideFor(msgs, conv, side1)[j].isVisibleToUser1 == msgs[j].isVisibleToUser1
    ensures forall j :: 0 <= j < |msgs| ==>
      HideFor(msgs, conv, side1)[j].(isVisibleToUser1 := msgs[j].isVisibleToUser1,
                                     isVisibleToUser2 := msgs[j].isVisibleToUser2) == msgs[j]
    ensures forall j :: 0 <= j < |msgs| && msgs[j].conversation != conv ==> HideFor(msgs, conv, side1)[j] == msgs[j]
  {
  }

  // ---------------------------------------------------------------------
  // get

  /** `Q(user1=uid, IsVisibleToUser1=True) | Q(user2=uid, IsVisibleToUser2=True)`
      for one row. */
  predicate ShownTo(c: Conversation, uid: Id) {
    (c.user1 == Some(uid) && c.isVisibleToUser1) || (c.user2 == Some(uid) && c.isVisibleToUser2)
  }

  /** `get(request)`: the keys, in table order, of the conversations the
      requester sees. */
  function Listed(convs: seq<Conversation>, uid: Id): seq<Id>
    decreases |convs|
  {
    if convs == [] then []
    else (if ShownTo(convs[0], uid) then [convs[0].id] else []) + Listed(convs[1..], uid)
  }

  ghost predicate ListedRow(convs: seq<Conversation>, uid: Id, id: Id) {
    exists i :: 0 <= i < |convs| && convs[i].id == id && ShownTo(convs[i], uid)
  }

  /** The list holds exactly the keys of the conversations in which the
      requester is on a side whose visibility flag is set. */
  lemma {:induction false} ListedMeaning(convs: seq<Conversation>, uid: Id, id: Id)
    ensures id in Listed(convs, uid) <==> ListedRow(convs, uid, id)
    decreases |convs|
  {
    if convs != [] {
      ListedMeaning(convs[1..], uid, id);
      if ListedRow(convs[1..], uid, id) {
        var i :| 0 <= i < |convs[1..]| && convs[1..][i].id == id && ShownTo(convs[1..][i], uid);
        assert convs[i + 1] == convs[1..][i];
      }
      if ListedRow(convs, uid, id) {
        var i :| 0 <= i < |convs| && convs[i].id == id && ShownTo(convs[i], uid);
        if i > 0 {
          assert convs[1..][i - 1] == convs[i];
          assert ListedRow(convs[1..], uid, id);
        }
      }
    }
  }

  // ---------------------------------------------------------------------
  // post

  /** `user2__username=name` (or `user1__username=name`) on one side of a
      row. Django reads `=None` as IS NULL over an outer join, so a missing
      name matches a side set to NULL. */
  predicate Named(users: seq<User>, side: Option<Id>, name: Option<string>) {
    if name.None? then side.None?
    else side.Some? && match FindById(users, side.value) case Some(u) => u.username == name.value case None => false
  }

  /** `Q(user1=uid, user2__username=name) | Q(user1__username=name, user2=uid)`. */
  predicate Existing(users: seq<User>, c: Conversation, uid: Id, name: Option<string>) {
    (c.user1 == Some(uid) && Named(users, c.user2, name)) || (Named(users, c.user1, name) && c.user2 == Some(uid))
  }

  /** `.first()`: the position of the first such row in key order, or -1. */
  function FirstExisting(users: seq<User>, convs: seq<Conversation>, uid: Id, name: Option<string>): (k: int)
    ensures -1 <= k < |convs|
    ensures k >= 0 ==> Existing(users, convs[k], uid, name)
    ensures k >= 0 ==> forall i :: 0 <= i < k ==> !Existing(users, convs[i], uid, name)
    ensures k == -1 <==> forall i :: 0 <= i < |convs| ==> !Existing(users, convs[i], uid, name)
    decreases |convs|
  {
    if convs == [] then -1
    else if Existing(users, convs[0], uid, name) then 0
    else
      var k := FirstExisting(users, convs[1..], uid, name);
      assert forall i :: 1 <= i < |convs| ==> convs[i] == convs[1..][i - 1];
      if k == -1 then -1 else k + 1
  }

  /** Setting the requester's visibility flag: `user1`'s when the requester
      is `user1`, otherwise `user2`'s. */
  function Reopen(c: Conversation, uid: Id): Conversation {
    if c.user1 == Some(uid) then c.(isVisibleToUser1 := true) else c.(isVisibleToUser2 := true)
  }

  /** A view's response, the conversation table it leaves and that table's
      next key. */
  datatype PostChange = PostChange(response: Response, convs: seq<Conversation>, next: Id)

  /** The validation `post` falls back on may be stored: the validated user
      shares no conversation with the requester. */
  ghost predicate Storable(v: ConversationValidation, convs: seq<Conversation>, requester: User) {
    v.Validated? ==> !AnyBetween(convs, Some(requester.id), Some(v.user2.id))
  }

  /** `post(request)`, `name` being `request.data.get("user2_username")` and
      `v` what `is_valid()` gives for the same data: an existing
      conversation is made visible to the requester again (200), otherwise
      the serializer creates one (201) or refuses (400, or the 404 of an
      unknown name). */
  function Post(users: seq<User>, convs: seq<Conversation>, next: Id, requester: User,
                name: Option<string>, v: ConversationValidation): PostChange
    requires Storable(v, convs, requester)
  {
    var k := FirstExisting(users, convs, requester.id, name);
    if k >= 0 then PostChange(OkObject(convs[k].id), convs[k := Reopen(convs[k], requester.id)], next)
    else
      match v
      case Invalid(e) => PostChange(BadRequestErrors(e), convs, next)
      case UserNotFound => PostChange(NotFound(NotFoundDetail("Users")), convs, next)
      case Validated(u2) => PostChange(Created(next), CreateConversation(convs, next, requester, u2).value, next + 1)
  }

  /** What the serializer validates can be stored. */
  lemma ValidatedIsStorable(users: seq<User>, convs: seq<Conversation>, requester: User, name: Option<string>)
    ensures Storable(ValidateConversation(users, convs, requester, name), convs, requester)
  {
    ValidateConversationAcceptance(users, convs, requester, name);
  }

  /** With a matching conversation, `post` answers 200 with its key, adds
      no row, and leaves the row visible to the requester, having changed
      nothing but the requester's visibility flag. */
  lemma PostReopens(users: seq<User>, convs: seq<Conversation>, next: Id, requester: User,
                    name: Option<string>, v: ConversationValidation)
    requires Storable(v, convs, requester)
    requires FirstExisting(users, convs, requester.id, name) >= 0
    ensures var k := FirstExisting(users, convs, requester.id, name);
      var p := Post(users, convs, next, requester, name, v);
      p.response == OkObject(convs[k].id) && p.next == next && |p.convs| == |convs| &&
      ShownTo(p.convs[k], requester.id) &&
      p.convs[k].(isVisibleToUser1 := convs[k].isVisibleToUser1, isVisibleToUser2 := convs[k].isVisibleToUser2) == convs[k] &&
      (forall i :: 0 <= i < |convs| && i != k ==> p.convs[i] == convs[i])
  {
  }

  /** Without one, a validated request appends a conversation from the
      requester to the named user, visible to both; a refused one changes
      nothing. */
  lemma PostCreates(users: seq<User>, convs: seq<Conversation>, next: Id, requester: User,
                    name: Option<string>, v: ConversationValidation)
    requires Storable(v, convs, requester)
    requires FirstExisting(users, convs, requester.id, name) == -1
    ensures v.Validated? ==>
      var p := Post(users, convs, next, requester, name, v);
      p == PostChange(Created(next), convs + [NewConversation(next, requester.id, v.user2.id)], next + 1) &&
      ShownTo(p.convs[|convs|], requester.id) && ShownTo(p.convs[|convs|], v.user2.id)
    ensures !v.Validated? ==>
      var p := Post(users, convs, next, requester, name, v);
      p.convs == convs && p.next == next &&
      p.response == if v.Invalid? then BadRequestErrors(v.errors) else NotFound(NotFoundDetail("Users"))
  {
  }

  /** In a valid users table, the other user of a conversation is found by
      their username whichever side the requester is on. */
  lemma ExistingEitherOrder(users: seq<User>, c: Conversation, requester: Id, other: User)
    requires UsersTableValid(users) && other in users
    requires (c.user1 == Some(requester) && c.user2 == Some(other.id)) ||
             (c.user1 == Some(other.id) && c.user2 == Some(requester))
    ensures Existing(users, c, requester, Some(other.username))
  {
    var i :| 0 <= i < |users| && users[i] == other;
    var u := FindById(users, other.id).value;
    var j :| 0 <= j < |users| && users[j] == u;
    assert users[i].id == users[j].id;
  }

  /** A name picks at most one conversation of the requester: the named
      user is one row, and a valid table has one conversation per pair. */
  lemma ExistingUnique(users: seq<User>, convs: seq<Conversation>, nextC: Id, uid: Id, name: string, i: nat, j: nat)
    requires UsersTableValid(users) && ConversationsValid(convs, nextC)
    requires i < j < |convs|
    requires Existing(users, convs[i], uid, Some(name))
    ensures !Existing(users, convs[j], uid, Some(name))
  {
    var a := if convs[i].user1 == Some(uid) && Named(users, convs[i].user2, Some(name)) then convs[i].user2.value else convs[i].user1.value;
    var ua := FindById(users, a).value;
    if Existing(users, convs[j], uid, Some(name)) {
      var b := if convs[j].user1 == Some(uid) && Named(users, convs[j].user2, Some(name)) then convs[j].user2.value else convs[j].user1.value;
      var ub := FindById(users, b).value;
      assert ua.username == name && ub.username == name;
      UsernameDeterminesUser(users, ua, ub);
      assert Between(convs[j], convs[i].user1, convs[i].user2);
    }
  }

  /** `post` keeps the conversation table valid together with the messages. */
  lemma PostValid(users: seq<User>, convs: seq<Conversation>, msgs: seq<Message>, next: Id, requester: User,
                  name: Option<string>, v: ConversationValidation)
    requires ConversationsValid(convs, next) && Integrity(convs, msgs)
    requires Storable(v, convs, requester)
    ensures var p := Post(users, convs, next, requester, name, v);
      ConversationsValid(p.convs, p.next) && Integrity(p.convs, msgs)
  {
    var k := FirstExisting(users, convs, requester.id, name);
    if k >= 0 {
      UpdatePreservesValid(convs, msgs, next, k, Reopen(convs[k], requester.id));
    } else if v.Validated? {
      CreatePreservesValid(convs, msgs, next, requester.id, v.user2.id);
    }
  }

  /** A post names only stored users: a reopened row keeps its sides, and a
      new row joins the requester and the user the serializer found. */
  lemma PostUsersIn(users: seq<User>, convs: seq<Conversation>, msgs: seq<Message>, next: Id, requester: User,
                    name: Option<string>, v: ConversationValidation, ids: set<Id>)
    requires Storable(v, convs, requester) && UsersIn(convs, msgs, ids)
    requires requester.id in ids && (v.Validated? ==> v.user2.id in ids)
    ensures UsersIn(Post(users, convs, next, requester, name, v).convs, msgs, ids)
  {
    var k := FirstExisting(users, convs, requester.id, name);
    if k >= 0 {
      UpdateUsersIn(convs, msgs, k, Reopen(convs[k], requester.id), ids);
    } else if v.Validated? {
      CreateUsersIn(convs, msgs, next, requester.id, v.user2.id, ids);
    }
  }

  // ---------------------------------------------------------------------
  // patch

  /** Clearing the requester's visibility flag: `user1`'s when the
      requester is `user1`, otherwise `user2`'s. */
  function Hide(c: Conversation, uid: Id): Conversation {
    if c.user1 == Some(uid) then c.(isVisibleToUser1 := false) else c.(isVisibleToUser2 := false)
  }

  datatype PatchChange = PatchChange(response: Response, convs: seq<Conversation>, msgs: seq<Message>)

  /** `patch(request, pk)`: 404 without such a conversation; otherwise the
      conversation and all its messages are hidden on the requester's side
      (the `user2` side when the requester is not `user1`) and the answer is
      an empty 200. No object permission is checked. */
  function Patch(convs: seq<Conversation>, msgs: seq<Message>, requester: Id, pk: nat): PatchChange {
    var k := ChatModels.IndexOf(convs, pk);
    if k < 0 then PatchChange(NotFound(ConversationNotFound()), convs, msgs)
    else
      var c := convs[k];
      PatchChange(OkEmpty, convs[k := Hide(c, requester)], HideFor(msgs, pk, c.user1 == Some(requester)))
  }

  /** A participant of a two-person conversation no longer sees it or its
      messages, while the other participant's view of the conversation and
      of its messages is as before. */
  lemma PatchHidesOneSide(convs: seq<Conversation>, msgs: seq<Message>, nextC: Id, pk: nat, a: Id, b: Id)
    requires ConversationsValid(convs, nextC)
    requires HasConversation(convs, pk)
    requires var k := ChatModels.IndexOf(convs, pk);
      (convs[k].user1 == Some(a) && convs[k].user2 == Some(b)) || (convs[k].user1 == Some(b) && convs[k].user2 == Some(a))
    requires a != b
    ensures var p := Patch(convs, msgs, a, pk);
      var k := ChatModels.IndexOf(convs, pk);
      p.response == OkEmpty &&
      !ShownTo(p.convs[k], a) && ShownTo(p.convs[k], b) == ShownTo(convs[k], b) &&
      (forall i :: 0 <= i < |convs| && i != k ==> p.convs[i] == convs[i])
    ensures var p := Patch(convs, msgs, a, pk);
      var k := ChatModels.IndexOf(convs, pk);
      forall j :: 0 <= j < |msgs| && msgs[j].conversation == pk ==>
        (if convs[k].user1 == Some(a) then !p.msgs[j].isVisibleToUser1 && p.msgs[j].isVisibleToUser2 == msgs[j].isVisibleToUser2
         else !p.msgs[j].isVisibleToUser2 && p.msgs[j].isVisibleToUser1 == msgs[j].isVisibleToUser1)
  {
    var k := ChatModels.IndexOf(convs, pk);
    HideForMeaning(msgs, pk, convs[k].user1 == Some(a));
  }

  /** Without a permission check, a user outside the conversation hides it
      for its `user2`. */
  lemma OutsiderHidesSecondSide(convs: seq<Conversation>, msgs: seq<Message>, pk: nat, outsider: Id)
    requires HasConversation(convs, pk)
    requires var k := ChatModels.IndexOf(convs, pk);
      convs[k].user1 != Some(outsider) && convs[k].user2 != Some(outsider) &&
      convs[k].user2.Some? && convs[k].user1 != convs[k].user2
    ensures var k := ChatModels.IndexOf(convs, pk);
      var p := Patch(convs, msgs, outsider, pk);
      p.response == OkEmpty && !ShownTo(p.convs[k], convs[k].user2.value)
  {
  }

  /** `patch` keeps the chat tables valid. */
  lemma PatchValid(convs: seq<Conversation>, msgs: seq<Message>, nextC: Id, nextM: Id, requester: Id, pk: nat)
    requires ConversationsValid(convs, nextC) && MessagesValid(msgs, nextM) && Integrity(convs, msgs)
    ensures var p := Patch(convs, msgs, requester, pk);
      ConversationsValid(p.convs, nextC) && MessagesValid(p.msgs, nextM) && Integrity(p.convs, p.msgs)
  {
    var k := ChatModels.IndexOf(convs, pk);
    if k >= 0 {
      var msgs' := HideFor(msgs, pk, convs[k].user1 == Some(requester));
      HideForMeaning(msgs, pk, convs[k].user1 == Some(requester));
      SameKeysValid(convs, msgs, msgs', nextM);
      UpdatePreservesValid(convs, msgs', nextC, k, Hide(convs[k], requester));
    }
  }

  /** The requester's conversation with a named user is the first match,
      since it is the only one. */
  lemma OnlyExisting(users: seq<User>, convs: seq<Conversation>, nextC: Id, uid: Id, name: string, k: nat)
    requires UsersTableValid(users) && ConversationsValid(convs, nextC)
    requires k < |convs| && Existing(users, convs[k], uid, Some(name))
    ensures FirstExisting(users, convs, uid, Some(name)) == k
  {
    var f := FirstExisting(users, convs, uid, Some(name));
    if f < k {
      ExistingUnique(users, convs, nextC, uid, name, f, k);
    }
  }

  /** Hiding a conversation keeps its key, its users and the table's validity. */
  lemma PatchKeepsRows(convs: seq<Conversation>, msgs: seq<Message>, nextC: Id, requester: Id, pk: nat)
    requires ConversationsValid(convs, nextC) && Integrity(convs, msgs)
    requires HasConversation(convs, pk)
    ensures var k := ChatModels.IndexOf(convs, pk);
      var convs' := Patch(convs, msgs, requester, pk).convs;
      ConversationsValid(convs', nextC) && |convs'| == |convs| && convs'[k].id == pk &&
      convs'[k].user1 == convs[k].user1 && convs'[k].user2 == convs[k].user2
  {
    var k := ChatModels.IndexOf(convs, pk);
    UpdatePreservesValid(convs, msgs, nextC, k, Hide(convs[k], requester));
  }

  /** Hiding and then asking again for the conversation with the same user
      makes it visible to the requester again, under the same key and
      without a new row. */
  lemma HideThenReopen(users: seq<User>, convs: seq<Conversation>, msgs: seq<Message>, nextC: Id,
                       pk: nat, requester: User, other: User, v: ConversationValidation)
    requires UsersTableValid(users) && other in users
    requires ConversationsValid(convs, nextC) && Integrity(convs, msgs)
    requires HasConversation(convs, pk)
    requires var k := ChatModels.IndexOf(convs, pk);
      (convs[k].user1 == Some(requester.id) && convs[k].user2 == Some(other.id)) ||
      (convs[k].user1 == Some(other.id) && convs[k].user2 == Some(requester.id))
    requires var convs' := Patch(convs, msgs, requester.id, pk).convs; Storable(v, convs', requester)
    ensures var convs' := Patch(convs, msgs, requester.id, pk).convs;
      var p := Post(users, convs', nextC, requester, Some(other.username), v);
      p.response == OkObject(pk) && |p.convs| == |convs| && pk in Listed(p.convs, requester.id)
  {
    var k := ChatModels.IndexOf(convs, pk);
    var convs' := Patch(convs, msgs, requester.id, pk).convs;
    PatchKeepsRows(convs, msgs, nextC, requester.id, pk);
    ExistingEitherOrder(users, convs'[k], requester.id, other);
    OnlyExisting(users, convs', nextC, requester.id, other.username, k);
    var p := Post(users, convs', nextC, requester, Some(other.username), v);
    PostReopens(users, convs', nextC, requester, Some(other.username), v);
    ListedMeaning(p.convs, requester.id, pk);
    assert p.convs[k].id == pk;
  }

  // ---------------------------------------------------------------------
  // The views on the database

  /** `mark_messages_as_read(receiver, conversation)`: the UPDATE visits
      every message row and sets the flag on those it selects. */
  method MarkMessagesAsRead(db: Store.Database, receiver: Id, conv: Id)
    requires db.Valid()
    modifies db
    ensures db.Valid()
    ensures db.messages == MarkRead(old(db.messages), conv, receiver)
    ensures db.conversations == old(db.conversations) && db.users == old(db.users)
    ensures db.blacklist == old(db.blacklist) && db.friendships == old(db.friendships)
    ensures db.nextUserId == old(db.nextUserId) && db.nextFriendshipId == old(db.nextFriendshipId)
    ensures db.nextConversationId == old(db.nextConversationId) && db.nextMessageId == old(db.nextMessageId)
  {
    var ms := db.messages;
    var i := 0;
    while i < |ms|
      invariant 0 <= i <= |ms| == |db.messages|
      invariant forall j :: 0 <= j < i ==> ms[j] == MarkRead(db.messages, conv, receiver)[j]
      invariant forall j :: i <= j < |ms| ==> ms[j] == db.messages[j]
    {
      if MarksRead(ms[i], conv, receiver) {
        ms := ms[i := ms[i].(isReadByReceiver := true)];
      }
      i := i + 1;
    }
    assert ms == MarkRead(db.messages, conv, receiver);
    MarkReadMeaning(db.messages, conv, receiver);
    SameKeysValid(db.conversations, db.messages, ms, db.nextMessageId);
    SameKeysUsersIn(db.conversations, db.messages, ms, UserIds(db.users));
    db.ReplaceChats(db.conversations, ms, db.nextConversationId);
  }

  /** `hide_messages_for_user(user, conversation)`: the side is chosen by
      comparing the user with the conversation's `user1`. */
  method HideMessagesForUser(db: Store.Database, user: Id, c: Conversation)
    requires db.Valid()
    modifies db
    ensures db.Valid()
    ensures db.messages == HideFor(old(db.messages), c.id, c.user1 == Some(user))
    ensures db.conversations == old(db.conversations) && db.users == old(db.users)
    ensures db.blacklist == old(db.blacklist) && db.friendships == old(db.friendships)
    ensures db.nextUserId == old(db.nextUserId) && db.nextFriendshipId == old(db.nextFriendshipId)
    ensures db.nextConversationId == old(db.nextConversationId) && db.nextMessageId == old(db.nextMessageId)
  {
    var side1 := c.user1 == Some(user);
    var ms := db.messages;
    var i := 0;
    while i < |ms|
      invariant 0 <= i <= |ms| == |db.messages|
      invariant forall j :: 0 <= j < i ==> ms[j] == HideFor(db.messages, c.id, side1)[j]
      invariant forall j :: i <= j < |ms| ==> ms[j] == db.messages[j]
    {
      if ms[i].conversation == c.id {
        if side1 {
          ms := ms[i := ms[i].(isVisibleToUser1 := false)];
        } else {
          ms := ms[i := ms[i].(isVisibleToUser2 := false)];
        }
      }
      i := i + 1;
    }
    assert ms == HideFor(db.messages, c.id, side1);
    HideForMeaning(db.messages, c.id, side1);
    SameKeysValid(db.conversations, db.messages, ms, db.nextMessageId);
    SameKeysUsersIn(db.conversations, db.messages, ms, UserIds(db.users));
    db.ReplaceChats(db.conversations, ms, db.nextConversationId);
  }

  /** `post(request)` on the database. The requester is the authenticated
      user, a row of the users table. */
  method PostConversation(db: Store.Database, requester: User, name: Option<string>) returns (r: Response)
    requires db.Valid() && requester in db.users
    modifies db
    ensures db.Valid()
    ensures var v := ValidateConversation(old(db.users), old(db.conversations), requester, name);
      Storable(v, old(db.conversations), requester) &&
      var p := Post(old(db.users), old(db.conversations), old(db.nextConversationId), requester, name, v);
      r == p.response && db.conversations == p.convs && db.nextConversationId == p.next
    ensures db.messages == old(db.messages) && db.users == old(db.users)
    ensures db.blacklist == old(db.blacklist) && db.friendships == old(db.friendships)
    ensures db.nextUserId == old(db.nextUserId) && db.nextFriendshipId == old(db.nextFriendshipId)
    ensures db.nextMessageId == old(db.nextMessageId)
  {
    var v := ValidateConversation(db.users, db.conversations, requester, name);
    ValidatedIsStorable(db.users, db.conversations, requester, name);
    var p := Post(db.users, db.conversations, db.nextConversationId, requester, name, v);
    PostValid(db.users, db.conversations, db.messages, db.nextConversationId, requester, name, v);
    ValidateConversationAcceptance(db.users, db.conversations, requester, name);
    PostUsersIn(db.users, db.conversations, db.messages, db.nextConversationId, requester, name, v, UserIds(db.users));
    db.ReplaceChats(p.convs, db.messages, p.next);
    r := p.response;
  }

  /** `patch(request, pk)` on the database: the messages are hidden first,
      then the conversation row is saved with its flag cleared. */
  method HideConversation(db: Store.Database, requester: Id, pk: nat) returns (r: Response)
    requires db.Valid()
    modifies db
    ensures db.Valid()
    ensures PatchChange(r, db.conversations, db.messages) == Patch(old(db.conversations), old(db.messages), requester, pk)
    ensures db.users == old(db.users) && db.blacklist == old(db.blacklist) && db.friendships == old(db.friendships)
    ensures db.nextUserId == old(db.nextUserId) && db.nextFriendshipId == old(db.nextFriendshipId)
    ensures db.nextConversationId == old(db.nextConversationId) && db.nextMessageId == old(db.nextMessageId)
  {
    var k := ChatModels.IndexOf(db.conversations, pk);
    if k < 0 {
      return NotFound(ConversationNotFound());
    }
    var c := db.conversations[k];
    HideMessagesForUser(db, requester, c);
    UpdatePreservesValid(db.conversations, db.messages, db.nextConversationId, k, Hide(c, requester));
    UpdateUsersIn(db.conversations, db.messages, k, Hide(c, requester), UserIds(db.users));
    db.ReplaceChats(db.conversations[k := Hide(c, requester)], db.messages, db.nextConversationId);
    r := OkEmpty;
  }
}
