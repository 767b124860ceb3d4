/** The `Messages` and `Conversations` models of backend/chats/models.py:
    their defaults, the unordered-pair rule that `clean` checks on every save
    of a new conversation, and what the database does to other rows when a
    conversation, a message or a user is deleted (CASCADE and SET_NULL). */
module ChatModels {
  import opened Common

  const AlreadyExists := "This conversation already exists."
  const ContentBlank := "This field cannot be blank."

  /** One message. The two visibility flags are used by the views but are not
      declared on the model shown; they are taken to start out true. */
  datatype Message = Message(
    id: Id,
    conversation: Id,
    sender: Option<Id>,
    content: string,
    isReadByReceiver: bool,
    isVisibleToUser1: bool,
    isVisibleToUser2: bool)

  /** A message as first saved: `IsReadByReceiver` defaults to false. */
  function NewMessage(id: Id, conversation: Id, sender: Id, content: string): (m: Message)
    ensures !m.isReadByReceiver && m.isVisibleToUser1 && m.isVisibleToUser2
    ensures m.id == id && m.conversation == conversation && m.sender == Some(sender) && m.content == content
  {
    Message(id, conversation, Some(sender), content, false, true, true)
  }

  /** `content = TextField(blank=False, null=False)`: model validation
      (`full_clean`) refuses an empty content. `Messages` overrides no
      `save`, and nothing in this core runs `full_clean` on a message, so
      the rule binds only a caller that validates the model first; a plain
      `save()` stores an empty content. */
  function ContentErrors(content: string): (errs: seq<string>)
    ensures errs == [] <==> |content| > 0
    ensures errs != [] ==> errs == [ContentBlank]
  {
    if content == "" then [ContentBlank] else []
  }

  /** One conversation; a side is None once that user has been deleted. */
  datatype Conversation = Conversation(
    id: Id,
    user1: Option<Id>,
    user2: Option<Id>,
    isVisibleToUser1: bool,
    isVisibleToUser2: bool,
    isBlockedByUser1: bool,
    isBlockedByUser2: bool,
    lastMessage: Option<Id>)

  /** `Conversations.objects.create(user1=..., user2=...)` before `save`. */
  function NewConversation(id: Id, user1: Id, user2: Id): (c: Conversation)
    ensures c.isVisibleToUser1 && c.isVisibleToUser2
    ensures !c.isBlockedByUser1 && !c.isBlockedByUser2
    ensures c.lastMessage.None?
    ensures c.id == id && c.user1 == Some(user1) && c.user2 == Some(user2)
  {
    Conversation(id, Some(user1), Some(user2), true, true, false, false, None)
  }

  /** `Q(user1=a, user2=b) | Q(user1=b, user2=a)`; a None side matches IS NULL. */
  predicate Between(c: Conversation, a: Option<Id>, b: Option<Id>) {
    (c.user1 == a && c.user2 == b) || (c.user1 == b && c.user2 == a)
  }

  predicate AnyBetween(convs: seq<Conversation>, a: Option<Id>, b: Option<Id>) {
    exists i :: 0 <= i < |convs| && Between(convs[i], a, b)
  }

  function ExistsBetween(convs: seq<Conversation>, a: Option<Id>, b: Option<Id>): (r: bool)
    ensures r <==> AnyBetween(convs, a, b)
    decreases |convs|
  {
    if convs == [] then false
    else if Between(convs[0], a, b) then true
    else
      var r := ExistsBetween(convs[1..], a, b);
      assert AnyBetween(convs, a, b) ==> r by {
        if AnyBetween(convs, a, b) {
          var i :| 0 <= i < |convs| && Between(convs[i], a, b);
          assert i > 0 && Between(convs[1..][i - 1], a, b);
        }
      }
      r
  }

  predicate HasConversation(convs: seq<Conversation>, id: Id) {
    exists i :: 0 <= i < |convs| && convs[i].id == id
  }

  predicate HasMessage(msgs: seq<Message>, id: Id) {
    exists j :: 0 <= j < |msgs| && msgs[j].id == id
  }

  // ---------------------------------------------------------------------
  // Table invariants

  /** Rows in primary-key order below the next key, and no two conversations
      between the same two (present) users, in either order. */
  ghost predicate ConversationsValid(convs: seq<Conversation>, next: Id) {
    && (forall i, j :: 0 <= i < j < |convs| ==> convs[i].id < convs[j].id)
    && (forall i :: 0 <= i < |convs| ==> convs[i].id < next)
    && (forall i, j :: 0 <= i < j < |convs| && convs[i].user1.Some? && convs[i].user2.Some? ==>
          !Between(convs[j], convs[i].user1, convs[i].user2))
  }

  ghost predicate MessagesValid(msgs: seq<Message>, next: Id) {
    && (forall i, j :: 0 <= i < j < |msgs| ==> msgs[i].id < msgs[j].id)
    && (forall i :: 0 <= i < |msgs| ==> msgs[i].id < next)
  }

  /** Foreign keys: every message belongs to a stored conversation and every
      `lastMessage` names a stored message. */
  ghost predicate Integrity(convs: seq<Conversation>, msgs: seq<Message>) {
    && (forall j :: 0 <= j < |msgs| ==> HasConversation(convs, msgs[j].conversation))
    && (forall i :: 0 <= i < |convs| && convs[i].lastMessage.Some? ==> HasMessage(msgs, convs[i].lastMessage.value))
  }

  // ---------------------------------------------------------------------
  // clean / save

  /** `clean`: only a conversation without a primary key is checked. */
  function Clean(convs: seq<Conversation>, user1: Option<Id>, user2: Option<Id>, isNew: bool): (err: Option<string>)
    ensures err.Some? <==> isNew && AnyBetween(convs, user1, user2)
    ensures err.Some? ==> err.value == AlreadyExists
  {
    if isNew && ExistsBetween(convs, user1, user2) then Some(AlreadyExists) else None
  }

  /** Creating a conversation: `save` runs `clean`, then inserts the new row
      with the next primary key. */
  function Create(convs: seq<Conversation>, next: Id, user1: Id, user2: Id): (r: Result<seq<Conversation>, string>)
    ensures r.Failure? <==> AnyBetween(convs, Some(user1), Some(user2))
    ensures r.Failure? ==> r.error == AlreadyExists
    ensures r.Success? ==> r.value == convs + [NewConversation(next, user1, user2)]
  {
    match Clean(convs, Some(user1), Some(user2), true)
    case Some(msg) => Failure(msg)
    case None => Success(convs + [NewConversation(next, user1, user2)])
  }

  /** Creation keeps every invariant and is refused in both orders alike. */
  lemma CreatePreservesValid(convs: seq<Conversation>, msgs: seq<Message>, next: Id, user1: Id, user2: Id)
    requires ConversationsValid(convs, next) && Integrity(convs, msgs)
    ensures Create(convs, next, user1, user2).Success? ==>
      ConversationsValid(Create(convs, next, user1, user2).value, next + 1) &&
      Integrity(Create(convs, next, user1, user2).value, msgs)
    ensures Create(convs, next, user1, user2).Success? <==> Create(convs, next, user2, user1).Success?
  {
    var a, b := Some(user1), Some(user2);
    if Create(convs, next, user1, user2).Success? {
      var convs' := convs + [NewConversation(next, user1, user2)];
      forall i, j | 0 <= i < j < |convs'| && convs'[i].user1.Some? && convs'[i].user2.Some?
        ensures !Between(convs'[j], convs'[i].user1, convs'[i].user2)
      {
        if j == |convs| { assert !Between(convs[i], a, b); }
      }
      forall j | 0 <= j < |msgs| ensures HasConversation(convs', msgs[j].conversation) {
        var i :| 0 <= i < |convs| && convs[i].id == msgs[j].conversation;
        assert convs'[i] == convs[i];
      }
    }
    assert AnyBetween(convs, a, b) ==> AnyBetween(convs, b, a) by {
      if AnyBetween(convs, a, b) {
        var i :| 0 <= i < |convs| && Between(convs[i], a, b);
        assert Between(convs[i], b, a);
      }
    }
    assert AnyBetween(convs, b, a) ==> AnyBetween(convs, a, b) by {
      if AnyBetween(convs, b, a) {
        var i :| 0 <= i < |convs| && Between(convs[i], b, a);
        assert Between(convs[i], a, b);
      }
    }
  }

  /** Position of the conversation with primary key `id`, or -1. */
  function IndexOf(convs: seq<Conversation>, id: Id): (k: int)
    ensures -1 <= k < |convs|
    ensures k == -1 <==> !HasConversation(convs, id)
    ensures k >= 0 ==> convs[k].id == id
    decreases |convs|
  {
    if convs == [] then -1
    else if convs[0].id == id then 0
    else
      var k := IndexOf(convs[1..], id);
      assert forall i :: 1 <= i < |convs| ==> convs[i] == convs[1..][i - 1];
      if k == -1 then -1 else k + 1
  }

  /** Re-saving an existing conversation passes `clean`, and an UPDATE that
      keeps its key, its users and its last message keeps every invariant. */
  lemma UpdatePreservesValid(convs: seq<Conversation>, msgs: seq<Message>, next: Id, k: nat, c: Conversation)
    requires ConversationsValid(convs, next) && Integrity(convs, msgs) && k < |convs|
    requires c.id == convs[k].id && c.user1 == convs[k].user1 && c.user2 == convs[k].user2
    requires c.lastMessage == convs[k].lastMessage
    ensures Clean(convs, c.user1, c.user2, false).None?
    ensures ConversationsValid(convs[k := c], next) && Integrity(convs[k := c], msgs)
  {
    var convs' := convs[k := c];
    forall i, j | 0 <= i < j < |convs'| && convs'[i].user1.Some? && convs'[i].user2.Some?
      ensures !Between(convs'[j], convs'[i].user1, convs'[i].user2)
    {
      assert !Between(convs[j], convs[i].user1, convs[i].user2);
    }
    forall j | 0 <= j < |msgs| ensures HasConversation(convs', msgs[j].conversation) {
      var i :| 0 <= i < |convs| && convs[i].id == msgs[j].conversation;
      assert convs'[i].id == convs[i].id;
    }
  }

  /** Two message tables holding the same rows in the same order, up to
      their flag columns: what an UPDATE of flags leaves. */
  predicate SameKeys(a: seq<Message>, b: seq<Message>) {
    |a| == |b| &&
    forall j :: 0 <= j < |a| ==> a[j].id == b[j].id && a[j].conversation == b[j].conversation && a[j].sender == b[j].sender
  }

  /** Updating flag columns of messages keeps the message table and the
      foreign keys valid. */
  lemma SameKeysValid(convs: seq<Conversation>, msgs: seq<Message>, msgs': seq<Message>, next: Id)
    requires MessagesValid(msgs, next) && Integrity(convs, msgs) && SameKeys(msgs, msgs')
    ensures MessagesValid(msgs', next) && Integrity(convs, msgs')
  {
    forall i | 0 <= i < |convs| && convs[i].lastMessage.Some? ensures HasMessage(msgs', convs[i].lastMessage.value) {
      var j :| 0 <= j < |msgs| && msgs[j].id == convs[i].lastMessage.value;
      assert msgs'[j].id == msgs[j].id;
    }
  }

  // ---------------------------------------------------------------------
  // Deletion rules

  /** The messages that survive deleting the conversations whose keys are in
      `gone`, in their original order. */
  function KeepMessages(msgs: seq<Message>, gone: set<Id>): (r: seq<Message>)
    ensures |r| <= |msgs|
    ensures forall j :: 0 <= j < |r| ==> r[j] in msgs && r[j].conversation !in gone
    decreases |msgs|
  {
    if msgs == [] then []
    else
      var rest := KeepMessages(msgs[1..], gone);
      if msgs[0].conversation in gone then rest else [msgs[0]] + rest
  }

  /** Every message of a conversation that is not deleted survives. */
  lemma {:induction false} KeepMessagesKeeps(msgs: seq<Message>, gone: set<Id>)
    ensures forall j :: 0 <= j < |msgs| && msgs[j].conversation !in gone ==> msgs[j] in KeepMessages(msgs, gone)
    decreases |msgs|
  {
    if msgs != [] {
      var tail := msgs[1..];
      KeepMessagesKeeps(tail, gone);
      forall j | 1 <= j < |msgs| && msgs[j].conversation !in gone
        ensures msgs[j] in KeepMessages(msgs, gone)
      {
        assert msgs[j] == tail[j - 1];
      }
    }
  }

  /** SET_NULL on `lastMessage`: a conversation whose last message is no
      longer stored loses the reference; nothing else changes. */
  function ClearDanglingLast(convs: seq<Conversation>, msgs: seq<Message>): (r: seq<Conversation>)
    ensures |r| == |convs|
    ensures forall i :: 0 <= i < |r| ==>
      r[i] == if convs[i].lastMessage.Some? && !HasMessage(msgs, convs[i].lastMessage.value)
              then convs[i].(lastMessage := None) else convs[i]
  {
    seq(|convs|, i requires 0 <= i < |convs| =>
      if convs[i].lastMessage.Some? && !HasMessage(msgs, convs[i].lastMessage.value)
      then convs[i].(lastMessage := None) else convs[i])
  }

  /** Clearing dangling references only forgets last messages, so it keeps the
      conversation invariant, and afterwards every reference resolves. */
  lemma ClearDanglingLastValid(convs: seq<Conversation>, msgs: seq<Message>, next: Id)
    requires ConversationsValid(convs, next)
    ensures ConversationsValid(ClearDanglingLast(convs, msgs), next)
    ensures forall i :: 0 <= i < |convs| && ClearDanglingLast(convs, msgs)[i].lastMessage.Some? ==>
      HasMessage(msgs, ClearDanglingLast(convs, msgs)[i].lastMessage.value)
  {
    var r := ClearDanglingLast(convs, msgs);
    forall i, j | 0 <= i < j < |r| && r[i].user1.Some? && r[i].user2.Some?
      ensures !Between(r[j], r[i].user1, r[i].user2)
    {
      assert !Between(convs[j], convs[i].user1, convs[i].user2);
    }
  }

  /** Deleting conversation `k`: CASCADE removes its messages, then SET_NULL
      clears any `lastMessage` that pointed at one of them. */
  function DeleteConversation(convs: seq<Conversation>, msgs: seq<Message>, k: nat)
    : (r: (seq<Conversation>, seq<Message>))
    requires k < |convs|
  {
    var msgs' := KeepMessages(msgs, {convs[k].id});
    (ClearDanglingLast(RemoveAt(convs, k), msgs'), msgs')
  }

  /** ClearDanglingLast keeps every primary key, so conversation lookups by
      key are unaffected. */
  lemma ClearDanglingLastKeepsKeys(convs: seq<Conversation>, msgs: seq<Message>, id: Id)
    ensures HasConversation(ClearDanglingLast(convs, msgs), id) <==> HasConversation(convs, id)
  {
    var r := ClearDanglingLast(convs, msgs);
    if HasConversation(convs, id) {
      var i :| 0 <= i < |convs| && convs[i].id == id;
      assert r[i].id == id;
    }
    if HasConversation(r, id) {
      var i :| 0 <= i < |r| && r[i].id == id;
      assert convs[i].id == id;
    }
  }

  lemma RemoveConversationAtValid(convs: seq<Conversation>, next: Id, k: nat)
    requires ConversationsValid(convs, next) && k < |convs|
    ensures ConversationsValid(RemoveAt(convs, k), next)
    ensures forall id :: HasConversation(convs, id) && id != convs[k].id ==>
      HasConversation(RemoveAt(convs, k), id)
  {
    var r := RemoveAt(convs, k);
    forall i, j | 0 <= i < j < |r|
      ensures r[i].id < r[j].id
      ensures r[i].user1.Some? && r[i].user2.Some? ==> !Between(r[j], r[i].user1, r[i].user2)
    {
      var i' := if i < k then i else i + 1;
      var j' := if j < k then j else j + 1;
      assert r[i] == convs[i'] && r[j] == convs[j'] && i' < j';
    }
    forall id | HasConversation(convs, id) && id != convs[k].id ensures HasConversation(r, id) {
      var i :| 0 <= i < |convs| && convs[i].id == id;
      if i < k { assert r[i] == convs[i]; } else { assert r[i - 1] == convs[i]; }
    }
  }

  /** A message below every key of an ascending table can go in front of it. */
  lemma ConsValid(m: Message, rest: seq<Message>, next: Id)
    requires MessagesValid(rest, next) && m.id < next
    requires forall x :: x in rest ==> m.id < x.id
    ensures MessagesValid([m] + rest, next)
  {
    var r := [m] + rest;
    forall i, j | 0 <= i < j < |r| ensures r[i].id < r[j].id {
      assert r[j] == rest[j - 1];
      if 0 < i {
        assert r[i] == rest[i - 1];
      }
    }
    forall j | 0 <= j < |r| ensures r[j].id < next {
      if 0 < j {
        assert r[j] == rest[j - 1];
      }
    }
  }

  /** Keeping a subset of the messages keeps their key order and bound. */
  lemma {:induction false} KeepMessagesValid(msgs: seq<Message>, gone: set<Id>, next: Id)
    requires MessagesValid(msgs, next)
    ensures MessagesValid(KeepMessages(msgs, gone), next)
    decreases |msgs|
  {
    if msgs != [] {
      var tail := msgs[1..];
      forall i, j | 0 <= i < j < |tail| ensures tail[i].id < tail[j].id {
        assert tail[i] == msgs[i + 1] && tail[j] == msgs[j + 1];
      }
      KeepMessagesValid(tail, gone, next);
      if msgs[0].conversation !in gone {
        var rest := KeepMessages(tail, gone);
        forall x | x in rest ensures msgs[0].id < x.id {
          assert x in tail;
          var t :| 0 <= t < |tail| && tail[t] == x;
          assert msgs[1 + t] == x;
        }
        ConsValid(msgs[0], rest, next);
      }
    }
  }

  /** Deleting a conversation keeps every invariant; the other conversations
      keep all their columns except a last message that was deleted with it. */
  lemma DeleteConversationPreservesValid(convs: seq<Conversation>, msgs: seq<Message>,
                                         nextC: Id, nextM: Id, k: nat)
    requires ConversationsValid(convs, nextC) && MessagesValid(msgs, nextM) && Integrity(convs, msgs)
    requires k < |convs|
    ensures ConversationsValid(DeleteConversation(convs, msgs, k).0, nextC)
    ensures MessagesValid(DeleteConversation(convs, msgs, k).1, nextM)
    ensures Integrity(DeleteConversation(convs, msgs, k).0, DeleteConversation(convs, msgs, k).1)
    ensures |DeleteConversation(convs, msgs, k).0| == |convs| - 1
    ensures forall i :: 0 <= i < |convs| - 1 ==>
      DeleteConversation(convs, msgs, k).0[i].(lastMessage := None) ==
      (if i < k then convs[i] else convs[i + 1]).(lastMessage := None)
    ensures forall j :: 0 <= j < |DeleteConversation(convs, msgs, k).1| ==>
      DeleteConversation(convs, msgs, k).1[j] in msgs && DeleteConversation(convs, msgs, k).1[j].conversation != convs[k].id
    ensures forall j :: 0 <= j < |msgs| && msgs[j].conversation != convs[k].id ==> msgs[j] in DeleteConversation(convs, msgs, k).1
  {
    var id := convs[k].id;
    var msgs' := KeepMessages(msgs, {id});
    var removed := RemoveAt(convs, k);
    RemoveConversationAtValid(convs, nextC, k);
    ClearDanglingLastValid(removed, msgs', nextC);
    KeepMessagesValid(msgs, {id}, nextM);
    KeepMessagesKeeps(msgs, {id});
    var convs' := ClearDanglingLast(removed, msgs');
    forall j | 0 <= j < |msgs'| ensures HasConversation(convs', msgs'[j].conversation) {
      var t :| 0 <= t < |msgs| && msgs[t] == msgs'[j];
      assert HasConversation(convs, msgs[t].conversation);
      ClearDanglingLastKeepsKeys(removed, msgs', msgs'[j].conversation);
    }
  }

  /** Deleting message `k`: conversations whose last message it was keep
      existing with `lastMessage` cleared. */
  function DeleteMessage(convs: seq<Conversation>, msgs: seq<Message>, k: nat)
    : (r: (seq<Conversation>, seq<Message>))
    requires k < |msgs|
  {
    var msgs' := RemoveAt(msgs, k);
    (ClearDanglingLast(convs, msgs'), msgs')
  }

  /** Removing a message keeps the others in key order below the bound. */
  lemma RemoveMessageAtValid(msgs: seq<Message>, next: Id, k: nat)
    requires MessagesValid(msgs, next) && k < |msgs|
    ensures MessagesValid(RemoveAt(msgs, k), next)
  {
    var r := RemoveAt(msgs, k);
    forall i, j | 0 <= i < j < |r| ensures r[i].id < r[j].id {
      var i' := if i < k then i else i + 1;
      var j' := if j < k then j else j + 1;
      assert r[i] == msgs[i'] && r[j] == msgs[j'];
    }
  }

  /** With keys in order, removing message `k` removes exactly its key. */
  lemma RemoveMessageAtKeys(msgs: seq<Message>, next: Id, k: nat, m: Id)
    requires MessagesValid(msgs, next) && k < |msgs|
    ensures HasMessage(RemoveAt(msgs, k), m) <==> HasMessage(msgs, m) && m != msgs[k].id
  {
    var r := RemoveAt(msgs, k);
    if HasMessage(msgs, m) && m != msgs[k].id {
      var t :| 0 <= t < |msgs| && msgs[t].id == m;
      if t < k { assert r[t] == msgs[t]; } else { assert r[t - 1] == msgs[t]; }
    }
    if HasMessage(r, m) {
      var t :| 0 <= t < |r| && r[t].id == m;
      if t < k { assert msgs[t].id < msgs[k].id; } else { assert msgs[k].id < msgs[t + 1].id; }
    }
  }

  lemma DeleteMessagePreservesValid(convs: seq<Conversation>, msgs: seq<Message>,
                                    nextC: Id, nextM: Id, k: nat)
    requires ConversationsValid(convs, nextC) && MessagesValid(msgs, nextM) && Integrity(convs, msgs)
    requires k < |msgs|
    ensures ConversationsValid(DeleteMessage(convs, msgs, k).0, nextC)
    ensures MessagesValid(DeleteMessage(convs, msgs, k).1, nextM)
    ensures Integrity(DeleteMessage(convs, msgs, k).0, DeleteMessage(convs, msgs, k).1)
    ensures |DeleteMessage(convs, msgs, k).0| == |convs|
    ensures forall i :: 0 <= i < |convs| ==>
      DeleteMessage(convs, msgs, k).0[i] ==
      if convs[i].lastMessage == Some(msgs[k].id) then convs[i].(lastMessage := None) else convs[i]
  {
    var msgs' := RemoveAt(msgs, k);
    ClearDanglingLastValid(convs, msgs', nextC);
    RemoveMessageAtValid(msgs, nextM, k);
    forall i | 0 <= i < |convs| && convs[i].lastMessage.Some?
      ensures HasMessage(msgs', convs[i].lastMessage.value) <==> convs[i].lastMessage != Some(msgs[k].id)
    {
      RemoveMessageAtKeys(msgs, nextM, k, convs[i].lastMessage.value);
    }
    var convs' := ClearDanglingLast(convs, msgs');
    forall j | 0 <= j < |msgs'| ensures HasConversation(convs', msgs'[j].conversation) {
      var j' := if j < k then j else j + 1;
      assert msgs'[j] == msgs[j'];
      ClearDanglingLastKeepsKeys(convs, msgs', msgs'[j].conversation);
    }
  }

  /** SET_NULL when user `uid` is deleted: that side of each of its
      conversations, and the sender of each of its messages, becomes None. */
  function DetachUser(convs: seq<Conversation>, msgs: seq<Message>, uid: Id)
    : (r: (seq<Conversation>, seq<Message>))
  {
    (seq(|convs|, i requires 0 <= i < |convs| =>
        convs[i].(user1 := if convs[i].user1 == Some(uid) then None else convs[i].user1,
                  user2 := if convs[i].user2 == Some(uid) then None else convs[i].user2)),
     seq(|msgs|, j requires 0 <= j < |msgs| =>
        msgs[j].(sender := if msgs[j].sender == Some(uid) then None else msgs[j].sender)))
  }

  /** Deleting a user keeps every conversation and every message (only the
      references to that user are cleared), and keeps every invariant. */
  lemma DetachUserPreservesValid(convs: seq<Conversation>, msgs: seq<Message>, nextC: Id, nextM: Id, uid: Id)
    requires ConversationsValid(convs, nextC) && MessagesValid(msgs, nextM) && Integrity(convs, msgs)
    ensures |DetachUser(convs, msgs, uid).0| == |convs| && |DetachUser(convs, msgs, uid).1| == |msgs|
    ensures forall i :: 0 <= i < |convs| ==>
      DetachUser(convs, msgs, uid).0[i].user1 != Some(uid) && DetachUser(convs, msgs, uid).0[i].user2 != Some(uid)
    ensures forall i :: 0 <= i < |convs| ==>
      DetachUser(convs, msgs, uid).0[i].(user1 := convs[i].user1, user2 := convs[i].user2) == convs[i]
    ensures forall j :: 0 <= j < |msgs| ==>
      DetachUser(convs, msgs, uid).1[j].(sender := msgs[j].sender) == msgs[j]
    ensures ConversationsValid(DetachUser(convs, msgs, uid).0, nextC)
    ensures MessagesValid(DetachUser(convs, msgs, uid).1, nextM)
    ensures Integrity(DetachUser(convs, msgs, uid).0, DetachUser(convs, msgs, uid).1)
  {
    var (convs', msgs') := DetachUser(convs, msgs, uid);
    forall i, j | 0 <= i < j < |convs'| && convs'[i].user1.Some? && convs'[i].user2.Some?
      ensures !Between(convs'[j], convs'[i].user1, convs'[i].user2)
    {
      assert convs'[i].user1 == convs[i].user1 && convs'[i].user2 == convs[i].user2;
      assert !Between(convs[j], convs[i].user1, convs[i].user2);
    }
    forall j | 0 <= j < |msgs'| ensures HasConversation(convs', msgs'[j].conversation) {
      var i :| 0 <= i < |convs| && convs[i].id == msgs[j].conversation;
      assert convs'[i].id == convs[i].id;
    }
    forall i | 0 <= i < |convs'| && convs'[i].lastMessage.Some?
      ensures HasMessage(msgs', convs'[i].lastMessage.value)
    {
      var t :| 0 <= t < |msgs| && msgs[t].id == convs[i].lastMessage.value;
      assert msgs'[t].id == msgs[t].id;
    }
  }

  // ---------------------------------------------------------------------
  // References to users

  /** A present side or sender names one of `ids`; a NULL one names nobody. */
  predicate NamesUserIn(ref: Option<Id>, ids: set<Id>) {
    ref.Some? ==> ref.value in ids
  }

  /** The user foreign keys of both tables (`user1`, `user2`, `sender`)
      name users in `ids`. */
  ghost predicate UsersIn(convs: seq<Conversation>, msgs: seq<Message>, ids: set<Id>) {
    && (forall i :: 0 <= i < |convs| ==> NamesUserIn(convs[i].user1, ids) && NamesUserIn(convs[i].user2, ids))
    && (forall j :: 0 <= j < |msgs| ==> NamesUserIn(msgs[j].sender, ids))
  }

  /** An UPDATE of message flags keeps every sender. */
  lemma SameKeysUsersIn(convs: seq<Conversation>, msgs: seq<Message>, msgs': seq<Message>, ids: set<Id>)
    requires UsersIn(convs, msgs, ids) && SameKeys(msgs, msgs')
    ensures UsersIn(convs, msgs', ids)
  {
    forall j | 0 <= j < |msgs'| ensures NamesUserIn(msgs'[j].sender, ids) {
      assert msgs'[j].sender == msgs[j].sender;
    }
  }

  /** An UPDATE of a conversation that keeps its two sides. */
  lemma UpdateUsersIn(convs: seq<Conversation>, msgs: seq<Message>, k: nat, c: Conversation, ids: set<Id>)
    requires UsersIn(convs, msgs, ids) && k < |convs|
    requires c.user1 == convs[k].user1 && c.user2 == convs[k].user2
    ensures UsersIn(convs[k := c], msgs, ids)
  {
    var convs' := convs[k := c];
    forall i | 0 <= i < |convs'| ensures NamesUserIn(convs'[i].user1, ids) && NamesUserIn(convs'[i].user2, ids) {
      assert convs'[i].user1 == convs[i].user1 && convs'[i].user2 == convs[i].user2;
    }
  }

  /** A new conversation between two stored users. */
  lemma CreateUsersIn(convs: seq<Conversation>, msgs: seq<Message>, next: Id, user1: Id, user2: Id, ids: set<Id>)
    requires UsersIn(convs, msgs, ids) && user1 in ids && user2 in ids
    ensures Create(convs, next, user1, user2).Success? ==> UsersIn(Create(convs, next, user1, user2).value, msgs, ids)
  {
    if Create(convs, next, user1, user2).Success? {
      var convs' := convs + [NewConversation(next, user1, user2)];
      forall i | 0 <= i < |convs'| ensures NamesUserIn(convs'[i].user1, ids) && NamesUserIn(convs'[i].user2, ids) {
        if i < |convs| { assert convs'[i] == convs[i]; }
      }
    }
  }

  /** Clearing last messages touches no side. */
  lemma ClearDanglingLastUsersIn(convs: seq<Conversation>, msgs: seq<Message>, msgs': seq<Message>, ids: set<Id>)
    requires UsersIn(convs, msgs, ids)
    ensures UsersIn(ClearDanglingLast(convs, msgs'), msgs, ids)
  {
    var r := ClearDanglingLast(convs, msgs');
    forall i | 0 <= i < |r| ensures NamesUserIn(r[i].user1, ids) && NamesUserIn(r[i].user2, ids) {
      assert r[i].user1 == convs[i].user1 && r[i].user2 == convs[i].user2;
    }
  }

  /** The messages kept by a CASCADE are old rows, so their senders resolve. */
  lemma KeepMessagesUsersIn(convs: seq<Conversation>, msgs: seq<Message>, gone: set<Id>, ids: set<Id>)
    requires UsersIn(convs, msgs, ids)
    ensures UsersIn(convs, KeepMessages(msgs, gone), ids)
  {
    var r := KeepMessages(msgs, gone);
    forall j | 0 <= j < |r| ensures NamesUserIn(r[j].sender, ids) {
      var t :| 0 <= t < |msgs| && msgs[t] == r[j];
    }
  }

  /** Deleting a conversation (with its cascade) keeps the user references. */
  lemma DeleteConversationUsersIn(convs: seq<Conversation>, msgs: seq<Message>, k: nat, ids: set<Id>)
    requires UsersIn(convs, msgs, ids) && k < |convs|
    ensures UsersIn(DeleteConversation(convs, msgs, k).0, DeleteConversation(convs, msgs, k).1, ids)
  {
    var msgs' := KeepMessages(msgs, {convs[k].id});
    var removed := RemoveAt(convs, k);
    KeepMessagesUsersIn(convs, msgs, {convs[k].id}, ids);
    forall i | 0 <= i < |removed| ensures NamesUserIn(removed[i].user1, ids) && NamesUserIn(removed[i].user2, ids) {
      assert removed[i] == convs[if i < k then i else i + 1];
    }
    ClearDanglingLastUsersIn(removed, msgs', msgs', ids);
  }

  /** Deleting a message keeps the user references. */
  lemma DeleteMessageUsersIn(convs: seq<Conversation>, msgs: seq<Message>, k: nat, ids: set<Id>)
    requires UsersIn(convs, msgs, ids) && k < |msgs|
    ensures UsersIn(DeleteMessage(convs, msgs, k).0, DeleteMessage(convs, msgs, k).1, ids)
  {
    var msgs' := RemoveAt(msgs, k);
    forall j | 0 <= j < |msgs'| ensures NamesUserIn(msgs'[j].sender, ids) {
      assert msgs'[j] == msgs[if j < k then j else j + 1];
    }
    ClearDanglingLastUsersIn(convs, msgs', msgs', ids);
  }

  /** After SET_NULL for user `uid` no side and no sender names `uid`, and
      every other reference still names a user of `ids`. */
  lemma DetachUserUsersIn(convs: seq<Conversation>, msgs: seq<Message>, uid: Id, ids: set<Id>)
    requires UsersIn(convs, msgs, ids)
    ensures UsersIn(DetachUser(convs, msgs, uid).0, DetachUser(convs, msgs, uid).1, ids - {uid})
  {
  }
}
