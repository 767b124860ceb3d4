/** The `cleanup_conversations` management command of
    backend/chats/management/commands/cleanup_conversations.py: it counts
    the conversations hidden by both users and deletes them, which deletes
    their messages (CASCADE) and clears any last-message reference to those
    messages (SET_NULL). */
module CleanupConversations {
  import opened Common
  import opened ChatModels
  import Store
  import UserModels

  /** `filter(IsVisibleToUser1=False, IsVisibleToUser2=False)` for one row. */
  predicate Invisible(c: Conversation) {
    !c.isVisibleToUser1 && !c.isVisibleToUser2
  }

  /** The conversations that survive, in table order. */
  function Visible(convs: seq<Conversation>): seq<Conversation>
    decreases |convs|
  {
    if convs == [] then []
    else
      var last := convs[|convs| - 1];
      Visible(convs[..|convs| - 1]) + (if Invisible(last) then [] else [last])
  }

  /** The keys of the conversations that are deleted. */
  function InvisibleKeys(convs: seq<Conversation>): set<Id>
    decreases |convs|
  {
    if convs == [] then {}
    else
      var last := convs[|convs| - 1];
      InvisibleKeys(convs[..|convs| - 1]) + (if Invisible(last) then {last.id} else {})
  }

  /** `invisible_conversations.count()`. */
  function CountInvisible(convs: seq<Conversation>): nat
    decreases |convs|
  {
    if convs == [] then 0
    else CountInvisible(convs[..|convs| - 1]) + (if Invisible(convs[|convs| - 1]) then 1 else 0)
  }

  /** The tables after `handle()`, and the count it logs. */
  function Cleanup(convs: seq<Conversation>, msgs: seq<Message>): (seq<Conversation>, seq<Message>, nat) {
    var msgs' := KeepMessages(msgs, InvisibleKeys(convs));
    (ClearDanglingLast(Visible(convs), msgs'), msgs', CountInvisible(convs))
  }

  // ---------------------------------------------------------------------
  // What survives

  /** A conversation survives exactly when it is a row of the table that
      at least one of its users still sees. */
  lemma {:induction false} VisibleMeaning(convs: seq<Conversation>, c: Conversation)
    ensures c in Visible(convs) <==> c in convs && !Invisible(c)
    decreases |convs|
  {
    if convs != [] {
      var init := convs[..|convs| - 1];
      VisibleMeaning(init, c);
      assert convs == init + [convs[|convs| - 1]];
    }
  }

  /** A key is deleted exactly when it is the key of a row seen by neither user. */
  lemma {:induction false} InvisibleKeysMeaning(convs: seq<Conversation>, id: Id)
    ensures id in InvisibleKeys(convs) <==> exists i :: 0 <= i < |convs| && convs[i].id == id && Invisible(convs[i])
    decreases |convs|
  {
    if convs != [] {
      var init := convs[..|convs| - 1];
      InvisibleKeysMeaning(init, id);
      if exists i :: 0 <= i < |convs| && convs[i].id == id && Invisible(convs[i]) {
        var i :| 0 <= i < |convs| && convs[i].id == id && Invisible(convs[i]);
        if i < |convs| - 1 {
          assert init[i] == convs[i];
        }
      }
      if exists i :: 0 <= i < |init| && init[i].id == id && Invisible(init[i]) {
        var i :| 0 <= i < |init| && init[i].id == id && Invisible(init[i]);
        assert convs[i] == init[i];
      }
    }
  }

  /** The logged count is the number of rows removed. */
  lemma {:induction false} CountIsRemoved(convs: seq<Conversation>)
    ensures CountInvisible(convs) == |convs| - |Visible(convs)|
    ensures |Visible(convs)| <= |convs|
    decreases |convs|
  {
    if convs != [] {
      CountIsRemoved(convs[..|convs| - 1]);
    }
  }

  /** Surviving rows keep their order, so the table stays valid. */
  lemma {:induction false} VisibleValid(convs: seq<Conversation>, next: Id)
    requires ConversationsValid(convs, next)
    ensures ConversationsValid(Visible(convs), next)
    decreases |convs|
  {
    if convs != [] {
      var init := convs[..|convs| - 1];
      var last := convs[|convs| - 1];
      assert ConversationsValid(init, next);
      VisibleValid(init, next);
      if !Invisible(last) {
        var v := Visible(init);
        var r := v + [last];
        forall i | 0 <= i < |v|
          ensures v[i].id < last.id
          ensures v[i].user1.Some? && v[i].user2.Some? ==> !Between(last, v[i].user1, v[i].user2)
        {
          VisibleMeaning(init, v[i]);
          var a :| 0 <= a < |init| && init[a] == v[i];
          assert convs[a] == v[i];
        }
        forall i, j | 0 <= i < j < |r|
          ensures r[i].id < r[j].id
          ensures r[i].user1.Some? && r[i].user2.Some? ==> !Between(r[j], r[i].user1, r[i].user2)
        {
          if j < |v| {
            assert r[i] == v[i] && r[j] == v[j];
          } else {
            assert r[i] == v[i] && r[j] == last;
          }
        }
        forall i | 0 <= i < |r| ensures r[i].id < next {
          if i < |v| { assert r[i] == v[i]; }
        }
      }
    }
  }

  /** The messages that survive belong to surviving conversations. */
  lemma KeptMessagesBelong(convs: seq<Conversation>, msgs: seq<Message>)
    requires Integrity(convs, msgs)
    ensures forall j :: 0 <= j < |KeepMessages(msgs, InvisibleKeys(convs))| ==>
      HasConversation(Visible(convs), KeepMessages(msgs, InvisibleKeys(convs))[j].conversation)
  {
    var msgs' := KeepMessages(msgs, InvisibleKeys(convs));
    forall j | 0 <= j < |msgs'| ensures HasConversation(Visible(convs), msgs'[j].conversation) {
      var id := msgs'[j].conversation;
      var t :| 0 <= t < |msgs| && msgs[t] == msgs'[j];
      var i :| 0 <= i < |convs| && convs[i].id == id;
      InvisibleKeysMeaning(convs, id);
      VisibleMeaning(convs, convs[i]);
      var w :| 0 <= w < |Visible(convs)| && Visible(convs)[w] == convs[i];
    }
  }

  /** The command keeps every table constraint. */
  lemma CleanupValid(convs: seq<Conversation>, msgs: seq<Message>, nextC: Id, nextM: Id)
    requires ConversationsValid(convs, nextC) && MessagesValid(msgs, nextM) && Integrity(convs, msgs)
    ensures var r := Cleanup(convs, msgs);
      ConversationsValid(r.0, nextC) && MessagesValid(r.1, nextM) && Integrity(r.0, r.1)
  {
    var msgs' := KeepMessages(msgs, InvisibleKeys(convs));
    var convs' := ClearDanglingLast(Visible(convs), msgs');
    VisibleValid(convs, nextC);
    ClearDanglingLastValid(Visible(convs), msgs', nextC);
    KeepMessagesValid(msgs, InvisibleKeys(convs), nextM);
    KeptMessagesBelong(convs, msgs);
    forall j | 0 <= j < |msgs'| ensures HasConversation(convs', msgs'[j].conversation) {
      assert HasConversation(Visible(convs), msgs'[j].conversation);
      ClearDanglingLastKeepsKeys(Visible(convs), msgs', msgs'[j].conversation);
    }
  }

  /** The command only deletes rows and clears last messages, so every user
      reference it leaves still resolves. */
  lemma CleanupUsersIn(convs: seq<Conversation>, msgs: seq<Message>, ids: set<Id>)
    requires UsersIn(convs, msgs, ids)
    ensures UsersIn(Cleanup(convs, msgs).0, Cleanup(convs, msgs).1, ids)
  {
    var vis := Visible(convs);
    var kept := KeepMessages(msgs, InvisibleKeys(convs));
    forall i | 0 <= i < |vis| ensures NamesUserIn(vis[i].user1, ids) && NamesUserIn(vis[i].user2, ids) {
      VisibleMeaning(convs, vis[i]);
    }
    KeepMessagesUsersIn(vis, msgs, InvisibleKeys(convs), ids);
    ClearDanglingLastUsersIn(vis, kept, kept, ids);
  }

  /** Exactly the conversations seen by neither user are deleted, with all
      their messages; every other conversation survives, unchanged unless
      its last message was one of the deleted ones; and the count is the
      number of rows removed. */
  lemma CleanupMeaning(convs: seq<Conversation>, msgs: seq<Message>)
    ensures var r := Cleanup(convs, msgs);
      forall j :: 0 <= j < |r.0| ==> !Invisible(r.0[j])
    ensures var r := Cleanup(convs, msgs);
      forall c :: c in convs && !Invisible(c) && (c.lastMessage.None? || HasMessage(r.1, c.lastMessage.value)) ==> c in r.0
    ensures var r := Cleanup(convs, msgs);
      forall j :: 0 <= j < |msgs| ==>
        (msgs[j] in r.1 <==> forall i :: 0 <= i < |convs| && convs[i].id == msgs[j].conversation ==> !Invisible(convs[i]))
    ensures var r := Cleanup(convs, msgs);
      r.2 == |convs| - |r.0|
  {
    var r := Cleanup(convs, msgs);
    var v := Visible(convs);
    CountIsRemoved(convs);
    forall j | 0 <= j < |v| ensures !Invisible(v[j]) {
      VisibleMeaning(convs, v[j]);
    }
    ClearKeepsSeen(v, r.1);
    KeepMessagesKeeps(msgs, InvisibleKeys(convs));
    forall c | c in convs && !Invisible(c) && (c.lastMessage.None? || HasMessage(r.1, c.lastMessage.value))
      ensures c in r.0
    {
      VisibleMeaning(convs, c);
      var w :| 0 <= w < |v| && v[w] == c;
      assert r.0[w] == c;
    }
    forall j | 0 <= j < |msgs|
      ensures msgs[j] in r.1 <==> forall i :: 0 <= i < |convs| && convs[i].id == msgs[j].conversation ==> !Invisible(convs[i])
    {
      InvisibleKeysMeaning(convs, msgs[j].conversation);
    }
  }

  // ---------------------------------------------------------------------
  // Running it twice

  /** Keeping the messages of nobody's deleted conversations keeps them all. */
  lemma {:induction false} KeepNothingGone(msgs: seq<Message>)
    ensures KeepMessages(msgs, {}) == msgs
    decreases |msgs|
  {
    if msgs != [] {
      KeepNothingGone(msgs[1..]);
      assert msgs == [msgs[0]] + msgs[1..];
    }
  }

  /** A table with no row hidden from both users is left as it is. */
  lemma {:induction false} NothingInvisible(convs: seq<Conversation>)
    requires forall j :: 0 <= j < |convs| ==> !Invisible(convs[j])
    ensures Visible(convs) == convs && InvisibleKeys(convs) == {} && CountInvisible(convs) == 0
    decreases |convs|
  {
    if convs != [] {
      NothingInvisible(convs[..|convs| - 1]);
      assert convs == convs[..|convs| - 1] + [convs[|convs| - 1]];
    }
  }

  /** Clearing references that all resolve changes nothing. */
  lemma ClearNothingDangling(convs: seq<Conversation>, msgs: seq<Message>)
    requires forall i :: 0 <= i < |convs| && convs[i].lastMessage.Some? ==> HasMessage(msgs, convs[i].lastMessage.value)
    ensures ClearDanglingLast(convs, msgs) == convs
  {
  }

  /** Forgetting last messages hides no conversation from anyone. */
  lemma ClearKeepsSeen(convs: seq<Conversation>, msgs: seq<Message>)
    requires forall j :: 0 <= j < |convs| ==> !Invisible(convs[j])
    ensures forall j :: 0 <= j < |ClearDanglingLast(convs, msgs)| ==> !Invisible(ClearDanglingLast(convs, msgs)[j])
  {
  }

  /** The first pass leaves a table with every row seen by someone and
      every last-message reference resolving. */
  lemma FirstPassClean(convs: seq<Conversation>, msgs: seq<Message>, nextC: Id)
    requires ConversationsValid(convs, nextC)
    ensures var r := Cleanup(convs, msgs);
      (forall j :: 0 <= j < |r.0| ==> !Invisible(r.0[j])) &&
      (forall i :: 0 <= i < |r.0| && r.0[i].lastMessage.Some? ==> HasMessage(r.1, r.0[i].lastMessage.value))
  {
    var msgs' := KeepMessages(msgs, InvisibleKeys(convs));
    var v := Visible(convs);
    forall j | 0 <= j < |v| ensures !Invisible(v[j]) {
      VisibleMeaning(convs, v[j]);
    }
    ClearKeepsSeen(v, msgs');
    VisibleValid(convs, nextC);
    ClearDanglingLastValid(v, msgs', nextC);
  }

  /** Running the command a second time removes nothing and logs 0. */
  lemma CleanupIdempotent(convs: seq<Conversation>, msgs: seq<Message>, nextC: Id)
    requires ConversationsValid(convs, nextC)
    ensures var r := Cleanup(convs, msgs);
      Cleanup(r.0, r.1) == (r.0, r.1, 0)
  {
    var r := Cleanup(convs, msgs);
    FirstPassClean(convs, msgs, nextC);
    NothingInvisible(r.0);
    KeepNothingGone(r.1);
    ClearNothingDangling(r.0, r.1);
  }

  // ---------------------------------------------------------------------
  // The command on the database

  /** `handle()`: one pass over the conversations selects and counts the
      rows to delete, then the DELETE with its cascades is applied. */
  method Handle(db: Store.Database) returns (count: nat)
    requires db.Valid()
    modifies db
    ensures db.Valid()
    ensures (db.conversations, db.messages, count) == Cleanup(old(db.conversations), old(db.messages))
    ensures db.users == old(db.users) && db.blacklist == old(db.blacklist) && db.friendships == old(db.friendships)
    ensures db.nextUserId == old(db.nextUserId) && db.nextFriendshipId == old(db.nextFriendshipId)
    ensures db.nextConversationId == old(db.nextConversationId) && db.nextMessageId == old(db.nextMessageId)
  {
    var convs := db.conversations;
    var kept: seq<Conversation> := [];
    var gone: set<Id> := {};
    count := 0;
    var i := 0;
    while i < |convs|
      invariant 0 <= i <= |convs|
      invariant kept == Visible(convs[..i]) && gone == InvisibleKeys(convs[..i]) && count == CountInvisible(convs[..i])
    {
      assert convs[..i + 1][..i] == convs[..i];
      if Invisible(convs[i]) {
        gone := gone + {convs[i].id};
        count := count + 1;
      } else {
        kept := kept + [convs[i]];
      }
      i := i + 1;
    }
    assert convs[..i] == convs;
    var msgs := KeepMessages(db.messages, gone);
    CleanupValid(db.conversations, db.messages, db.nextConversationId, db.nextMessageId);
    CleanupUsersIn(db.conversations, db.messages, UserModels.UserIds(db.users));
    db.ReplaceChats(ClearDanglingLast(kept, msgs), msgs, db.nextConversationId);
  }
}
