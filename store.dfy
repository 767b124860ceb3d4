/** The database behind the ORM: one table per model, each a sequence of rows
    in primary-key order, and the next primary key of each table. `Valid`
    collects the constraints the schema and the models' `clean` methods keep. */
module Store {
  import opened Common
  import opened UserModels
  import FriendshipModels
  import ChatModels

  /** The constraints the schema and the models' `clean` methods keep, on
      the tables' values: keys in order below each table's next key, the
      unique columns and pairs, the chat tables' own foreign keys, and every
      foreign key to `Users` naming a stored user (NULL for none). */
  ghost predicate TablesValid(users: seq<User>, blacklist: seq<BlacklistEntry>,
                              friendships: seq<FriendshipModels.Friendship>,
                              conversations: seq<ChatModels.Conversation>, messages: seq<ChatModels.Message>,
                              nextUserId: Id, nextFriendshipId: Id, nextConversationId: Id, nextMessageId: Id)
  {
    && UsersTableValid(users)
    && (forall i :: 0 <= i < |users| ==> users[i].id < nextUserId)
    && BlacklistUnique(blacklist)
    && FriendshipModels.TableValid(friendships, nextFriendshipId)
    && ChatModels.ConversationsValid(conversations, nextConversationId)
    && ChatModels.MessagesValid(messages, nextMessageId)
    && ChatModels.Integrity(conversations, messages)
    && BlacklistUsersIn(blacklist, UserIds(users))
    && FriendshipModels.UsersIn(friendships, UserIds(users))
    && ChatModels.UsersIn(conversations, messages, UserIds(users))
  }

  /** Deleting a user (CASCADE and SET_NULL together) keeps every constraint. */
  lemma DeleteUserValid(users: seq<User>, blacklist: seq<BlacklistEntry>,
                        friendships: seq<FriendshipModels.Friendship>,
                        conversations: seq<ChatModels.Conversation>, messages: seq<ChatModels.Message>,
                        nu: Id, nf: Id, nc: Id, nm: Id, uid: Id)
    requires TablesValid(users, blacklist, friendships, conversations, messages, nu, nf, nc, nm)
    ensures TablesValid(UserModels.WithoutUser(users, uid), UserModels.BlacklistWithoutUser(blacklist, uid),
                        FriendshipModels.WithoutUser(friendships, uid),
                        ChatModels.DetachUser(conversations, messages, uid).0,
                        ChatModels.DetachUser(conversations, messages, uid).1, nu, nf, nc, nm)
  {
    ChatModels.DetachUserPreservesValid(conversations, messages, nc, nm, uid);
    UserModels.WithoutUserValid(users, uid, nu);
    UserModels.BlacklistWithoutUserUnique(blacklist, uid);
    FriendshipModels.WithoutUserValid(friendships, nf, uid);
    UserModels.WithoutUserIds(users, uid);
    UserModels.BlacklistWithoutUserUsersIn(blacklist, uid, UserIds(users));
    FriendshipModels.WithoutUserUsersIn(friendships, uid, UserIds(users));
    ChatModels.DetachUserUsersIn(conversations, messages, uid, UserIds(users));
  }

  lemma DeleteConversationValid(users: seq<User>, blacklist: seq<BlacklistEntry>,
                                friendships: seq<FriendshipModels.Friendship>,
                                conversations: seq<ChatModels.Conversation>, messages: seq<ChatModels.Message>,
                                nu: Id, nf: Id, nc: Id, nm: Id, k: nat)
    requires TablesValid(users, blacklist, friendships, conversations, messages, nu, nf, nc, nm)
    requires k < |conversations|
    ensures TablesValid(users, blacklist, friendships,
                        ChatModels.DeleteConversation(conversations, messages, k).0,
                        ChatModels.DeleteConversation(conversations, messages, k).1, nu, nf, nc, nm)
  {
    ChatModels.DeleteConversationPreservesValid(conversations, messages, nc, nm, k);
    ChatModels.DeleteConversationUsersIn(conversations, messages, k, UserIds(users));
  }

  lemma DeleteMessageValid(users: seq<User>, blacklist: seq<BlacklistEntry>,
                           friendships: seq<FriendshipModels.Friendship>,
                           conversations: seq<ChatModels.Conversation>, messages: seq<ChatModels.Message>,
                           nu: Id, nf: Id, nc: Id, nm: Id, k: nat)
    requires TablesValid(users, blacklist, friendships, conversations, messages, nu, nf, nc, nm)
    requires k < |messages|
    ensures TablesValid(users, blacklist, friendships,
                        ChatModels.DeleteMessage(conversations, messages, k).0,
                        ChatModels.DeleteMessage(conversations, messages, k).1, nu, nf, nc, nm)
  {
    ChatModels.DeleteMessagePreservesValid(conversations, messages, nc, nm, k);
    ChatModels.DeleteMessageUsersIn(conversations, messages, k, UserIds(users));
  }

  /** Replacing the users table by a valid one with keys below the new
      counter, losing no key, keeps every constraint. */
  lemma ReplaceUsersValid(users: seq<User>, blacklist: seq<BlacklistEntry>,
                          friendships: seq<FriendshipModels.Friendship>,
                          conversations: seq<ChatModels.Conversation>, messages: seq<ChatModels.Message>,
                          nu: Id, nf: Id, nc: Id, nm: Id, users': seq<User>, nu': Id)
    requires TablesValid(users, blacklist, friendships, conversations, messages, nu, nf, nc, nm)
    requires UsersTableValid(users') && forall i :: 0 <= i < |users'| ==> users'[i].id < nu'
    requires UserIds(users) <= UserIds(users')
    ensures TablesValid(users', blacklist, friendships, conversations, messages, nu', nf, nc, nm)
  {
  }

  /** Replacing the friendships table by a valid one (under its own next
      key) between stored users keeps every constraint: no other table
      refers to friendships. */
  lemma ReplaceFriendshipsValid(users: seq<User>, blacklist: seq<BlacklistEntry>,
                                friendships: seq<FriendshipModels.Friendship>,
                                conversations: seq<ChatModels.Conversation>, messages: seq<ChatModels.Message>,
                                nu: Id, nf: Id, nc: Id, nm: Id, friendships': seq<FriendshipModels.Friendship>, nf': Id)
    requires TablesValid(users, blacklist, friendships, conversations, messages, nu, nf, nc, nm)
    requires FriendshipModels.TableValid(friendships', nf') && FriendshipModels.UsersIn(friendships', UserIds(users))
    ensures TablesValid(users, blacklist, friendships', conversations, messages, nu, nf', nc, nm)
  {
  }

  /** Replacing the two chat tables by valid ones (under the conversation
      table's own next key) that name only stored users keeps every
      constraint. */
  lemma ReplaceChatsValid(users: seq<User>, blacklist: seq<BlacklistEntry>,
                          friendships: seq<FriendshipModels.Friendship>,
                          conversations: seq<ChatModels.Conversation>, messages: seq<ChatModels.Message>,
                          nu: Id, nf: Id, nc: Id, nm: Id,
                          conversations': seq<ChatModels.Conversation>, messages': seq<ChatModels.Message>, nc': Id)
    requires TablesValid(users, blacklist, friendships, conversations, messages, nu, nf, nc, nm)
    requires ChatModels.ConversationsValid(conversations', nc') && ChatModels.MessagesValid(messages', nm)
    requires ChatModels.Integrity(conversations', messages') && ChatModels.UsersIn(conversations', messages', UserIds(users))
    ensures TablesValid(users, blacklist, friendships, conversations', messages', nu, nf, nc', nm)
  {
  }

  lemma EmptyTablesValid()
    ensures TablesValid([], [], [], [], [], 1, 1, 1, 1)
  {
  }

  class Database {
    var users: seq<User>
    var blacklist: seq<BlacklistEntry>
    var friendships: seq<FriendshipModels.Friendship>
    var conversations: seq<ChatModels.Conversation>
    var messages: seq<ChatModels.Message>
    var nextUserId: Id
    var nextFriendshipId: Id
    var nextConversationId: Id
    var nextMessageId: Id

    ghost predicate Valid()
      reads this
    {
      TablesValid(users, blacklist, friendships, conversations, messages,
                  nextUserId, nextFriendshipId, nextConversationId, nextMessageId)
    }

    /** An empty database; primary keys start at 1. */
    constructor ()
      ensures Valid()
      ensures users == [] && blacklist == [] && friendships == [] && conversations == [] && messages == []
      ensures nextUserId == 1 && nextFriendshipId == 1 && nextConversationId == 1 && nextMessageId == 1
    {
      users, blacklist, friendships, conversations, messages := [], [], [], [], [];
      nextUserId, nextFriendshipId, nextConversationId, nextMessageId := 1, 1, 1, 1;
      EmptyTablesValid();
    }

    /** `user.save()` for a user row that has a primary key (see
        `UserModels.SaveRow`); on a refusal nothing changes. */
    method SaveUser(u: User) returns (r: Result<seq<User>, string>)
      requires Valid()
      modifies this
      ensures Valid()
      ensures r == SaveRow(old(users), u)
      ensures users == if r.Success? then r.value else old(users)
      ensures blacklist == old(blacklist) && friendships == old(friendships)
      ensures conversations == old(conversations) && messages == old(messages)
      ensures nextUserId == old(nextUserId) && nextFriendshipId == old(nextFriendshipId)
      ensures nextConversationId == old(nextConversationId) && nextMessageId == old(nextMessageId)
    {
      r := SaveRow(users, u);
      if r.Success? {
        SaveRowPreservesValid(users, u);
        SaveRowKeepsKeys(users, u, nextUserId);
        ReplaceUsers(r.value, nextUserId);
      }
    }

    /** Writing a new users table (INSERT or UPDATE of its rows) that keeps
        its own constraints and every key other tables may name. */
    method ReplaceUsers(rows: seq<User>, next: Id)
      requires Valid() && UsersTableValid(rows) && (forall i :: 0 <= i < |rows| ==> rows[i].id < next)
      requires UserIds(users) <= UserIds(rows)
      modifies this
      ensures Valid()
      ensures users == rows && nextUserId == next
      ensures blacklist == old(blacklist) && friendships == old(friendships)
      ensures conversations == old(conversations) && messages == old(messages)
      ensures nextFriendshipId == old(nextFriendshipId)
      ensures nextConversationId == old(nextConversationId) && nextMessageId == old(nextMessageId)
    {
      ReplaceUsersValid(users, blacklist, friendships, conversations, messages,
                        nextUserId, nextFriendshipId, nextConversationId, nextMessageId, rows, next);
      users, nextUserId := rows, next;
    }

    /** Writing a new friendships table (INSERT, UPDATE or DELETE of its
        rows) that keeps its own constraints and names stored users. */
    method ReplaceFriendships(rows: seq<FriendshipModels.Friendship>, next: Id)
      requires Valid() && FriendshipModels.TableValid(rows, next) && FriendshipModels.UsersIn(rows, UserIds(users))
      modifies this
      ensures Valid()
      ensures friendships == rows && nextFriendshipId == next
      ensures users == old(users) && blacklist == old(blacklist)
      ensures conversations == old(conversations) && messages == old(messages)
      ensures nextUserId == old(nextUserId)
      ensures nextConversationId == old(nextConversationId) && nextMessageId == old(nextMessageId)
    {
      ReplaceFriendshipsValid(users, blacklist, friendships, conversations, messages,
                              nextUserId, nextFriendshipId, nextConversationId, nextMessageId, rows, next);
      friendships, nextFriendshipId := rows, next;
    }

    /** Writing new chat tables (INSERT, UPDATE or DELETE of their rows)
        that keep their own constraints and name stored users. */
    method ReplaceChats(convs: seq<ChatModels.Conversation>, msgs: seq<ChatModels.Message>, nc: Id)
      requires Valid()
      requires ChatModels.ConversationsValid(convs, nc) && ChatModels.MessagesValid(msgs, nextMessageId)
      requires ChatModels.Integrity(convs, msgs) && ChatModels.UsersIn(convs, msgs, UserIds(users))
      modifies this
      ensures Valid()
      ensures conversations == convs && messages == msgs && nextConversationId == nc
      ensures users == old(users) && blacklist == old(blacklist) && friendships == old(friendships)
      ensures nextUserId == old(nextUserId) && nextFriendshipId == old(nextFriendshipId)
      ensures nextMessageId == old(nextMessageId)
    {
      ReplaceChatsValid(users, blacklist, friendships, conversations, messages,
                        nextUserId, nextFriendshipId, nextConversationId, nextMessageId, convs, msgs, nc);
      conversations, messages, nextConversationId := convs, msgs, nc;
    }

    /** Deleting the conversation with key `id` (CASCADE to its messages,
        SET_NULL on last messages that pointed at them). */
    method DeleteConversation(id: Id) returns (deleted: bool)
      requires Valid()
      modifies this
      ensures Valid()
      ensures deleted <==> ChatModels.HasConversation(old(conversations), id)
      ensures deleted ==> exists k :: (0 <= k < |old(conversations)| && old(conversations)[k].id == id &&
        conversations == ChatModels.DeleteConversation(old(conversations), old(messages), k).0 &&
        messages == ChatModels.DeleteConversation(old(conversations), old(messages), k).1)
      ensures !deleted ==> conversations == old(conversations) && messages == old(messages)
      ensures users == old(users) && blacklist == old(blacklist) && friendships == old(friendships)
      ensures nextConversationId == old(nextConversationId) && nextMessageId == old(nextMessageId)
      ensures nextUserId == old(nextUserId) && nextFriendshipId == old(nextFriendshipId)
    {
      var k := 0;
      while k < |conversations| && conversations[k].id != id
        invariant 0 <= k <= |conversations|
        invariant forall j :: 0 <= j < k ==> conversations[j].id != id
      {
        k := k + 1;
      }
      if k == |conversations| {
        return false;
      }
      DeleteConversationValid(users, blacklist, friendships, conversations, messages,
                              nextUserId, nextFriendshipId, nextConversationId, nextMessageId, k);
      var after := ChatModels.DeleteConversation(conversations, messages, k);
      conversations, messages := after.0, after.1;
      return true;
    }

    /** Deleting the message with key `id`; conversations that had it as last
        message keep existing with `lastMessage` cleared. */
    method DeleteMessage(id: Id) returns (deleted: bool)
      requires Valid()
      modifies this
      ensures Valid()
      ensures deleted <==> ChatModels.HasMessage(old(messages), id)
      ensures |conversations| == |old(conversations)|
      ensures forall i :: 0 <= i < |conversations| ==>
        conversations[i] == if deleted && old(conversations)[i].lastMessage == Some(id)
                            then old(conversations)[i].(lastMessage := None) else old(conversations)[i]
      ensures !deleted ==> messages == old(messages)
      ensures deleted ==> |messages| == |old(messages)| - 1 && !ChatModels.HasMessage(messages, id)
      ensures users == old(users) && blacklist == old(blacklist) && friendships == old(friendships)
      ensures nextConversationId == old(nextConversationId) && nextMessageId == old(nextMessageId)
      ensures nextUserId == old(nextUserId) && nextFriendshipId == old(nextFriendshipId)
    {
      var k := 0;
      while k < |messages| && messages[k].id != id
        invariant 0 <= k <= |messages|
        invariant forall j :: 0 <= j < k ==> messages[j].id != id
      {
        k := k + 1;
      }
      if k == |messages| {
        return false;
      }
      DeleteMessageValid(users, blacklist, friendships, conversations, messages,
                         nextUserId, nextFriendshipId, nextConversationId, nextMessageId, k);
      ChatModels.DeleteMessagePreservesValid(conversations, messages, nextConversationId, nextMessageId, k);
      ChatModels.RemoveMessageAtKeys(messages, nextMessageId, k, id);
      var after := ChatModels.DeleteMessage(conversations, messages, k);
      conversations, messages := after.0, after.1;
      return true;
    }

    /** Deleting user `uid`: CASCADE removes their friendships and blacklist
        entries; SET_NULL clears their side of every conversation and the
        sender of every message they wrote. */
    method DeleteUser(uid: Id)
      requires Valid()
      modifies this
      ensures Valid()
      ensures users == UserModels.WithoutUser(old(users), uid)
      ensures blacklist == UserModels.BlacklistWithoutUser(old(blacklist), uid)
      ensures friendships == FriendshipModels.WithoutUser(old(friendships), uid)
      ensures (conversations, messages) == ChatModels.DetachUser(old(conversations), old(messages), uid)
      ensures nextConversationId == old(nextConversationId) && nextMessageId == old(nextMessageId)
      ensures nextUserId == old(nextUserId) && nextFriendshipId == old(nextFriendshipId)
    {
      // SET_NULL on the chat tables, then CASCADE on friendships, then the
      // user's row together with its blacklist entries.
      ChatModels.DetachUserPreservesValid(conversations, messages, nextConversationId, nextMessageId, uid);
      ChatModels.DetachUserUsersIn(conversations, messages, uid, UserIds(users));
      var after := ChatModels.DetachUser(conversations, messages, uid);
      ReplaceChats(after.0, after.1, nextConversationId);
      FriendshipModels.WithoutUserValid(friendships, nextFriendshipId, uid);
      FriendshipModels.WithoutUserUsersIn(friendships, uid, UserIds(users));
      ReplaceFriendships(FriendshipModels.WithoutUser(friendships, uid), nextFriendshipId);
      RemoveUserRow(uid);
    }

    /** The last step of deleting user `uid`: once no friendship, conversation
        or message names `uid`, its row and its blacklist entries go. */
    method RemoveUserRow(uid: Id)
      requires Valid()
      requires FriendshipModels.UsersIn(friendships, UserIds(users) - {uid})
      requires ChatModels.UsersIn(conversations, messages, UserIds(users) - {uid})
      modifies this
      ensures Valid()
      ensures users == UserModels.WithoutUser(old(users), uid)
      ensures blacklist == UserModels.BlacklistWithoutUser(old(blacklist), uid)
      ensures friendships == old(friendships) && conversations == old(conversations) && messages == old(messages)
      ensures nextConversationId == old(nextConversationId) && nextMessageId == old(nextMessageId)
      ensures nextUserId == old(nextUserId) && nextFriendshipId == old(nextFriendshipId)
    {
      UserModels.WithoutUserValid(users, uid, nextUserId);
      UserModels.BlacklistWithoutUserUnique(blacklist, uid);
      UserModels.WithoutUserIds(users, uid);
      UserModels.BlacklistWithoutUserUsersIn(blacklist, uid, UserIds(users));
      users, blacklist := UserModels.WithoutUser(users, uid), UserModels.BlacklistWithoutUser(blacklist, uid);
    }
  }
}
