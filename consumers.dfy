/** The WebSocket consumers of backend/notifications/consumers.py and the
    channel layer they talk to. Every authenticated connection joins the room
    `chat_<user id>`; a status sent by a client is stored on the user and
    fanned out to the rooms of the user's accepted friends; chat messages and
    friend requests are pushed to the receiver's room.

    The channel layer is a map from room to member channels and one queue of
    pending events per channel. Delivery is sequential: one `group_send`
    appends its event to the queue of every member at once. */
module Consumers {
  import opened Common
  import opened UserModels
  import opened FriendshipModels
  import Store

  /** A channel name: one per open WebSocket connection. */
  type Channel = string

  /** A message on the channel layer; its `type` names the consumer handler. */
  datatype Event = Event(eventType: string, message: Json)

  /** Close code of a handshake without a user (a private-use code, in the
      range 4000-4999 of section 7.4.2 of RFC 6455). */
  const UnauthenticatedClose := 4001

  const ChatMessageHandler := "chat_message"

  /** `f"chat_{id}"`: the room of one user. */
  function RoomName(id: Id): string {
    "chat_" + NatToString(id)
  }

  /** Different users have different rooms, and all connections of one
      user share one. */
  lemma RoomNameInjective(a: Id, b: Id)
    ensures RoomName(a) == RoomName(b) <==> a == b
  {
    if RoomName(a) == RoomName(b) {
      assert RoomName(a)[5..] == NatToString(a);
      assert RoomName(b)[5..] == NatToString(b);
      NatToStringInjective(a, b);
    }
  }

  /** Channels' handler lookup: the event type with every '.' turned into '_'. */
  function HandlerName(t: string): string {
    seq(|t|, i requires 0 <= i < |t| => if t[i] == '.' then '_' else t[i])
  }

  /** The handler name has no '.', keeps every other character, and naming
      a handler name again changes nothing. */
  lemma HandlerNameMeaning(t: string)
    ensures |HandlerName(t)| == |t| && '.' !in HandlerName(t)
    ensures forall i :: 0 <= i < |t| && t[i] != '.' ==> HandlerName(t)[i] == t[i]
    ensures HandlerName(HandlerName(t)) == HandlerName(t)
  {
    var h := HandlerName(t);
    assert forall i :: 0 <= i < |h| ==> h[i] != '.';
  }

  /** Both spellings the code uses reach `chat_message`. */
  lemma BothSpellingsReachChatMessage()
    ensures HandlerName("chat.message") == ChatMessageHandler
    ensures HandlerName("chat_message") == ChatMessageHandler
  {
  }

  // ---------------------------------------------------------------------
  // The channel layer

  function Members(groups: map<string, set<Channel>>, room: string): set<Channel> {
    if room in groups then groups[room] else {}
  }

  function QueueOf(queues: map<Channel, seq<Event>>, c: Channel): seq<Event> {
    if c in queues then queues[c] else []
  }

  /** One `group_send`: the event is appended to the queue of every member
      of the room and of no other channel. */
  function Deliver(queues: map<Channel, seq<Event>>, members: set<Channel>, ev: Event)
    : (r: map<Channel, seq<Event>>)
    ensures forall c :: QueueOf(r, c) == if c in members then QueueOf(queues, c) + [ev] else QueueOf(queues, c)
  {
    map c | c in queues.Keys + members :: if c in members then QueueOf(queues, c) + [ev] else queues[c]
  }

  class ChannelLayer {
    var groups: map<string, set<Channel>>
    var queues: map<Channel, seq<Event>>

    constructor ()
      ensures groups == map[] && queues == map[]
    {
      groups := map[];
      queues := map[];
    }

    /** `group_add(room, channel)`. */
    method GroupAdd(room: string, ch: Channel)
      modifies this
      ensures groups == old(groups)[room := Members(old(groups), room) + {ch}]
      ensures queues == old(queues)
    {
      groups := groups[room := Members(groups, room) + {ch}];
    }

    /** `group_discard(room, channel)`: a room left empty disappears. */
    method GroupDiscard(room: string, ch: Channel)
      modifies this
      ensures forall r :: Members(groups, r) == if r == room then Members(old(groups), r) - {ch} else Members(old(groups), r)
      ensures groups == if room !in old(groups) then old(groups)
                        else if old(groups)[room] - {ch} == {} then old(groups) - {room}
                        else old(groups)[room := old(groups)[room] - {ch}]
      ensures queues == old(queues)
    {
      if room in groups {
        var rest := groups[room] - {ch};
        if rest == {} {
          groups := groups - {room};
        } else {
          groups := groups[room := rest];
        }
      }
    }

    /** `group_send(room, event)`. */
    method GroupSend(room: string, ev: Event)
      modifies this
      ensures queues == Deliver(old(queues), Members(old(groups), room), ev)
      ensures groups == old(groups)
    {
      queues := Deliver(queues, Members(groups, room), ev);
    }
  }

  // ---------------------------------------------------------------------
  // Friend notifications

  /** One entry of `get_friend_notifications`. */
  datatype Notification = Notification(roomName: string, message: Json)

  /** `{"type": "status_update", "username": ..., "status": ...}`; the status
      is carried as the client sent it. */
  function StatusMessage(username: string, status: Json): Json {
    JObject(map["type" := JString("status_update"), "username" := JString(username), "status" := status])
  }

  /** `Q(user1=u, status=ACCEPTED) | Q(user2=u, status=ACCEPTED)` */
  predicate IsFriendOf(f: Friendship, uid: Id) {
    f.status == Accepted && (f.user1 == uid || f.user2 == uid)
  }

  /** The side of the friendship that is not `uid`. */
  function Peer(f: Friendship, uid: Id): Id {
    if f.user1 == uid then f.user2 else f.user1
  }

  function NotificationFor(f: Friendship, u: User, status: Json): Notification {
    Notification(RoomName(Peer(f, u.id)), StatusMessage(u.username, status))
  }

  /** The notifications of `u`'s status, one per accepted friendship, in
      table order. */
  function FriendNotifications(rows: seq<Friendship>, u: User, status: Json): seq<Notification>
    decreases |rows|
  {
    if rows == [] then []
    else
      var last := rows[|rows| - 1];
      FriendNotifications(rows[..|rows| - 1], u, status) +
        (if IsFriendOf(last, u.id) then [NotificationFor(last, u, status)] else [])
  }

  /** How many accepted friendships `uid` has. */
  function FriendCount(rows: seq<Friendship>, uid: Id): nat
    decreases |rows|
  {
    if rows == [] then 0
    else FriendCount(rows[..|rows| - 1], uid) + (if IsFriendOf(rows[|rows| - 1], uid) then 1 else 0)
  }

  /** One notification per accepted friendship of `u`. */
  lemma {:induction false} FriendNotificationsCount(rows: seq<Friendship>, u: User, status: Json)
    ensures |FriendNotifications(rows, u, status)| == FriendCount(rows, u.id)
    decreases |rows|
  {
    if rows != [] {
      FriendNotificationsCount(rows[..|rows| - 1], u, status);
    }
  }

  /** `n` is the notification of one accepted friendship of `u`. */
  predicate FromFriendship(rows: seq<Friendship>, u: User, status: Json, n: Notification) {
    exists i :: 0 <= i < |rows| && IsFriendOf(rows[i], u.id) && n == NotificationFor(rows[i], u, status)
  }

  /** Every notification comes from an accepted friendship of `u` and goes
      to the other side's room with `u`'s name and the status; pending and
      rejected rows yield none. */
  lemma {:induction false} FriendNotificationsSound(rows: seq<Friendship>, u: User, status: Json)
    ensures forall k :: 0 <= k < |FriendNotifications(rows, u, status)| ==>
      FromFriendship(rows, u, status, FriendNotifications(rows, u, status)[k])
    decreases |rows|
  {
    if rows != [] {
      var n := |rows| - 1;
      var init := rows[..n];
      FriendNotificationsSound(init, u, status);
      var prev := FriendNotifications(init, u, status);
      var ns := FriendNotifications(rows, u, status);
      forall k | 0 <= k < |ns| ensures FromFriendship(rows, u, status, ns[k]) {
        if k < |prev| {
          assert FromFriendship(init, u, status, prev[k]);
          var i :| 0 <= i < |init| && IsFriendOf(init[i], u.id) && prev[k] == NotificationFor(init[i], u, status);
          assert rows[i] == init[i] && ns[k] == prev[k];
        } else {
          assert IsFriendOf(rows[n], u.id) && ns[k] == NotificationFor(rows[n], u, status);
        }
      }
    }
  }

  /** Every accepted friendship of `u` yields its notification. */
  lemma {:induction false} FriendNotificationsComplete(rows: seq<Friendship>, u: User, status: Json)
    ensures forall i :: 0 <= i < |rows| && IsFriendOf(rows[i], u.id) ==>
      NotificationFor(rows[i], u, status) in FriendNotifications(rows, u, status)
    decreases |rows|
  {
    if rows != [] {
      var n := |rows| - 1;
      var init := rows[..n];
      FriendNotificationsComplete(init, u, status);
      assert forall i :: 0 <= i < n ==> init[i] == rows[i];
    }
  }

  /** In a valid table no friend gets the status twice: the rooms of the
      notifications are pairwise different. */
  lemma {:induction false} OneNotificationPerFriend(rows: seq<Friendship>, next: Id, u: User, status: Json)
    requires TableValid(rows, next)
    ensures forall k, l :: 0 <= k < l < |FriendNotifications(rows, u, status)| ==>
      FriendNotifications(rows, u, status)[k].roomName != FriendNotifications(rows, u, status)[l].roomName
    decreases |rows|
  {
    if rows != [] {
      var n := |rows| - 1;
      var init := rows[..n];
      var last := rows[n];
      assert TableValid(init, next);
      OneNotificationPerFriend(init, next, u, status);
      FriendNotificationsSound(init, u, status);
      var prev := FriendNotifications(init, u, status);
      if IsFriendOf(last, u.id) {
        forall k | 0 <= k < |prev| ensures prev[k].roomName != RoomName(Peer(last, u.id)) {
          assert FromFriendship(init, u, status, prev[k]);
          var i :| 0 <= i < |init| && IsFriendOf(init[i], u.id) && prev[k] == NotificationFor(init[i], u, status);
          assert rows[i] == init[i];
          assert !Between(last, rows[i].user1, rows[i].user2);
          RoomNameInjective(Peer(init[i], u.id), Peer(last, u.id));
        }
        var ns := FriendNotifications(rows, u, status);
        assert ns == prev + [NotificationFor(last, u, status)];
        forall k, l | 0 <= k < l < |ns| ensures ns[k].roomName != ns[l].roomName {
          if l < |prev| {
            assert ns[k] == prev[k] && ns[l] == prev[l];
          }
        }
      }
    }
  }

  /** Notifications go out as `chat.message` events carrying the message. */
  function EventOf(n: Notification): Event {
    Event("chat.message", n.message)
  }

  /** The queues after one `group_send` per notification, in list order. */
  function DeliverAll(queues: map<Channel, seq<Event>>, groups: map<string, set<Channel>>, ns: seq<Notification>)
    : map<Channel, seq<Event>>
    decreases |ns|
  {
    if ns == [] then queues
    else
      var last := ns[|ns| - 1];
      Deliver(DeliverAll(queues, groups, ns[..|ns| - 1]), Members(groups, last.roomName), EventOf(last))
  }

  /** The events of `ns` addressed to a room that `c` is in, in list order. */
  function EventsFor(groups: map<string, set<Channel>>, ns: seq<Notification>, c: Channel): seq<Event>
    decreases |ns|
  {
    if ns == [] then []
    else
      var last := ns[|ns| - 1];
      EventsFor(groups, ns[..|ns| - 1], c) + (if c in Members(groups, last.roomName) then [EventOf(last)] else [])
  }

  /** After the fan-out each channel has, behind what it had, exactly the
      events addressed to its rooms, in the order they were sent. */
  lemma {:induction false} DeliverAllQueue(queues: map<Channel, seq<Event>>, groups: map<string, set<Channel>>,
                                           ns: seq<Notification>, c: Channel)
    ensures QueueOf(DeliverAll(queues, groups, ns), c) == QueueOf(queues, c) + EventsFor(groups, ns, c)
    decreases |ns|
  {
    if ns != [] {
      DeliverAllQueue(queues, groups, ns[..|ns| - 1], c);
    }
  }

  /** `receive`'s loop: one `group_send` per notification. */
  method SendNotifications(layer: ChannelLayer, ns: seq<Notification>)
    modifies layer
    ensures layer.queues == DeliverAll(old(layer.queues), old(layer.groups), ns)
    ensures layer.groups == old(layer.groups)
  {
    var i := 0;
    while i < |ns|
      invariant 0 <= i <= |ns|
      invariant layer.queues == DeliverAll(old(layer.queues), old(layer.groups), ns[..i])
      invariant layer.groups == old(layer.groups)
    {
      layer.GroupSend(ns[i].roomName, EventOf(ns[i]));
      assert ns[..i + 1][..i] == ns[..i];
      i := i + 1;
    }
    assert ns[..|ns|] == ns;
  }

  // ---------------------------------------------------------------------
  // Pushes from the REST views

  /** The event `sendChatMessage` sends: `{"data": message_data}`. */
  function ChatMessageEvent(data: Json): Event {
    Event(ChatMessageHandler, JObject(map["data" := data]))
  }

  /** The event `sendFriendRequest` sends: `{"type": "friend_request"}`. */
  const FriendRequestEvent := Event(ChatMessageHandler, JObject(map["type" := JString("friend_request")]))

  /** `ChatConsumer.sendChatMessage(receiver_id, message_data)`; without a
      channel layer nothing happens. */
  method SendChatMessage(layer: ChannelLayer?, receiverId: Id, data: Json)
    modifies layer
    ensures layer != null ==>
      layer.queues == Deliver(old(layer.queues), Members(old(layer.groups), RoomName(receiverId)), ChatMessageEvent(data)) &&
      layer.groups == old(layer.groups)
  {
    if layer == null {
      return;
    }
    layer.GroupSend(RoomName(receiverId), ChatMessageEvent(data));
  }

  /** `NotificationConsumer.sendFriendRequest(receiver_id)`; without a
      channel layer nothing happens. */
  method SendFriendRequest(layer: ChannelLayer?, receiverId: Id)
    modifies layer
    ensures layer != null ==>
      layer.queues == Deliver(old(layer.queues), Members(old(layer.groups), RoomName(receiverId)), FriendRequestEvent) &&
      layer.groups == old(layer.groups)
  {
    if layer == null {
      return;
    }
    layer.GroupSend(RoomName(receiverId), FriendRequestEvent);
  }

  // ---------------------------------------------------------------------
  // One connection

  /** The per-connection state of `BaseConsumer`/`ChatConsumer`. `room` is
      `group_room_name`, None while the attribute is unset; `sent` holds the
      JSON frames sent to the client. */
  class Consumer {
    const channelName: Channel
    var user: Option<User>
    var room: Option<string>
    var accepted: bool
    var closeCode: Option<int>
    var sent: seq<Json>

    constructor (channelName: Channel)
      ensures this.channelName == channelName
      ensures user == None && room == None && !accepted && closeCode == None && sent == []
    {
      this.channelName := channelName;
      user := None;
      room := None;
      accepted := false;
      closeCode := None;
      sent := [];
    }

    /** `connect`: without a user the handshake is closed with 4001 and no
        room is joined; otherwise the channel joins the user's room and the
        handshake is accepted. */
    method Connect(layer: ChannelLayer, scopeUser: Option<User>)
      modifies this, layer
      ensures user == scopeUser && sent == old(sent)
      ensures scopeUser.None? ==>
        closeCode == Some(UnauthenticatedClose) && accepted == old(accepted) && room == old(room) &&
        layer.groups == old(layer.groups) && layer.queues == old(layer.queues)
      ensures scopeUser.Some? ==>
        var r := RoomName(scopeUser.value.id);
        room == Some(r) && accepted && closeCode == old(closeCode) &&
        layer.groups == old(layer.groups)[r := Members(old(layer.groups), r) + {channelName}] &&
        layer.queues == old(layer.queues)
    {
      user := scopeUser;
      if scopeUser.None? {
        closeCode := Some(UnauthenticatedClose);
        return;
      }
      room := Some(RoomName(scopeUser.value.id));
      layer.GroupAdd(room.value, channelName);
      accepted := true;
    }

    /** `disconnect`: the channel leaves its room, if it was given one. */
    method Disconnect(layer: ChannelLayer)
      modifies layer
      ensures room.None? ==> layer.groups == old(layer.groups)
      ensures room.Some? ==>
        forall r :: Members(layer.groups, r) ==
          if r == room.value then Members(old(layer.groups), r) - {channelName} else Members(old(layer.groups), r)
      ensures layer.queues == old(layer.queues)
    {
      if room.Some? {
        layer.GroupDiscard(room.value, channelName);
      }
    }

    /** `chat_message`: the event's message goes to the client unchanged. */
    method ChatMessage(ev: Event)
      modifies this
      ensures sent == old(sent) + [ev.message]
      ensures user == old(user) && room == old(room) && accepted == old(accepted) && closeCode == old(closeCode)
    {
      sent := sent + [ev.message];
    }

    /** Channels' dispatch of the next event queued for this channel: the
        handler named by the event type runs; `chat_message` is the only
        one, and any other type is refused (ValueError). */
    method DeliverNext(layer: ChannelLayer) returns (handled: bool)
      requires QueueOf(layer.queues, channelName) != []
      modifies this, layer
      ensures layer.queues == old(layer.queues)[channelName := old(QueueOf(layer.queues, channelName))[1..]]
      ensures layer.groups == old(layer.groups)
      ensures var ev := old(QueueOf(layer.queues, channelName))[0];
        handled == (HandlerName(ev.eventType) == ChatMessageHandler) &&
        sent == if handled then old(sent) + [ev.message] else old(sent)
      ensures user == old(user) && room == old(room) && accepted == old(accepted) && closeCode == old(closeCode)
    {
      var q := QueueOf(layer.queues, channelName);
      var ev := q[0];
      layer.queues := layer.queues[channelName := q[1..]];
      handled := HandlerName(ev.eventType) == ChatMessageHandler;
      if handled {
        ChatMessage(ev);
      }
    }

    /** `get_friend_notifications(status)`. */
    method GetFriendNotifications(rows: seq<Friendship>, status: Json) returns (ns: seq<Notification>)
      requires user.Some?
      ensures ns == FriendNotifications(rows, user.value, status)
    {
      var u := user.value;
      ns := [];
      var i := 0;
      while i < |rows|
        invariant 0 <= i <= |rows|
        invariant ns == FriendNotifications(rows[..i], u, status)
      {
        var f := rows[i];
        if f.status == Accepted && (f.user1 == u.id || f.user2 == u.id) {
          var friendRoom := if f.user1 == u.id then RoomName(f.user2) else RoomName(f.user1);
          ns := ns + [Notification(friendRoom, StatusMessage(u.username, status))];
        }
        assert rows[..i + 1][..i] == rows[..i];
        i := i + 1;
      }
      assert rows[..|rows|] == rows;
    }

    /** `save_user_status(status)`: `IsOnline` becomes true exactly for the
        string "Online", on the consumer's own copy of the user, and that
        whole copy is saved. */
    method SaveUserStatus(db: Store.Database, status: Json) returns (r: Result<seq<User>, string>)
      requires user.Some? && db.Valid()
      modifies this, db
      ensures user == Some(old(user).value.(isOnline := status == JString("Online")))
      ensures db.Valid()
      ensures r == SaveRow(old(db.users), user.value)
      ensures db.users == if r.Success? then r.value else old(db.users)
      ensures db.blacklist == old(db.blacklist) && db.friendships == old(db.friendships)
      ensures db.conversations == old(db.conversations) && db.messages == old(db.messages)
      ensures db.nextUserId == old(db.nextUserId) && db.nextFriendshipId == old(db.nextFriendshipId)
      ensures db.nextConversationId == old(db.nextConversationId) && db.nextMessageId == old(db.nextMessageId)
      ensures room == old(room) && accepted == old(accepted) && closeCode == old(closeCode) && sent == old(sent)
    {
      user := Some(user.value.(isOnline := status == JString("Online")));
      r := db.SaveUser(user.value);
    }

    /** `receive(text_data)`: the parsed payload must be an object with a
        `status` key (otherwise the KeyError or TypeError ends the call
        before anything changes); the status is stored first, then one
        notification per accepted friend is sent, in list order. A refused
        save raises and nothing is sent. */
    method Receive(db: Store.Database, layer: ChannelLayer, payload: Option<Json>) returns (ok: bool)
      requires user.Some? && db.Valid()
      modifies this, db, layer
      ensures db.Valid()
      ensures layer.groups == old(layer.groups)
      ensures room == old(room) && accepted == old(accepted) && closeCode == old(closeCode) && sent == old(sent)
      ensures db.blacklist == old(db.blacklist) && db.friendships == old(db.friendships)
      ensures db.conversations == old(db.conversations) && db.messages == old(db.messages)
      ensures db.nextUserId == old(db.nextUserId) && db.nextFriendshipId == old(db.nextFriendshipId)
      ensures db.nextConversationId == old(db.nextConversationId) && db.nextMessageId == old(db.nextMessageId)
      ensures !(payload.Some? && payload.value.JObject? && "status" in payload.value.fields) ==>
        !ok && user == old(user) && db.users == old(db.users) && layer.queues == old(layer.queues)
      ensures payload.Some? && payload.value.JObject? && "status" in payload.value.fields ==>
        var status := payload.value.fields["status"];
        var u := old(user).value.(isOnline := status == JString("Online"));
        user == Some(u) &&
        (ok <==> SaveRow(old(db.users), u).Success?) &&
        (ok ==> db.users == SaveRow(old(db.users), u).value &&
                layer.queues == DeliverAll(old(layer.queues), old(layer.groups),
                                           FriendNotifications(old(db.friendships), u, status))) &&
        (!ok ==> db.users == old(db.users) && layer.queues == old(layer.queues))
    {
      if !(payload.Some? && payload.value.JObject? && "status" in payload.value.fields) {
        return false;
      }
      var status := payload.value.fields["status"];
      var saved := SaveUserStatus(db, status);
      if saved.Failure? {
        return false;
      }
      var notifications := GetFriendNotifications(db.friendships, status);
      SendNotifications(layer, notifications);
      return true;
    }
  }

  /** The consumer's copy of the user is the one it was connected with, so
      its save writes back every column of that copy: a column changed in
      the table since the connection (`stored`) is overwritten unless it
      agrees with the copy. */
  lemma StatusSaveWritesWholeCopy(users: seq<User>, copy: User, status: Json)
    requires SaveRow(users, copy.(isOnline := status == JString("Online"))).Success?
    ensures var saved := SaveRow(users, copy.(isOnline := status == JString("Online"))).value;
      var k := IndexOfUser(users, copy.id);
      0 <= k < |users| && saved[k] == copy.(isOnline := status == JString("Online")) &&
      saved[k].isOnline == (status == JString("Online")) &&
      saved[k].username == copy.username && saved[k].email == copy.email &&
      forall j :: 0 <= j < |users| && j != k ==> saved[j] == users[j]
  {
  }
}
