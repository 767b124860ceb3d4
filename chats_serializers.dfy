/** `ConversationsSerializer` of backend/chats/serializers.py: how a
    conversation is shown to one of its users (the other user and the two
    block flags seen from the viewer's side) and how a new conversation is
    validated and stored. */
module ChatSerializers {
  import opened Common
  import opened UserModels
  import opened ChatModels
  import opened UserSerializers

  const ConversationExists := "A conversation between these users already exists."
  const MaxUser2UsernameLength := 30

  // ---------------------------------------------------------------------
  // Read-only fields

  /** `get_user`: the user shown is `user2` when the viewer is `user1`,
      otherwise `user1` (None stands for a side emptied by SET_NULL). */
  function GetUser(c: Conversation, viewer: Id): Option<Id> {
    if c.user1 == Some(viewer) then c.user2 else c.user1
  }

  /** For a participant of a two-person conversation the user shown is the
      other participant; in a conversation with oneself it is oneself. */
  lemma GetUserMeaning(c: Conversation, viewer: Id)
    ensures c.user1 == Some(viewer) ==> GetUser(c, viewer) == c.user2
    ensures c.user1 != Some(viewer) ==> GetUser(c, viewer) == c.user1
    ensures c.user1.Some? && c.user2.Some? && c.user1 != c.user2 && c.user2 == Some(viewer) ==>
      GetUser(c, viewer) == c.user1 && GetUser(c, c.user1.value) == Some(viewer)
    ensures c.user1 == Some(viewer) && c.user2 == Some(viewer) ==> GetUser(c, viewer) == Some(viewer)
  {
  }

  /** `get_IsBlockedByMe`. */
  function IsBlockedByMe(c: Conversation, viewer: Id): bool {
    (c.user1 == Some(viewer) && c.isBlockedByUser1) || (c.user2 == Some(viewer) && c.isBlockedByUser2)
  }

  /** `get_IsBlockedByOtherUser`. */
  function IsBlockedByOtherUser(c: Conversation, viewer: Id): bool {
    (c.user1 == Some(viewer) && c.isBlockedByUser2) || (c.user2 == Some(viewer) && c.isBlockedByUser1)
  }

  /** Seen from either side of a two-person conversation, each flag reads
      the viewer's own column for "by me" and the other one's for "by the
      other user", so each side's "by me" is the other side's "by the other
      user". Someone outside the conversation sees neither. */
  lemma BlockFlagsMirror(c: Conversation, a: Id, b: Id, outsider: Id)
    requires c.user1 == Some(a) && c.user2 == Some(b) && a != b
    requires outsider != a && outsider != b
    ensures IsBlockedByMe(c, a) <==> c.isBlockedByUser1
    ensures IsBlockedByMe(c, b) <==> c.isBlockedByUser2
    ensures IsBlockedByMe(c, a) <==> IsBlockedByOtherUser(c, b)
    ensures IsBlockedByMe(c, b) <==> IsBlockedByOtherUser(c, a)
    ensures !IsBlockedByMe(c, outsider) && !IsBlockedByOtherUser(c, outsider)
  {
  }

  /** A new conversation is blocked by nobody, whoever looks at it. */
  lemma FreshConversationUnblocked(id: Id, user1: Id, user2: Id, viewer: Id)
    ensures !IsBlockedByMe(NewConversation(id, user1, user2), viewer)
    ensures !IsBlockedByOtherUser(NewConversation(id, user1, user2), viewer)
  {
  }

  // ---------------------------------------------------------------------
  // user2_username and validate

  /** The messages of `user2_username`: required, trimmed, not blank, at
      most 30 characters and free of NUL (both limit messages collected). */
  function User2UsernameMessages(value: Option<string>): seq<string> {
    Field(value, true,
      if value.None? then []
      else When(|Strip(value.value)| > MaxUser2UsernameLength, MaxLengthMessage(MaxUser2UsernameLength))
           + When(HasNul(Strip(value.value)), NullCharacters))
  }

  lemma User2UsernameMessagesMeaning(value: Option<string>)
    ensures User2UsernameMessages(value) == [] <==>
      value.Some? && var v := Strip(value.value);
        v != "" && |v| <= MaxUser2UsernameLength && !HasNul(v)
    ensures value.None? ==> User2UsernameMessages(value) == [FieldRequired]
    ensures value.Some? && Strip(value.value) == "" ==> User2UsernameMessages(value) == [FieldBlank]
  {
  }

  /** What `is_valid` leads to: validated data naming the other user, the
      serializer's errors, or the Http404 of `get_object_or_404`, which
      escapes `is_valid` and becomes a 404 response. */
  datatype ConversationValidation = Validated(user2: User) | Invalid(errors: Errors) | UserNotFound

  /** `is_valid()` for a new conversation asked for by `requester`. Unlike a
      friend request there is no check against the requester's own name. */
  function ValidateConversation(users: seq<User>, convs: seq<Conversation>, requester: User,
                                value: Option<string>): ConversationValidation
  {
    var msgs := User2UsernameMessages(value);
    if msgs != [] then Invalid(map["user2_username" := msgs])
    else
      match FindByUsername(users, Strip(Get(value)))
      case None => UserNotFound
      case Some(u2) =>
        if ExistsBetween(convs, Some(requester.id), Some(u2.id)) then Invalid(map[NonFieldErrors := [ConversationExists]])
        else Validated(u2)
  }

  /** A new conversation is validated exactly when the field passes, the
      stripped name is a user's and no conversation joins the two users in
      either order; the other user is the one with that name. */
  lemma ValidateConversationAcceptance(users: seq<User>, convs: seq<Conversation>, requester: User,
                                       value: Option<string>)
    ensures ValidateConversation(users, convs, requester, value).Validated? <==>
      User2UsernameMessages(value) == [] &&
      HasUsername(users, Strip(value.value)) &&
      !AnyBetween(convs, Some(requester.id), Some(FindByUsername(users, Strip(value.value)).value.id))
    ensures ValidateConversation(users, convs, requester, value).Validated? ==>
      var u2 := ValidateConversation(users, convs, requester, value).user2;
      u2 in users && u2.username == Strip(value.value)
  {
    User2UsernameMessagesMeaning(value);
  }

  /** Field errors hide everything else; then an unknown name is a 404;
      then an existing conversation, in either order, is refused. */
  lemma ValidateConversationOrder(users: seq<User>, convs: seq<Conversation>, requester: User,
                                  value: Option<string>)
    ensures User2UsernameMessages(value) != [] ==>
      ValidateConversation(users, convs, requester, value) ==
        Invalid(map["user2_username" := User2UsernameMessages(value)])
    ensures User2UsernameMessages(value) == [] ==>
      (ValidateConversation(users, convs, requester, value).UserNotFound? <==> !HasUsername(users, Strip(value.value)))
    ensures User2UsernameMessages(value) == [] && HasUsername(users, Strip(value.value)) ==>
      var u2 := FindByUsername(users, Strip(value.value)).value;
      (AnyBetween(convs, Some(requester.id), Some(u2.id)) ==>
        ValidateConversation(users, convs, requester, value) == Invalid(map[NonFieldErrors := [ConversationExists]])) &&
      (!AnyBetween(convs, Some(requester.id), Some(u2.id)) ==>
        ValidateConversation(users, convs, requester, value) == Validated(u2))
  {
    User2UsernameMessagesMeaning(value);
  }

  /** An existing conversation is refused whichever of the two started it. */
  lemma ExistingRefusedBothWays(users: seq<User>, convs: seq<Conversation>, requester: User,
                                value: Option<string>, k: nat)
    requires User2UsernameMessages(value) == [] && HasUsername(users, Strip(value.value))
    requires k < |convs|
    requires var u2 := FindByUsername(users, Strip(value.value)).value;
      (convs[k].user1 == Some(requester.id) && convs[k].user2 == Some(u2.id)) ||
      (convs[k].user1 == Some(u2.id) && convs[k].user2 == Some(requester.id))
    ensures ValidateConversation(users, convs, requester, value) == Invalid(map[NonFieldErrors := [ConversationExists]])
  {
    var u2 := FindByUsername(users, Strip(value.value)).value;
    assert Between(convs[k], Some(requester.id), Some(u2.id));
  }

  /** Naming oneself passes validation when one has no conversation with
      oneself yet. */
  lemma SelfConversationAllowed(users: seq<User>, convs: seq<Conversation>, requester: User, value: Option<string>)
    requires User2UsernameMessages(value) == []
    requires FindByUsername(users, Strip(value.value)) == Some(requester)
    requires forall k :: 0 <= k < |convs| ==> !(convs[k].user1 == Some(requester.id) && convs[k].user2 == Some(requester.id))
    ensures ValidateConversation(users, convs, requester, value) == Validated(requester)
  {
  }

  // ---------------------------------------------------------------------
  // create

  /** `create`: `Conversations.objects.create(user1=requester, user2=user2)`,
      through the model's `save` and its `clean`. */
  function CreateConversation(convs: seq<Conversation>, next: Id, requester: User, user2: User)
    : Result<seq<Conversation>, string>
  {
    ChatModels.Create(convs, next, requester.id, user2.id)
  }

  /** After validation the insert cannot fail: the requester becomes
      `user1`, the named user `user2`, both see it and neither blocks it. */
  lemma CreateAfterValidation(users: seq<User>, convs: seq<Conversation>, next: Id, requester: User,
                              value: Option<string>)
    requires ValidateConversation(users, convs, requester, value).Validated?
    ensures var u2 := ValidateConversation(users, convs, requester, value).user2;
      CreateConversation(convs, next, requester, u2) == Success(convs + [NewConversation(next, requester.id, u2.id)])
  {
  }
}
