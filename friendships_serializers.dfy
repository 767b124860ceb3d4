/** `FriendshipsSerializer` of backend/friendships/serializers.py: how a
    friendship is shown to one of its users (the friend and the pending
    action) and how a friend request is validated and stored. */
module FriendshipSerializers {
  import opened Common
  import opened UserModels
  import opened FriendshipModels
  import opened UserSerializers

  const SelfFriendship := "You cannot be friends with yourself."
  const CannotBefriend := "You cannot create a friendship with this user."
  const FriendshipExists := "Friendship already exists."
  const AcceptOrReject := "accept_or_reject"
  const WaitingForResponse := "waiting_for_response"
  const MaxFriendUsernameLength := 30

  // ---------------------------------------------------------------------
  // Read-only fields

  /** `get_friend`: the other side when the viewer is `user1`, otherwise `user1`. */
  function GetFriend(f: Friendship, viewer: Id): Id {
    if viewer == f.user1 then f.user2 else f.user1
  }

  /** For either participant the friend is the other participant, and the
      friend's friend is the viewer again. Anyone else is shown `user1`. */
  lemma GetFriendMeaning(f: Friendship, viewer: Id)
    requires f.user1 != f.user2
    ensures viewer == f.user1 ==> GetFriend(f, viewer) == f.user2
    ensures viewer == f.user2 ==> GetFriend(f, viewer) == f.user1
    ensures viewer == f.user1 || viewer == f.user2 ==>
      GetFriend(f, viewer) != viewer && GetFriend(f, GetFriend(f, viewer)) == viewer
    ensures viewer != f.user1 && viewer != f.user2 ==> GetFriend(f, viewer) == f.user1
  {
  }

  /** `get_pending_action`. */
  function PendingAction(f: Friendship, viewer: Id): Option<string> {
    if f.status == Pending then
      if viewer == f.user2 then Some(AcceptOrReject) else Some(WaitingForResponse)
    else None
  }

  /** Only a pending friendship has an action; it asks the receiver
      (`user2`) to answer and tells everyone else to wait. */
  lemma PendingActionMeaning(f: Friendship, viewer: Id)
    ensures PendingAction(f, viewer).Some? <==> f.status == Pending
    ensures PendingAction(f, viewer) == Some(AcceptOrReject) <==> f.status == Pending && viewer == f.user2
    ensures PendingAction(f, viewer) == Some(WaitingForResponse) <==> f.status == Pending && viewer != f.user2
  {
  }

  /** Once a request is created, its sender waits and its receiver is asked. */
  lemma PendingActionAfterCreate(id: Id, sender: Id, receiver: Id)
    requires sender != receiver
    ensures PendingAction(Friendship(id, sender, receiver, DefaultStatus), sender) == Some(WaitingForResponse)
    ensures PendingAction(Friendship(id, sender, receiver, DefaultStatus), receiver) == Some(AcceptOrReject)
  {
  }

  // ---------------------------------------------------------------------
  // friend_username

  /** The checks on a non-blank stripped value: the CharField's own limits
      (both messages collected), then `validate_friend_username`, which runs
      only when those passed. */
  function FriendUsernameChecks(v: string, requesterUsername: string): seq<string> {
    var limits := When(|v| > MaxFriendUsernameLength, MaxLengthMessage(MaxFriendUsernameLength))
                  + When(HasNul(v), NullCharacters);
    if limits != [] then limits else When(v == requesterUsername, SelfFriendship)
  }

  /** The messages of `friend_username` (required, trimmed, not blank). */
  function FriendUsernameMessages(value: Option<string>, requesterUsername: string): seq<string> {
    Field(value, true, if value.None? then [] else FriendUsernameChecks(Strip(value.value), requesterUsername))
  }

  /** The field passes exactly when a value was sent whose stripped text is
      non-blank, at most 30 characters, free of NUL and not the requester's
      own username; the messages for each failure are the source's. */
  lemma FriendUsernameMessagesMeaning(value: Option<string>, requesterUsername: string)
    ensures FriendUsernameMessages(value, requesterUsername) == [] <==>
      value.Some? && var v := Strip(value.value);
        v != "" && |v| <= MaxFriendUsernameLength && !HasNul(v) && v != requesterUsername
    ensures value.None? ==> FriendUsernameMessages(value, requesterUsername) == [FieldRequired]
    ensures value.Some? && Strip(value.value) == "" ==> FriendUsernameMessages(value, requesterUsername) == [FieldBlank]
    ensures value.Some? && |Strip(value.value)| > MaxFriendUsernameLength ==>
      FriendUsernameMessages(value, requesterUsername)[0] == MaxLengthMessage(MaxFriendUsernameLength)
    ensures value.Some? ==> var v := Strip(value.value);
        v == requesterUsername && v != "" && |v| <= MaxFriendUsernameLength && !HasNul(v) ==>
      FriendUsernameMessages(value, requesterUsername) == [SelfFriendship]
  {
  }

  // ---------------------------------------------------------------------
  // validate

  /** `Blacklist.objects.filter(Q(user=a, blocked_user=b) | Q(user=b, blocked_user=a)).exists()` */
  predicate BlockedEitherWay(bl: seq<BlacklistEntry>, a: Id, b: Id) {
    BlacklistEntry(a, b) in bl || BlacklistEntry(b, a) in bl
  }

  /** What `is_valid` leads to: validated data naming the friend, the
      serializer's errors, or the Http404 of `get_object_or_404`, which
      escapes `is_valid` and becomes a 404 response. */
  datatype RequestValidation = Validated(friend: User) | Invalid(errors: Errors) | FriendNotFound

  /** `is_valid()` for a friend request from `requester`. */
  function ValidateRequest(users: seq<User>, bl: seq<BlacklistEntry>, rows: seq<Friendship>,
                           requester: User, value: Option<string>): RequestValidation
  {
    var msgs := FriendUsernameMessages(value, requester.username);
    if msgs != [] then Invalid(map["friend_username" := msgs])
    else
      match FindByUsername(users, Strip(Get(value)))
      case None => FriendNotFound
      case Some(friend) =>
        if BlockedEitherWay(bl, requester.id, friend.id) then Invalid(map[NonFieldErrors := [CannotBefriend]])
        else if ExistsBetween(rows, requester.id, friend.id) then Invalid(map[NonFieldErrors := [FriendshipExists]])
        else Validated(friend)
  }

  /** A request is validated exactly when the field passes, the stripped
      name is a user's, no block exists in either direction and the two
      share no friendship in either order; the friend is that user. */
  lemma ValidateRequestAcceptance(users: seq<User>, bl: seq<BlacklistEntry>, rows: seq<Friendship>,
                                  requester: User, value: Option<string>)
    ensures ValidateRequest(users, bl, rows, requester, value).Validated? <==>
      FriendUsernameMessages(value, requester.username) == [] &&
      HasUsername(users, Strip(value.value)) &&
      var friend := FindByUsername(users, Strip(value.value)).value;
      !BlockedEitherWay(bl, requester.id, friend.id) && !AnyBetween(rows, requester.id, friend.id)
    ensures ValidateRequest(users, bl, rows, requester, value).Validated? ==>
      var friend := ValidateRequest(users, bl, rows, requester, value).friend;
      friend in users && friend.username == Strip(value.value) && friend.username != requester.username
  {
    FriendUsernameMessagesMeaning(value, requester.username);
  }

  /** The checks come in a fixed order: field errors, then the unknown name,
      then a block, then an existing friendship, each hiding the later ones. */
  lemma ValidateRequestOrder(users: seq<User>, bl: seq<BlacklistEntry>, rows: seq<Friendship>,
                             requester: User, value: Option<string>)
    ensures FriendUsernameMessages(value, requester.username) != [] ==>
      ValidateRequest(users, bl, rows, requester, value) ==
        Invalid(map["friend_username" := FriendUsernameMessages(value, requester.username)])
    ensures FriendUsernameMessages(value, requester.username) == [] ==>
      (ValidateRequest(users, bl, rows, requester, value).FriendNotFound? <==> !HasUsername(users, Strip(value.value)))
    ensures FriendUsernameMessages(value, requester.username) == [] && HasUsername(users, Strip(value.value)) ==>
      var friend := FindByUsername(users, Strip(value.value)).value;
      (BlockedEitherWay(bl, requester.id, friend.id) ==>
        ValidateRequest(users, bl, rows, requester, value) == Invalid(map[NonFieldErrors := [CannotBefriend]])) &&
      (!BlockedEitherWay(bl, requester.id, friend.id) && AnyBetween(rows, requester.id, friend.id) ==>
        ValidateRequest(users, bl, rows, requester, value) == Invalid(map[NonFieldErrors := [FriendshipExists]]))
  {
    FriendUsernameMessagesMeaning(value, requester.username);
  }

  /** A block refuses the request whichever side placed it. */
  lemma BlockRefusesBothWays(users: seq<User>, bl: seq<BlacklistEntry>, rows: seq<Friendship>,
                             requester: User, value: Option<string>, blocker: Id)
    requires FriendUsernameMessages(value, requester.username) == []
    requires HasUsername(users, Strip(value.value))
    requires var friend := FindByUsername(users, Strip(value.value)).value;
      (blocker == requester.id && BlacklistEntry(requester.id, friend.id) in bl) ||
      (blocker == friend.id && BlacklistEntry(friend.id, requester.id) in bl)
    ensures ValidateRequest(users, bl, rows, requester, value) == Invalid(map[NonFieldErrors := [CannotBefriend]])
  {
  }

  // ---------------------------------------------------------------------
  // create

  /** `create`: `Friendships.objects.create(user1=requester, user2=friend)`,
      through the model's `save` and its `clean`. */
  function CreateRequest(rows: seq<Friendship>, next: Id, requester: User, friend: User)
    : Result<seq<Friendship>, string>
  {
    FriendshipModels.Create(rows, next, requester.id, friend.id, DefaultStatus)
  }

  /** After validation the insert cannot fail: the requester becomes `user1`,
      the friend `user2`, and the status is PENDING. */
  lemma CreateAfterValidation(users: seq<User>, bl: seq<BlacklistEntry>, rows: seq<Friendship>, next: Id,
                              requester: User, value: Option<string>)
    requires ValidateRequest(users, bl, rows, requester, value).Validated?
    ensures var friend := ValidateRequest(users, bl, rows, requester, value).friend;
      CreateRequest(rows, next, requester, friend) == Success(rows + [Friendship(next, requester.id, friend.id, Pending)])
  {
  }
}
