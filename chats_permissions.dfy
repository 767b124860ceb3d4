/** `IsParticipantInConversation` of backend/chats/permissions.py. The check
    is written for conversations; for any other object the method falls off
    its end and returns None, which the framework treats as a refusal. */
module ChatPermissions {
  import opened Common
  import opened ChatModels

  /** The objects a chat view may hand to the permission check. */
  datatype PermissionObject = ConversationObject(c: Conversation) | MessageObject(m: Message)

  /** `has_object_permission`: True or False for a conversation, None otherwise.
      A side cleared by a deleted user (None) matches nobody. */
  function HasObjectPermission(obj: PermissionObject, requester: Id): Option<bool> {
    match obj
    case ConversationObject(c) => Some(c.user1 == Some(requester) || c.user2 == Some(requester))
    case MessageObject(_) => None
  }

  /** DRF lets the request through only on a true value. */
  predicate Granted(r: Option<bool>) {
    r == Some(true)
  }

  /** A conversation admits exactly its two present participants; any other
      object admits nobody. */
  lemma PermissionMeaning(obj: PermissionObject, requester: Id)
    ensures Granted(HasObjectPermission(obj, requester)) <==>
      obj.ConversationObject? && (obj.c.user1 == Some(requester) || obj.c.user2 == Some(requester))
    ensures obj.MessageObject? ==> HasObjectPermission(obj, requester) == None
  {
  }

  /** After a participant's account is deleted their side is None, and no
      requester is admitted through it. */
  lemma DetachedSideAdmitsNobody(c: Conversation, requester: Id)
    requires c.user1 == None && c.user2 == None
    ensures !Granted(HasObjectPermission(ConversationObject(c), requester))
  {
  }
}
