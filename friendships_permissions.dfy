/** `IsFriendshipParticipant` of backend/friendships/permissions.py: the
    object-level permission every view on a single friendship checks. */
module FriendshipPermissions {
  import opened Common
  import opened FriendshipModels

  /** `has_object_permission`: the requester is one of the two users. */
  predicate HasObjectPermission(f: Friendship, requester: Id) {
    f.user1 == requester || f.user2 == requester
  }

  /** Both participants are let in, whichever of them sent the request. */
  lemma ParticipantsPermitted(f: Friendship)
    ensures HasObjectPermission(f, f.user1) && HasObjectPermission(f, f.user2)
  {
  }

  /** Everybody else is refused. */
  lemma OthersDenied(f: Friendship, requester: Id)
    ensures requester != f.user1 && requester != f.user2 <==> !HasObjectPermission(f, requester)
  {
  }

  /** The decision reads the two participants only: neither the status nor
      the key of the row matters. */
  lemma DecisionIgnoresStatus(f: Friendship, s: FriendshipStatus, id: Id, requester: Id)
    ensures HasObjectPermission(f.(status := s, id := id), requester) == HasObjectPermission(f, requester)
  {
  }
}
