/**
 The user records the friend workflow reads and writes, the store that
 holds them, and the replies a handler produces.

 A handler's `findById` is a lookup in the store and its `save()` writes
 the whole record back under the record's own id. Only the relationship
 fields of a user are kept: the lists of friends and of received friend
 requests, both JavaScript arrays and therefore ordered and possibly
 holding repeats.
 */
module Users {

  /** A user's id: the hex form of a document id; only equality is used. */
  type Id = string

  /** A user document, reduced to its id and relationship arrays. */
  datatype User = User(id: Id, friends: seq<Id>, requests: seq<Id>)

  /** The user collection: each record is filed under its own id. */
  type Store = s: map<Id, User> | forall k :: k in s ==> s[k].id == k
    witness map[]

  /** The errors a handler reports. */
  datatype Error =
    | NotFound      // the handler's explicit "User not found" reply (404)
    | ServerError   // an exception inside the handler's try block (500)
    | InvalidState  // produced only by the corrected workflow in `Intended`

  datatype Result<T> = Ok(value: T) | Err(error: Error)

  /** What a handler replies, together with the store after its saves.
      A handler that fails saves nothing, except a self-accept, whose
      first save lands before its second is rejected. */
  datatype Effect<T> = Effect(result: Result<T>, store: Store)

  /** The outcomes the friend-request handlers report on success. */
  datatype Outcome = AlreadyFriends | Cancelled | Sent | Accepted | Declined

  /** `user.save()`: the record replaces the stored one with the same id. */
  function Save(s: Store, u: User): (s': Store)
    ensures s'.Keys == s.Keys + {u.id}
    ensures s'[u.id] == u
    ensures forall k :: k in s && k != u.id ==> s'[k] == s[k]
  {
    s[u.id := u]
  }

  /** True iff `s'` has the same users as `s` and differs from it at most
      in the records of `a` and `b`. */
  predicate OnlyTouches(s: Store, s': Store, a: Id, b: Id) {
    s'.Keys == s.Keys && forall k :: k in s && k != a && k != b ==> s'[k] == s[k]
  }

  /** True iff `b` is listed among `a`'s friends, both being users. */
  predicate HasFriend(s: Store, a: Id, b: Id) {
    a in s && b in s && b in s[a].friends
  }

  /** Friendship is symmetric: whoever lists a friend is listed back. */
  ghost predicate SymmetricFriendship(s: Store) {
    forall a, b :: HasFriend(s, a, b) ==> HasFriend(s, b, a)
  }

  /** Nobody has a pending request from someone already in their friends. */
  ghost predicate NoRequestFromFriend(s: Store) {
    forall a, b :: a in s && b in s[a].requests ==> b !in s[a].friends
  }

  /** Nobody lists themselves as a friend. */
  ghost predicate NoSelfFriendship(s: Store) {
    forall a :: a in s ==> a !in s[a].friends
  }
}
