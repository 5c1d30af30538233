/**
 The two read-only friend queries of controllers/user.js, up to the id
 list each computes before fetching the matching documents:
 `getAllMutualFriends` and `getAllFriendSuggestions`.

 `caller` is the record the authentication middleware attached to the
 request (`req.user`); other users are looked up in the store. In both
 handlers a failed lookup is not checked, so the following `.friends`
 dereferences null and the catch block answers with a ServerError.
 */
module Queries {
  import opened Arrays
  import opened Users

  /** `getAllMutualFriends`: the caller's friends that `otherId` also
      lists, in the caller's order. */
  function MutualFriends(caller: User, s: Store, otherId: Id): (r: Result<seq<Id>>)
    ensures otherId !in s ==> r == Err(ServerError)
    ensures otherId in s ==> r.Ok?
    // every element is in both lists, and every common friend is kept
    ensures otherId in s ==>
      forall x :: x in r.value <==> x in caller.friends && x in s[otherId].friends
    // as often as in the caller's list, and in the caller's order
    ensures otherId in s ==>
      forall x :: x in s[otherId].friends ==> multiset(r.value)[x] == multiset(caller.friends)[x]
    ensures otherId in s ==> IsSubsequence(r.value, caller.friends)
  {
    if otherId !in s then Err(ServerError)
    else
      var otherFriends := s[otherId].friends;
      Ok(Filter(caller.friends, x => x in otherFriends))
  }

  /** The friends list of every id in `ids`, fetched one at a time; any
      missing user aborts the whole computation. */
  function FriendLists(s: Store, ids: seq<Id>): (r: Result<seq<seq<Id>>>)
    ensures r.Ok? <==> forall i :: 0 <= i < |ids| ==> ids[i] in s
    ensures r.Err? ==> r.error == ServerError
    ensures r.Ok? ==> |r.value| == |ids|
    ensures r.Ok? ==> forall i :: 0 <= i < |ids| ==> r.value[i] == s[ids[i]].friends
    decreases |ids|
  {
    if |ids| == 0 then Ok([])
    else if ids[0] !in s then Err(ServerError)
    else
      match FriendLists(s, ids[1..])
      case Err(e) => Err(e)
      case Ok(rest) =>
        assert forall i :: 1 <= i < |ids| ==> ids[i] == ids[1..][i - 1];
        Ok([s[ids[0]].friends] + rest)
  }

  /** True iff some friend of the caller lists `y`. */
  ghost predicate FriendOfFriend(caller: User, s: Store, y: Id) {
    exists f :: f in caller.friends && f in s && y in s[f].friends
  }

  /** `getAllFriendSuggestions` before the `User.find` and the shuffle:
      the friends' friend lists concatenated, de-duplicated by first
      occurrence, and the caller's own id removed. Users who are already
      the caller's friends are NOT removed. */
  function SuggestionIds(caller: User, s: Store): (r: Result<seq<Id>>)
    ensures r.Ok? <==> forall f :: f in caller.friends ==> f in s
    ensures r.Err? ==> r.error == ServerError
    ensures r.Ok? ==> NoDuplicates(r.value) && caller.id !in r.value
    ensures r.Ok? ==> forall y :: y in r.value <==> y != caller.id && FriendOfFriend(caller, s, y)
  {
    match FriendLists(s, caller.friends)
    case Err(e) => Err(e)
    case Ok(lists) =>
      var unique := Dedup(Flatten(lists));
      var r := Filter(unique, id => id != caller.id);
      assert forall y :: y in Flatten(lists) <==> FriendOfFriend(caller, s, y) by {
        forall y
          ensures y in Flatten(lists) <==> FriendOfFriend(caller, s, y)
        {
          if y in Flatten(lists) {
            var i :| 0 <= i < |lists| && y in lists[i];
            assert caller.friends[i] in caller.friends;
          }
          if FriendOfFriend(caller, s, y) {
            var f :| f in caller.friends && f in s && y in s[f].friends;
            var i :| 0 <= i < |caller.friends| && caller.friends[i] == f;
            assert y in lists[i];
          }
        }
      }
      Ok(r)
  }
}
