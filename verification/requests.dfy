/**
 The friend-request handlers of controllers/user.js as pure transitions
 of the user store: send-or-cancel (`friendRequestHandler`), accept
 (`friendRequestAccepted`), decline (`friendRequestDeclined`), and the
 two relationship flags of `getUserProfile`.

 `me` is the id of the authenticated caller (`req.user._id`) and the
 other id comes from the route parameter. Each handler looks both users
 up; a missing target is answered with NotFound, while a missing caller
 record makes the handler dereference null, which its catch block turns
 into a ServerError. The array edits are exactly the ones the handlers
 perform, quirks included:
 - a cancel calls `requests.pop(id)`, which ignores its argument and
   drops the LAST pending request;
 - accept and decline call `requests.splice(index._id, 1)` where `index`
   is a number, so the start is `undefined`, i.e. 0, and the FIRST pending
   request is dropped, whoever sent it;
 - accept appends to both friend lists without checking that a request
   was pending or that the two were not friends already;
 - a self-accept loads one record as two documents. The first save pushes
   onto `friends` and bumps the document version. The second save also
   replaces the spliced `requests`, so its update is filtered on the
   version it loaded, matches nothing, and is rejected with a version
   error. The catch block answers with a ServerError, and only the first
   save is kept.
 */
module Requests {
  import opened Arrays
  import opened Users

  /** The "already friends" test of the send-or-cancel handler: either
      user lists the other. */
  predicate EitherLists(l: User, t: User) {
    t.id in l.friends || l.id in t.friends
  }

  /** `friendRequestHandler`: `me` asks to connect with `target`. */
  function Toggle(s: Store, me: Id, target: Id): (r: Effect<Outcome>)
    // a missing target: NotFound, nothing saved
    ensures target !in s ==> r == Effect(Err(NotFound), s)
    // a missing caller record: the handler throws, nothing saved
    ensures target in s && me !in s ==> r == Effect(Err(ServerError), s)
    // the friends test comes first and saves nothing
    ensures target in s && me in s && (target in s[me].friends || me in s[target].friends)
            ==> r == Effect(Ok(AlreadyFriends), s)
    // otherwise, a pending request from `me`: the target's LAST request goes
    ensures target in s && me in s && !(target in s[me].friends || me in s[target].friends)
            && me in s[target].requests
            ==> && r.result == Ok(Cancelled)
                && OnlyTouches(s, r.store, target, target)
                && r.store[target].friends == s[target].friends
                && |r.store[target].requests| == |s[target].requests| - 1
                && r.store[target].requests + [Last(s[target].requests)] == s[target].requests
    // otherwise: `me` is appended to the target's requests
    ensures target in s && me in s && !(target in s[me].friends || me in s[target].friends)
            && me !in s[target].requests
            ==> && r.result == Ok(Sent)
                && OnlyTouches(s, r.store, target, target)
                && r.store[target].friends == s[target].friends
                && r.store[target].requests == s[target].requests + [me]
    // whatever happens, nobody's friends change
    ensures forall k :: k in s ==> k in r.store && r.store[k].friends == s[k].friends
  {
    if target !in s then Effect(Err(NotFound), s)
    else if me !in s then Effect(Err(ServerError), s)
    else
      var t := s[target];
      var l := s[me];
      if EitherLists(l, t) then Effect(Ok(AlreadyFriends), s)
      else if l.id in t.requests then
        Effect(Ok(Cancelled), Save(s, t.(requests := Pop(t.requests))))
      else
        Effect(Ok(Sent), Save(s, t.(requests := t.requests + [l.id])))
  }

  /** The last element of a non-empty list. */
  function Last(xs: seq<Id>): Id
    requires |xs| > 0
  {
    xs[|xs| - 1]
  }

  /** The request list after `splice(index._id, 1)`: `index` is the number
      `indexOf` returned, its `_id` is undefined, and the splice starts at 0. */
  function DropRequestAtUndefined(requests: seq<Id>): (r: seq<Id>)
    ensures |requests| > 0 ==> r == requests[1..]
    ensures |requests| == 0 ==> r == requests
  {
    SpliceOne(requests, UndefinedAsStart)
  }

  /** `friendRequestAccepted`: `me` accepts `other`. */
  function Accept(s: Store, me: Id, other: Id): (r: Effect<Outcome>)
    ensures other !in s ==> r == Effect(Err(NotFound), s)
    ensures other in s && me !in s ==> r == Effect(Err(ServerError), s)
    ensures r.store.Keys == s.Keys
    // whenever both users exist, each is now listed among the other's friends
    ensures other in s && me in s ==>
      other in r.store[me].friends && me in r.store[other].friends
    ensures other in s && me in s && me != other ==>
      && r.result == Ok(Accepted)
      && OnlyTouches(s, r.store, me, other)
      // each friend list grew by exactly the other id
      && r.store[me].friends == s[me].friends + [other]
      && r.store[other].friends == s[other].friends + [me]
      // the accepter loses its FIRST pending request, whoever sent it
      && r.store[me].requests == (if |s[me].requests| > 0 then s[me].requests[1..] else s[me].requests)
      && r.store[other].requests == s[other].requests
    // a self-accept: the first save lands, the second is rejected
    ensures me in s && me == other ==>
      && r.result == Err(ServerError)
      && OnlyTouches(s, r.store, me, me)
      && r.store[me].friends == s[me].friends + [me]
      && r.store[me].requests == s[me].requests
  {
    if other !in s then Effect(Err(NotFound), s)
    else if me !in s then Effect(Err(ServerError), s)
    else
      var a := s[other];
      var l := s[me];
      var a' := a.(friends := a.friends + [l.id]);
      // userToAccept is saved first, loggedInUser second
      if me == other then
        // the second save carries a stale version and is rejected
        Effect(Err(ServerError), Save(s, a'))
      else
        var l' := l.(friends := l.friends + [a.id], requests := DropRequestAtUndefined(l.requests));
        Effect(Ok(Accepted), Save(Save(s, a'), l'))
  }

  /** `friendRequestDeclined`: `me` declines `other`. */
  function Decline(s: Store, me: Id, other: Id): (r: Effect<Outcome>)
    ensures other !in s ==> r == Effect(Err(NotFound), s)
    ensures other in s && me !in s ==> r == Effect(Err(ServerError), s)
    ensures other in s && me in s ==>
      && r.result == Ok(Declined)
      && OnlyTouches(s, r.store, me, me)
      && r.store[me].friends == s[me].friends
      // the decliner loses its FIRST pending request, whoever sent it
      && r.store[me].requests == (if |s[me].requests| > 0 then s[me].requests[1..] else s[me].requests)
    ensures forall k :: k in s ==> k in r.store && r.store[k].friends == s[k].friends
  {
    if other !in s then Effect(Err(NotFound), s)
    else if me !in s then Effect(Err(ServerError), s)
    else
      var l := s[me];
      // the second save, of the unmodified userToDecline, writes nothing
      Effect(Ok(Declined), Save(s, l.(requests := DropRequestAtUndefined(l.requests))))
  }

  /** The `isFriend` and `isRequested` flags of a profile reply. */
  datatype Flags = Flags(isFriend: bool, isRequested: bool)

  /** `getUserProfile` as seen by `me`, reduced to its two flags: whether
      the viewed user lists `me` as a friend, and whether `me` has a
      request pending with them. */
  function ProfileFlags(s: Store, me: Id, id: Id): (r: Result<Flags>)
    ensures r.Err? <==> id !in s
    ensures r.Err? ==> r.error == NotFound
    ensures r.Ok? ==> (r.value.isFriend <==> me in s[id].friends)
    ensures r.Ok? ==> (r.value.isRequested <==> me in s[id].requests)
  {
    if id !in s then Err(NotFound)
    else Ok(Flags(me in s[id].friends, me in s[id].requests))
  }
}
