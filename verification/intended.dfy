/**
 The friend workflow as its authors evidently meant it, kept apart from
 the model of what controllers/user.js does. The handlers here remove the
 id they are about (not the last or the first pending request), refuse a
 request to oneself, refuse to accept a request that is not pending, and
 the suggestions leave out users who are already friends. None of this
 is what the deployed code does; see the as-written model in `Requests`
 and `Queries`.
 */
module Intended {
  import opened Arrays
  import opened Users
  import Requests
  import Queries

  /** The list without any occurrence of `v`. */
  function Without(xs: seq<Id>, v: Id): (r: seq<Id>)
    ensures v !in r
    ensures forall x :: x != v ==> multiset(r)[x] == multiset(xs)[x]
    ensures forall x :: x in r <==> x in xs && x != v
  {
    Filter(xs, x => x != v)
  }

  /** The relationship invariants of a user store: symmetric friendship,
      nobody their own friend, no pending request from a friend. */
  ghost predicate Consistent(s: Store) {
    SymmetricFriendship(s) && NoSelfFriendship(s) && NoRequestFromFriend(s)
  }

  /** Send-or-cancel, corrected: a cancel removes the caller's request and
      nobody else's, and a request to oneself is refused. */
  function Toggle(s: Store, me: Id, target: Id): (r: Effect<Outcome>)
    ensures target !in s ==> r == Effect(Err(NotFound), s)
    ensures target in s && me !in s ==> r == Effect(Err(ServerError), s)
    ensures target in s && me == target ==> r == Effect(Err(InvalidState), s)
    ensures target in s && me in s && me != target && Requests.EitherLists(s[me], s[target])
            ==> r == Effect(Ok(AlreadyFriends), s)
    ensures target in s && me in s && me != target && !Requests.EitherLists(s[me], s[target])
            ==> r.result == (if me in s[target].requests then Ok(Cancelled) else Ok(Sent))
    ensures r.result == Ok(Sent) ==>
      && OnlyTouches(s, r.store, target, target)
      && r.store[target].requests == s[target].requests + [me]
    ensures r.result == Ok(Cancelled) ==>
      && OnlyTouches(s, r.store, target, target)
      && me !in r.store[target].requests
      && r.store[target].friends == s[target].friends
      && forall x :: x != me ==> multiset(r.store[target].requests)[x] == multiset(s[target].requests)[x]
    ensures forall k :: k in s ==> k in r.store && r.store[k].friends == s[k].friends
  {
    if target !in s then Effect(Err(NotFound), s)
    else if me !in s then Effect(Err(ServerError), s)
    else if me == target then Effect(Err(InvalidState), s)
    else
      var t := s[target];
      var l := s[me];
      if Requests.EitherLists(l, t) then Effect(Ok(AlreadyFriends), s)
      else if me in t.requests then
        Effect(Ok(Cancelled), Save(s, t.(requests := Without(t.requests, me))))
      else
        Effect(Ok(Sent), Save(s, t.(requests := t.requests + [me])))
  }

  /** Accept, corrected: only a pending request can be accepted; the pair
      become friends and neither keeps a request from the other. */
  function Accept(s: Store, me: Id, other: Id): (r: Effect<Outcome>)
    ensures other in s && me in s && me != other && other in s[me].requests
            ==> r.result == Ok(Accepted)
    ensures other !in s ==> r == Effect(Err(NotFound), s)
    ensures other in s && me !in s ==> r == Effect(Err(ServerError), s)
    ensures other in s && me in s && (me == other || other !in s[me].requests)
            ==> r == Effect(Err(InvalidState), s)
    ensures r.result.Ok? ==>
      && r.result.value == Accepted
      && OnlyTouches(s, r.store, me, other)
      && r.store[me].friends == s[me].friends + [other]
      && r.store[other].friends == s[other].friends + [me]
      && other !in r.store[me].requests && me !in r.store[other].requests
      // every other pending request is kept, as often as it was pending
      && (forall x :: x != other ==> multiset(r.store[me].requests)[x] == multiset(s[me].requests)[x])
      && (forall x :: x != me ==> multiset(r.store[other].requests)[x] == multiset(s[other].requests)[x])
  {
    if other !in s then Effect(Err(NotFound), s)
    else if me !in s then Effect(Err(ServerError), s)
    else if me == other || other !in s[me].requests then Effect(Err(InvalidState), s)
    else
      var a := s[other];
      var l := s[me];
      var a' := a.(friends := a.friends + [me], requests := Without(a.requests, me));
      var l' := l.(friends := l.friends + [other], requests := Without(l.requests, other));
      var s1 := Save(s, a');
      var s' := Save(s1, l');
      assert s'.Keys == s.Keys;
      assert s'[me] == l' && s'[other] == a';
      assert forall k :: k in s && k != me && k != other ==> s'[k] == s1[k] == s[k];
      Effect(Ok(Accepted), s')
  }

  /** Decline, corrected: removes the declined user's request, if any, and
      nothing else. */
  function Decline(s: Store, me: Id, other: Id): (r: Effect<Outcome>)
    ensures other !in s ==> r == Effect(Err(NotFound), s)
    ensures other in s && me !in s ==> r == Effect(Err(ServerError), s)
    ensures other in s && me in s ==>
      && r.result == Ok(Declined)
      && OnlyTouches(s, r.store, me, me)
      && other !in r.store[me].requests
      && forall x :: x != other ==> multiset(r.store[me].requests)[x] == multiset(s[me].requests)[x]
    ensures forall k :: k in s ==> k in r.store && r.store[k].friends == s[k].friends
  {
    if other !in s then Effect(Err(NotFound), s)
    else if me !in s then Effect(Err(ServerError), s)
    else
      var l := s[me];
      var l' := l.(requests := Without(l.requests, other));
      var s' := Save(s, l');
      assert s'.Keys == s.Keys && s'[me] == l';
      Effect(Ok(Declined), s')
  }

  /** Suggestions, corrected: friends-of-friends who are neither the caller
      nor already the caller's friends. */
  function SuggestionIds(caller: User, s: Store): (r: Result<seq<Id>>)
    ensures r.Ok? <==> forall f :: f in caller.friends ==> f in s
    ensures r.Ok? ==> NoDuplicates(r.value)
    ensures r.Ok? ==> forall y :: y in r.value <==>
      y != caller.id && y !in caller.friends && Queries.FriendOfFriend(caller, s, y)
  {
    match Queries.SuggestionIds(caller, s)
    case Err(e) => Err(e)
    case Ok(ids) => Ok(Filter(ids, id => id !in caller.friends))
  }

  // ---------------------------------------------------------------------
  // What the corrections buy

  /** The corrected send-or-cancel keeps the store consistent. */
  lemma ToggleKeepsConsistent(s: Store, me: Id, target: Id)
    requires Consistent(s)
    ensures Consistent(Toggle(s, me, target).store)
  {
    var s' := Toggle(s, me, target).store;
    forall a, b | HasFriend(s', a, b)
      ensures HasFriend(s', b, a)
    {
      assert HasFriend(s, a, b);
    }
    forall a, b | a in s' && b in s'[a].requests
      ensures b !in s'[a].friends
    {
      if a == target && target in s && me in s && me != target {
        var t := s[target];
        if b in t.requests {
        } else {
          assert b == me;
        }
      }
    }
  }

  /** The corrected accept keeps the store consistent. */
  lemma AcceptKeepsConsistent(s: Store, me: Id, other: Id)
    requires Consistent(s)
    ensures Consistent(Accept(s, me, other).store)
  {
    var r := Accept(s, me, other);
    if r.result.Ok? {
      var s' := r.store;
      assert forall x :: x in s'[me].requests ==> x in s[me].requests && x != other by {
        forall x | x in s'[me].requests
          ensures x in s[me].requests && x != other
        {
          assert multiset(s'[me].requests)[x] > 0;
        }
      }
      assert forall x :: x in s'[other].requests ==> x in s[other].requests && x != me by {
        forall x | x in s'[other].requests
          ensures x in s[other].requests && x != me
        {
          assert multiset(s'[other].requests)[x] > 0;
        }
      }
      PairBecomesFriends(s, s', me, other);
    }
  }

  /** Making two distinct users friends, dropping their requests from each
      other and adding none keeps a consistent store consistent. */
  lemma PairBecomesFriends(s: Store, s': Store, me: Id, other: Id)
    requires Consistent(s)
    requires me in s && other in s && me != other
    requires OnlyTouches(s, s', me, other)
    requires s'[me].friends == s[me].friends + [other]
    requires s'[other].friends == s[other].friends + [me]
    requires forall x :: x in s'[me].requests ==> x in s[me].requests && x != other
    requires forall x :: x in s'[other].requests ==> x in s[other].requests && x != me
    ensures Consistent(s')
  {
    forall a, b | HasFriend(s', a, b)
      ensures HasFriend(s', b, a)
    {
      if (a == me && b == other) || (a == other && b == me) {
      } else {
        assert b in s[a].friends;
        assert HasFriend(s, b, a);
      }
    }
    forall a, b | a in s' && b in s'[a].requests
      ensures b !in s'[a].friends
    {
      if a == me {
        assert b in s[me].requests;
      } else if a == other {
        assert b in s[other].requests;
      }
    }
  }

  /** The corrected decline keeps the store consistent. */
  lemma DeclineKeepsConsistent(s: Store, me: Id, other: Id)
    requires Consistent(s)
    ensures Consistent(Decline(s, me, other).store)
  {
    var s' := Decline(s, me, other).store;
    forall a, b | HasFriend(s', a, b)
      ensures HasFriend(s', b, a)
    {
      assert HasFriend(s, a, b);
    }
    forall a, b | a in s' && b in s'[a].requests
      ensures b !in s'[a].friends
    {
      if a == me && other in s && me in s {
        assert b in s[me].requests;
      }
    }
  }

  /** Accepting the same user twice is refused the second time. */
  lemma AcceptTwiceRefused(s: Store, me: Id, other: Id)
    requires me in s && other in s && me != other && other in s[me].requests
    ensures Accept(s, me, other).result == Ok(Accepted)
    ensures Accept(Accept(s, me, other).store, me, other).result == Err(InvalidState)
  {
  }

  /** A send followed by a cancel restores the store exactly. */
  lemma SendThenCancelRestores(s: Store, me: Id, target: Id)
    requires Toggle(s, me, target).result == Ok(Sent)
    ensures Toggle(Toggle(s, me, target).store, me, target) == Effect(Ok(Cancelled), s)
  {
    SentStore(s, me, target);
    var t := s[target];
    var t1 := t.(requests := t.requests + [me]);
    var s1 := Save(s, t1);
    assert s1[me] == s[me] && s1[target] == t1;
    CancelStore(s1, me, target);
    FilterDropsLast(t.requests, me);
    assert t1.(requests := Without(t1.requests, me)) == t;
    assert Save(s1, t) == s;
  }

  /** When the caller's request is pending with a distinct non-friend, the
      corrected toggle cancels it by removing the caller from the target's
      requests. */
  lemma CancelStore(s: Store, me: Id, target: Id)
    requires me in s && target in s && me != target
    requires !Requests.EitherLists(s[me], s[target]) && me in s[target].requests
    ensures Toggle(s, me, target)
      == Effect(Ok(Cancelled), Save(s, s[target].(requests := Without(s[target].requests, me))))
  {
  }

  /** When the corrected toggle sends, the two users are distinct
      non-friends, no request from the caller was pending, and the caller
      is appended to the target's requests. */
  lemma SentStore(s: Store, me: Id, target: Id)
    requires Toggle(s, me, target).result == Ok(Sent)
    ensures me in s && target in s && me != target
    ensures !Requests.EitherLists(s[me], s[target]) && me !in s[target].requests
    ensures Toggle(s, me, target).store == Save(s, s[target].(requests := s[target].requests + [me]))
  {
  }

  /** Removing `v` from a list that ends in `v` and holds it nowhere else
      gives the list without its last element. */
  lemma FilterDropsLast(xs: seq<Id>, v: Id)
    requires v !in xs
    ensures Without(xs + [v], v) == xs
  {
    var r := Without(xs + [v], v);
    assert forall x :: multiset(r)[x] == multiset(xs)[x];
    assert multiset(r) == multiset(xs);
    assert IsSubsequence(r, xs + [v]);
    SubsequenceWithoutLast(r, xs, v);
  }

  /** A subsequence of `xs + [v]` that leaves out `v` and has as many
      elements as `xs` is `xs`. */
  lemma {:induction false} SubsequenceWithoutLast(r: seq<Id>, xs: seq<Id>, v: Id)
    requires IsSubsequence(r, xs + [v]) && v !in r && |r| == |xs|
    ensures r == xs
    decreases |xs|
  {
    if |xs| > 0 {
      assert (xs + [v])[1..] == xs[1..] + [v];
      if r[0] == xs[0] {
        SubsequenceWithoutLast(r[1..], xs[1..], v);
      } else {
        SubsequenceAvoidingLast(r, xs[1..], v);
        assert false;
      }
    }
  }

  /** A subsequence of `xs + [v]` that leaves out `v` is no longer than
      `xs`. */
  lemma {:induction false} SubsequenceAvoidingLast(r: seq<Id>, xs: seq<Id>, v: Id)
    requires IsSubsequence(r, xs + [v]) && v !in r
    ensures |r| <= |xs|
    decreases |xs|
  {
    if |r| > 0 && |xs| > 0 {
      assert (xs + [v])[1..] == xs[1..] + [v];
      if r[0] == xs[0] {
        SubsequenceAvoidingLast(r[1..], xs[1..], v);
      } else {
        SubsequenceAvoidingLast(r, xs[1..], v);
      }
    }
  }
}
