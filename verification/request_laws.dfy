/**
 What the friend-request handlers guarantee across calls: which store
 invariants they keep, how the send-or-cancel toggle undoes itself, how
 the profile flags predict the toggle, and where the handlers' array
 edits break the relationship invariants a reader would expect.
 */
module RequestLaws {
  import opened Users
  import opened Requests

  // ---------------------------------------------------------------------
  // Send and cancel

  /** A send followed by the same send-or-cancel call restores the store
      exactly: the send appends the caller's id and the cancel's `pop`
      removes the last id, which is that one. */
  lemma SendThenCancelRestores(s: Store, me: Id, target: Id)
    requires Toggle(s, me, target).result == Ok(Sent)
    ensures Toggle(Toggle(s, me, target).store, me, target) == Effect(Ok(Cancelled), s)
  {
    var s1 := Toggle(s, me, target).store;
    var t := s[target];
    assert s1[target] == t.(requests := t.requests + [me]);
    assert (t.requests + [me])[..|t.requests|] == t.requests;
    assert s1[target := t] == s;
  }

  /** The cancel removes the target's last request, not the caller's: when
      the caller's request is followed by someone else's, the caller's
      stays pending and the other one is lost. */
  lemma CancelDropsLatestRequest(s: Store, me: Id, target: Id, later: Id)
    requires me in s && target in s
    requires target !in s[me].friends && me !in s[target].friends
    requires later != me
    requires s[target].requests == [me, later]
    ensures Toggle(s, me, target).result == Ok(Cancelled)
    ensures Toggle(s, me, target).store[target].requests == [me]
  {
    var r := Toggle(s, me, target);
    assert r.store[target].requests + [later] == [me, later];
  }

  // ---------------------------------------------------------------------
  // Invariants the handlers keep

  /** Sending or cancelling never touches a friends list, so friendship
      stays symmetric. */
  lemma ToggleKeepsSymmetry(s: Store, me: Id, target: Id)
    requires SymmetricFriendship(s)
    ensures SymmetricFriendship(Toggle(s, me, target).store)
  {
    var s' := Toggle(s, me, target).store;
    forall a, b | HasFriend(s', a, b)
      ensures HasFriend(s', b, a)
    {
      assert HasFriend(s, a, b);
    }
  }

  /** Declining never touches a friends list, so friendship stays
      symmetric. */
  lemma DeclineKeepsSymmetry(s: Store, me: Id, other: Id)
    requires SymmetricFriendship(s)
    ensures SymmetricFriendship(Decline(s, me, other).store)
  {
    var s' := Decline(s, me, other).store;
    forall a, b | HasFriend(s', a, b)
      ensures HasFriend(s', b, a)
    {
      assert HasFriend(s, a, b);
    }
  }

  /** Accepting adds the pair in both directions and keeps every old
      entry, so friendship stays symmetric. */
  lemma AcceptKeepsSymmetry(s: Store, me: Id, other: Id)
    requires SymmetricFriendship(s)
    ensures SymmetricFriendship(Accept(s, me, other).store)
  {
    var s' := Accept(s, me, other).store;
    forall a, b | HasFriend(s', a, b)
      ensures HasFriend(s', b, a)
    {
      if other in s && me in s {
        if (a == me && b == other) || (a == other && b == me) {
        } else {
          assert b in s[a].friends by {
            if a == me {
              assert s'[me].friends == s[me].friends + [other];
            } else if a == other {
              assert s'[other].friends == s[other].friends + [me];
            }
          }
          assert HasFriend(s, b, a);
        }
      }
    }
  }

  /** A send only happens between non-friends and a cancel only removes,
      so no user ends up with a pending request from a friend. */
  lemma ToggleKeepsNoRequestFromFriend(s: Store, me: Id, target: Id)
    requires NoRequestFromFriend(s)
    ensures NoRequestFromFriend(Toggle(s, me, target).store)
  {
    var s' := Toggle(s, me, target).store;
    forall a, b | a in s' && b in s'[a].requests
      ensures b !in s'[a].friends
    {
      if a == target && target in s && me in s && s' != s {
        var t := s[target];
        if me in t.requests {
          assert t.requests == s'[target].requests + [Last(t.requests)];
          assert b in t.requests;
        }
      }
    }
  }

  /** Declining only removes a request, so no user ends up with a pending
      request from a friend. */
  lemma DeclineKeepsNoRequestFromFriend(s: Store, me: Id, other: Id)
    requires NoRequestFromFriend(s)
    ensures NoRequestFromFriend(Decline(s, me, other).store)
  {
    var s' := Decline(s, me, other).store;
    forall a, b | a in s' && b in s'[a].requests
      ensures b !in s'[a].friends
    {
      if a == me && other in s && me in s {
        assert b in s[me].requests;
      }
    }
  }

  /** Accepting drops the accepter's FIRST request: when that came from
      someone else, the accepted user is a friend and still has a request
      pending, and the first requester's request is gone. */
  lemma AcceptCanLeaveRequestFromFriend(s: Store, me: Id, other: Id, first: Id)
    requires me in s && other in s && me != other
    requires s[me].requests == [first, other] && first != other
    ensures var s' := Accept(s, me, other).store;
      && other in s'[me].requests && other in s'[me].friends
      && first !in s'[me].requests
      && !NoRequestFromFriend(s')
  {
  }

  /** Declining drops the decliner's FIRST request: when that came from
      someone else, the declined request stays pending and the other one
      is gone. */
  lemma DeclineDropsFirstRequest(s: Store, me: Id, other: Id, first: Id)
    requires me in s && other in s
    requires s[me].requests == [first, other] && first != other
    ensures var s' := Decline(s, me, other).store;
      s'[me].requests == [other] && first !in s'[me].requests
  {
  }

  /** The send-or-cancel handler lets a user request themself, and accept
      then makes them their own friend, although it answers with a
      ServerError and leaves the request pending. */
  lemma SelfFriendshipReachable(s: Store, me: Id)
    requires me in s && me !in s[me].friends && me !in s[me].requests
    ensures Toggle(s, me, me).result == Ok(Sent)
    ensures Accept(Toggle(s, me, me).store, me, me).result == Err(ServerError)
    ensures me in Accept(Toggle(s, me, me).store, me, me).store[me].requests
    ensures me in Accept(Toggle(s, me, me).store, me, me).store[me].friends
    ensures !NoSelfFriendship(Accept(Toggle(s, me, me).store, me, me).store)
  {
  }

  /** Accept does not check for a pending request: accepting twice puts
      the other user into the friends list twice. */
  lemma AcceptTwiceDuplicatesFriend(s: Store, me: Id, other: Id)
    requires me in s && other in s && me != other
    ensures var s2 := Accept(Accept(s, me, other).store, me, other);
      && s2.result == Ok(Accepted)
      && multiset(s2.store[me].friends)[other] == multiset(s[me].friends)[other] + 2
  {
    var s1 := Accept(s, me, other).store;
    var s2 := Accept(s1, me, other).store;
    assert s2[me].friends == s[me].friends + [other] + [other];
  }

  // ---------------------------------------------------------------------
  // Profile flags

  /** The profile flags decide the toggle: the viewed user listing `me`
      (or `me` listing them) means "Already friends", otherwise a pending
      request means a cancel, and otherwise a send. */
  lemma ToggleDecidedByProfile(s: Store, me: Id, target: Id)
    requires me in s && target in s
    ensures ProfileFlags(s, me, target).Ok?
    ensures var f := ProfileFlags(s, me, target).value;
      Toggle(s, me, target).result ==
        Ok(if f.isFriend || target in s[me].friends then AlreadyFriends
           else if f.isRequested then Cancelled
           else Sent)
  {
  }

  /** After a send, the target's profile shows `me` as requested and not
      as a friend. */
  lemma ProfileAfterSend(s: Store, me: Id, target: Id)
    requires Toggle(s, me, target).result == Ok(Sent)
    ensures ProfileFlags(Toggle(s, me, target).store, me, target) == Ok(Flags(false, true))
  {
  }

  /** After an accept, each of the two profiles shows the other as a
      friend. */
  lemma ProfileAfterAccept(s: Store, me: Id, other: Id)
    requires me in s && other in s
    ensures var s' := Accept(s, me, other).store;
      && ProfileFlags(s', me, other).Ok? && ProfileFlags(s', me, other).value.isFriend
      && ProfileFlags(s', other, me).Ok? && ProfileFlags(s', other, me).value.isFriend
  {
  }

  // ---------------------------------------------------------------------
  // A whole exchange

  /** A send to a user with no requests, accepted by them, makes the two
      friends and leaves the accepter with no request. */
  lemma SendThenAccept(s: Store, a: Id, b: Id)
    requires a in s && b in s && a != b
    requires s[a].friends == [] && s[b].friends == [] && s[b].requests == []
    ensures Toggle(s, a, b).result == Ok(Sent)
    ensures var e := Accept(Toggle(s, a, b).store, b, a);
      && e.result == Ok(Accepted)
      && OnlyTouches(s, e.store, a, b)
      && e.store[a].friends == [b] && e.store[b].friends == [a]
      && e.store[b].requests == []
  {
    var s1 := Toggle(s, a, b).store;
    assert s1[b] == s[b].(requests := [a]) && s1[a] == s[a];
    assert OnlyTouches(s, s1, b, b);
    var s2 := Accept(s1, b, a).store;
    assert OnlyTouches(s1, s2, b, a);
    assert s2[b].requests == [a][1..] == [];
  }

  /** A send to a user with no requests, declined by them, leaves them with
      no request and changes nobody else. */
  lemma SendThenDecline(s: Store, a: Id, c: Id)
    requires a in s && c in s && a != c
    requires c !in s[a].friends && s[c].friends == [] && s[c].requests == []
    ensures Toggle(s, a, c).result == Ok(Sent)
    ensures var e := Decline(Toggle(s, a, c).store, c, a);
      && e.result == Ok(Declined)
      && OnlyTouches(s, e.store, c, c)
      && e.store[c].friends == [] && e.store[c].requests == []
  {
    var s1 := Toggle(s, a, c).store;
    assert s1[c].requests == [a];
  }

  /** Between three fresh users: `a` sends to `b`, `b` accepts, `a` sends
      to `c`, `c` declines. Afterwards `a` and `b` are friends with no
      requests left, and `c` has no request and no friendship with `a`. */
  lemma SendAcceptSendDecline(s: Store, a: Id, b: Id, c: Id)
    requires a in s && b in s && c in s
    requires a != b && b != c && a != c
    requires s[a].friends == [] && s[b].friends == [] && s[c].friends == []
    requires s[b].requests == [] && s[c].requests == []
    ensures var e1 := Toggle(s, a, b);
      var e2 := Accept(e1.store, b, a);
      var e3 := Toggle(e2.store, a, c);
      var e4 := Decline(e3.store, c, a);
      && e1.result == Ok(Sent) && e2.result == Ok(Accepted)
      && e3.result == Ok(Sent) && e4.result == Ok(Declined)
      && e4.store[a].friends == [b] && e4.store[b].friends == [a]
      && e4.store[b].requests == [] && e4.store[c].requests == []
      && e4.store[c].friends == []
  {
    SendThenAccept(s, a, b);
    var s2 := Accept(Toggle(s, a, b).store, b, a).store;
    assert s2[c] == s[c] && s2[a].friends == [b];
    SendThenDecline(s2, a, c);
  }
}
