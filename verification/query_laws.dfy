/**
 What the two friend queries guarantee beyond a single call: mutual
 friends commute as a set (not as a list), and the suggestion list keeps
 the order in which friends-of-friends are first met while still
 offering users who are already friends.
 */
module QueryLaws {
  import opened Arrays
  import opened Users
  import opened Queries

  /** The mutual friends of `a` and `b` are those of `b` and `a`, as sets. */
  lemma MutualFriendsCommuteAsSets(s: Store, a: Id, b: Id)
    requires a in s && b in s
    ensures MutualFriends(s[a], s, b).Ok? && MutualFriends(s[b], s, a).Ok?
    ensures Elements(MutualFriends(s[a], s, b).value) == Elements(MutualFriends(s[b], s, a).value)
  {
  }

  /** As lists they need not commute: each side keeps its own order. */
  lemma MutualFriendsOrderFollowsCaller(s: Store, a: Id, b: Id, x: Id, y: Id)
    requires a in s && b in s && x != y
    requires s[a].friends == [x, y] && s[b].friends == [y, x]
    ensures MutualFriends(s[a], s, b) == Ok([x, y])
    ensures MutualFriends(s[b], s, a) == Ok([y, x])
  {
    var ya := s[a].friends;
    var yb := s[b].friends;
    FilterKeepingAll(ya, z => z in yb);
    FilterKeepingAll(yb, z => z in ya);
  }

  /** Two users whose only friend is the same third user have exactly that
      user in common. */
  lemma SingleCommonFriend(s: Store, a: Id, b: Id, c: Id)
    requires a in s && b in s
    requires s[a].friends == [c] && s[b].friends == [c]
    ensures MutualFriends(s[a], s, b) == Ok([c])
  {
    var yb := s[b].friends;
    FilterKeepingAll(s[a].friends, z => z in yb);
  }

  /** A subsequence of a list ordered by first occurrence in `xs` is
      ordered by first occurrence in `xs` too. */
  lemma {:induction false} SubsequenceKeepsOrder<T>(a: seq<T>, b: seq<T>, xs: seq<T>)
    requires IsSubsequence(a, b)
    requires InFirstOccurrenceOrder(b, xs)
    ensures InFirstOccurrenceOrder(a, xs)
    decreases |b|
  {
    if |a| > 0 && |b| > 0 {
      assert InFirstOccurrenceOrder(b[1..], xs) by {
        forall i, j | 0 <= i < j < |b[1..]|
          ensures IndexOf(xs, b[1..][i]) < IndexOf(xs, b[1..][j])
        {
          assert b[1..][i] == b[i + 1] && b[1..][j] == b[j + 1];
        }
      }
      if a[0] == b[0] {
        SubsequenceKeepsOrder(a[1..], b[1..], xs);
        SubsequenceElements(a[1..], b[1..]);
        forall j | 0 < j < |a|
          ensures IndexOf(xs, a[0]) < IndexOf(xs, a[j])
        {
          assert a[j] == a[1..][j - 1];
          assert a[j] in a[1..];
          var k :| 0 <= k < |b[1..]| && b[1..][k] == a[j];
          assert b[k + 1] == a[j];
        }
        forall i, j | 0 < i < j < |a|
          ensures IndexOf(xs, a[i]) < IndexOf(xs, a[j])
        {
          assert a[i] == a[1..][i - 1] && a[j] == a[1..][j - 1];
        }
      } else {
        SubsequenceKeepsOrder(a, b[1..], xs);
      }
    }
  }

  /** Every value of a subsequence occurs in the longer list. */
  lemma {:induction false} SubsequenceElements<T>(a: seq<T>, b: seq<T>)
    requires IsSubsequence(a, b)
    ensures forall x :: x in a ==> x in b
    decreases |b|
  {
    if |a| > 0 && |b| > 0 {
      if a[0] == b[0] {
        SubsequenceElements(a[1..], b[1..]);
        assert a == [a[0]] + a[1..];
        assert b == [b[0]] + b[1..];
      } else {
        SubsequenceElements(a, b[1..]);
        assert b == [b[0]] + b[1..];
      }
    }
  }

  /** The suggestions appear in the order in which each was first met while
      walking the friends' friend lists one after the other. */
  lemma SuggestionsInFirstOccurrenceOrder(caller: User, s: Store)
    requires forall f :: f in caller.friends ==> f in s
    ensures SuggestionIds(caller, s).Ok? && FriendLists(s, caller.friends).Ok?
    ensures InFirstOccurrenceOrder(SuggestionIds(caller, s).value,
                                   Flatten(FriendLists(s, caller.friends).value))
  {
    var all := Flatten(FriendLists(s, caller.friends).value);
    DedupKeepsFirstOccurrenceOrder(all);
    SubsequenceKeepsOrder(SuggestionIds(caller, s).value, Dedup(all), all);
  }

  /** Users who are already the caller's friends are still suggested when
      another friend lists them. */
  lemma SuggestionsIncludeFriends(caller: User, s: Store, f: Id, g: Id)
    requires forall h :: h in caller.friends ==> h in s
    requires f in caller.friends && g in caller.friends && g in s[f].friends
    requires g != caller.id
    ensures SuggestionIds(caller, s).Ok? && g in SuggestionIds(caller, s).value
  {
  }
}
