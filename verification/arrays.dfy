/**
 The JavaScript array operations the friend workflow relies on, over
 immutable sequences: `indexOf`, `pop`, `splice(start, 1)`, `filter`,
 `[].concat.apply([], lists)` and the first-occurrence de-duplication loop.
 Each is written to follow the ECMAScript algorithm, including the
 behaviour on arguments the callers did not mean to pass.
 */
module Arrays {

  /** True iff no value occurs twice in `xs`. */
  predicate NoDuplicates<T(==)>(xs: seq<T>) {
    forall i, j :: 0 <= i < j < |xs| ==> xs[i] != xs[j]
  }

  /** The set of values occurring in `xs`. */
  function Elements<T>(xs: seq<T>): set<T> {
    set x | x in xs
  }

  /** True iff `small` can be obtained from `big` by deleting elements,
      keeping the relative order of the rest. */
  predicate IsSubsequence<T(==)>(small: seq<T>, big: seq<T>)
    decreases |big|
  {
    if |small| == 0 then true
    else if |big| == 0 then false
    else if small[0] == big[0] then IsSubsequence(small[1..], big[1..])
    else IsSubsequence(small, big[1..])
  }

  /** `Array.prototype.indexOf`: the first position of `x`, or -1. */
  function IndexOf<T(==)>(xs: seq<T>, x: T): (i: int)
    ensures -1 <= i < |xs|
    ensures i == -1 <==> x !in xs
    ensures 0 <= i ==> xs[i] == x && x !in xs[..i]
  {
    if |xs| == 0 then -1
    else if xs[0] == x then 0
    else
      var j := IndexOf(xs[1..], x);
      if j == -1 then -1 else j + 1
  }

  /** `Array.prototype.pop`. It takes no argument: whatever is passed is
      ignored, and the LAST element is removed (an empty array is left
      as it is). */
  function Pop<T>(xs: seq<T>): (r: seq<T>)
    ensures |xs| > 0 ==> r + [xs[|xs| - 1]] == xs
    ensures |xs| == 0 ==> r == []
  {
    if |xs| == 0 then xs else xs[..|xs| - 1]
  }

  /** The start position `splice` actually uses for an integer argument
      on an array of length `len` (ECMAScript's relative-start clamping:
      a negative start counts from the end). */
  function SpliceStart(len: nat, start: int): (k: nat)
    ensures k <= len
    ensures 0 <= start <= len ==> k == start
    ensures start < 0 && len + start >= 0 ==> k == len + start
    ensures start < 0 && len + start < 0 ==> k == 0
    ensures start > len ==> k == len
  {
    if start < 0 then (if len + start < 0 then 0 else len + start)
    else if start < len then start
    else len
  }

  /** `ToIntegerOrInfinity(undefined)`: `undefined` converts to NaN, which
      converts to 0. This is the start `splice(index._id, 1)` receives
      when `index` is a number. */
  const UndefinedAsStart: int := 0

  /** `Array.prototype.splice(start, 1)`: removes the one element at the
      clamped start position, if there is one there. */
  function SpliceOne<T>(xs: seq<T>, start: int): (r: seq<T>)
    ensures var k := SpliceStart(|xs|, start);
      if k < |xs| then |r| == |xs| - 1 && r[..k] == xs[..k] && r[k..] == xs[k + 1..]
      else r == xs
  {
    var k := SpliceStart(|xs|, start);
    if k < |xs| then xs[..k] + xs[k + 1..] else xs
  }

  /** `Array.prototype.filter` with a total predicate. */
  function Filter<T(==,!new)>(xs: seq<T>, keep: T -> bool): (r: seq<T>)
    ensures forall x :: multiset(r)[x] == if keep(x) then multiset(xs)[x] else 0
    ensures forall x :: x in r <==> x in xs && keep(x)
    ensures IsSubsequence(r, xs)
    ensures NoDuplicates(xs) ==> NoDuplicates(r)
    decreases |xs|
  {
    if |xs| == 0 then []
    else
      var rest := Filter(xs[1..], keep);
      assert xs == [xs[0]] + xs[1..];
      assert NoDuplicates(xs) ==> NoDuplicates(xs[1..]);
      if keep(xs[0]) then
        var r := [xs[0]] + rest;
        assert r[0] == xs[0] && r[1..] == rest;
        assert NoDuplicates(xs) ==> NoDuplicates(r) by {
          if NoDuplicates(xs) {
            assert xs[0] !in rest;
            ConsNoDuplicates(xs[0], rest);
          }
        }
        r
      else
        rest
  }

  /** Putting a value in front of a duplicate-free list that lacks it
      keeps the list duplicate-free. */
  lemma ConsNoDuplicates<T>(x: T, xs: seq<T>)
    requires x !in xs && NoDuplicates(xs)
    ensures NoDuplicates([x] + xs)
  {
    var r := [x] + xs;
    forall i, j | 0 <= i < j < |r|
      ensures r[i] != r[j]
    {
      assert r[j] == xs[j - 1];
      if i > 0 {
        assert r[i] == xs[i - 1];
      }
    }
  }

  /** A filter that keeps every element returns the list unchanged. */
  lemma {:induction false} FilterKeepingAll<T(!new)>(xs: seq<T>, keep: T -> bool)
    requires forall i :: 0 <= i < |xs| ==> keep(xs[i])
    ensures Filter(xs, keep) == xs
    decreases |xs|
  {
    if |xs| > 0 {
      FilterKeepingAll(xs[1..], keep);
    }
  }

  /** `[].concat.apply([], lists)`: the lists one after the other. */
  function Flatten<T(==,!new)>(lists: seq<seq<T>>): (r: seq<T>)
    ensures forall x :: x in r <==> exists i :: 0 <= i < |lists| && x in lists[i]
    decreases |lists|
  {
    if |lists| == 0 then []
    else
      var rest := Flatten(lists[1..]);
      lists[0] + rest
  }

  /** Flattening a single list gives that list. */
  lemma FlattenSingle<T(!new)>(l: seq<T>)
    ensures Flatten([l]) == l
  {
  }

  /** Flattening distributes over concatenation: the lists' contents come
      out in the lists' order, each value as often as it occurs. */
  lemma {:induction false} FlattenConcat<T(!new)>(a: seq<seq<T>>, b: seq<seq<T>>)
    ensures Flatten(a + b) == Flatten(a) + Flatten(b)
    decreases |a|
  {
    if |a| > 0 {
      assert (a + b)[0] == a[0];
      assert (a + b)[1..] == a[1..] + b;
      FlattenConcat(a[1..], b);
    } else {
      assert a + b == b;
    }
  }

  /** The values of `xs` in the order of their first occurrence, each once:
      what a loop that appends every value not yet collected produces. */
  function Dedup<T(==,!new)>(xs: seq<T>): (r: seq<T>)
    ensures NoDuplicates(r)
    ensures forall x :: x in r <==> x in xs
    decreases |xs|
  {
    if |xs| == 0 then []
    else
      var init := xs[..|xs| - 1];
      var rest := Dedup(init);
      var last := xs[|xs| - 1];
      assert xs == init + [last];
      if last in rest then rest else rest + [last]
  }

  /** True iff the values of `r` appear in the order in which they first
      occur in `xs`. */
  predicate InFirstOccurrenceOrder<T(==)>(r: seq<T>, xs: seq<T>) {
    forall i, j :: 0 <= i < j < |r| ==> IndexOf(xs, r[i]) < IndexOf(xs, r[j])
  }

  /** Appending a value does not move the first occurrence of any value
      already present; a value not present first occurs at the end. */
  lemma IndexOfAppend<T>(xs: seq<T>, x: T, y: T)
    ensures y in xs ==> IndexOf(xs + [x], y) == IndexOf(xs, y)
    ensures y !in xs && y == x ==> IndexOf(xs + [x], y) == |xs|
  {
    if y in xs {
      var k := IndexOf(xs, y);
      assert (xs + [x])[..k] == xs[..k];
    } else if y == x {
      assert (xs + [x])[..|xs|] == xs;
    }
  }

  /** The de-duplicated list keeps first-occurrence order. */
  lemma {:induction false} DedupKeepsFirstOccurrenceOrder<T(!new)>(xs: seq<T>)
    ensures InFirstOccurrenceOrder(Dedup(xs), xs)
    decreases |xs|
  {
    if |xs| > 0 {
      var init := xs[..|xs| - 1];
      var last := xs[|xs| - 1];
      assert xs == init + [last];
      DedupKeepsFirstOccurrenceOrder(init);
      var rest := Dedup(init);
      forall y | y in init
        ensures IndexOf(xs, y) == IndexOf(init, y)
      {
        IndexOfAppend(init, last, y);
      }
      if last !in rest {
        IndexOfAppend(init, last, last);
        forall y | y in init
          ensures IndexOf(xs, y) < IndexOf(xs, last)
        {
        }
      }
    }
  }

  /** A non-empty list contains its first element. */
  lemma HeadIsElement<T>(r: seq<T>)
    requires |r| > 0
    ensures r[0] in r
  {
  }

  /** Order by first occurrence in `xs` is order by first occurrence in
      `xs` without its last element, for values that occur before it. */
  lemma OrderOnPrefix<T>(xs: seq<T>, r: seq<T>)
    requires |xs| > 0
    requires forall x :: x in r ==> x in xs[..|xs| - 1]
    requires InFirstOccurrenceOrder(r, xs)
    ensures InFirstOccurrenceOrder(r, xs[..|xs| - 1])
  {
    var init := xs[..|xs| - 1];
    assert xs == init + [xs[|xs| - 1]];
    forall i, j | 0 <= i < j < |r|
      ensures IndexOf(init, r[i]) < IndexOf(init, r[j])
    {
      assert IndexOf(xs, r[i]) < IndexOf(xs, r[j]);
      assert r[i] in r && r[j] in r;
      IndexOfAppend(init, xs[|xs| - 1], r[i]);
      IndexOfAppend(init, xs[|xs| - 1], r[j]);
    }
  }

  /** No duplicates, the same values as `xs`, and first-occurrence order
      determine a list completely: any list with those three properties is
      the one `Dedup` computes. */
  lemma {:induction false} DedupIsUnique<T(!new)>(xs: seq<T>, r: seq<T>)
    requires NoDuplicates(r)
    requires forall x :: x in r <==> x in xs
    requires InFirstOccurrenceOrder(r, xs)
    ensures r == Dedup(xs)
    decreases |xs|
  {
    if |xs| == 0 {
      if r != [] {
        HeadIsElement(r);
        assert false;
      }
    } else {
      var init := xs[..|xs| - 1];
      var last := xs[|xs| - 1];
      assert xs == init + [last];
      if last in init {
        assert forall x :: x in r ==> x in init;
        OrderOnPrefix(xs, r);
        DedupIsUnique(init, r);
      } else {
        DedupStep(xs, r);
      }
    }
  }

  /** The step of `DedupIsUnique` where the last value of `xs` is new. */
  lemma {:induction false} DedupStep<T(!new)>(xs: seq<T>, r: seq<T>)
    requires |xs| > 0 && xs[|xs| - 1] !in xs[..|xs| - 1]
    requires NoDuplicates(r)
    requires forall x :: x in r <==> x in xs
    requires InFirstOccurrenceOrder(r, xs)
    ensures r == Dedup(xs)
    decreases |xs|, 0
  {
    var init := xs[..|xs| - 1];
    var last := xs[|xs| - 1];
    NewestIsLast(xs, r);
    var front := r[..|r| - 1];
    FrontHoldsPrefix(xs, r, init, front);
    OrderOnPrefix(xs, front);
    DedupIsUnique(init, front);
    DedupAppendNew(init, last);
    assert r == front + [last];
    assert xs == init + [last];
  }

  /** Appending a value that is new to `xs` appends it to the
      de-duplicated list. */
  lemma DedupAppendNew<T(!new)>(xs: seq<T>, v: T)
    requires v !in xs
    ensures Dedup(xs + [v]) == Dedup(xs) + [v]
  {
    assert (xs + [v])[..|xs|] == xs;
  }

  /** A value first occurring at the end of `xs` comes last in any list
      that holds it and is ordered by first occurrence in `xs`. */
  lemma NewestIsLast<T>(xs: seq<T>, r: seq<T>)
    requires |xs| > 0 && xs[|xs| - 1] !in xs[..|xs| - 1]
    requires xs[|xs| - 1] in r
    requires InFirstOccurrenceOrder(r, xs)
    ensures |r| > 0 && r[|r| - 1] == xs[|xs| - 1]
  {
    var init := xs[..|xs| - 1];
    var last := xs[|xs| - 1];
    assert xs == init + [last];
    IndexOfAppend(init, last, last);
    var k :| 0 <= k < |r| && r[k] == last;
    assert IndexOf(xs, r[k]) == |xs| - 1;
    assert IndexOf(xs, r[|r| - 1]) < |xs|;
  }

  /** Dropping the last value of a duplicate-free list that ends with the
      last value of `xs` leaves exactly the values of the rest of `xs`. */
  lemma FrontHoldsPrefix<T>(xs: seq<T>, r: seq<T>, init: seq<T>, front: seq<T>)
    requires |xs| > 0 && init == xs[..|xs| - 1] && xs[|xs| - 1] !in init
    requires |r| > 0 && front == r[..|r| - 1] && r[|r| - 1] == xs[|xs| - 1]
    requires NoDuplicates(r)
    requires forall x :: x in r <==> x in xs
    requires InFirstOccurrenceOrder(r, xs)
    ensures NoDuplicates(front)
    ensures forall x :: x in front <==> x in init
    ensures InFirstOccurrenceOrder(front, xs)
  {
    var last := xs[|xs| - 1];
    assert xs == init + [last];
    forall i, j | 0 <= i < j < |front|
      ensures front[i] != front[j]
      ensures IndexOf(xs, front[i]) < IndexOf(xs, front[j])
    {
      assert front[i] == r[i] && front[j] == r[j];
    }
    forall x | x in front
      ensures x in init
    {
      var i :| 0 <= i < |front| && front[i] == x;
      assert r[i] == x && r[i] != r[|r| - 1];
    }
    forall x | x in init
      ensures x in front
    {
      assert x in r && x != last;
      var i :| 0 <= i < |r| && r[i] == x;
      assert i < |r| - 1 && front[i] == x;
    }
  }

  /** The source's loop: walk the list and append every value that has not
      been collected yet. */
  method UniqueInOrder<T(==,!new)>(xs: seq<T>) returns (unique: seq<T>)
    ensures unique == Dedup(xs)
    ensures NoDuplicates(unique)
    ensures InFirstOccurrenceOrder(unique, xs)
  {
    unique := [];
    var i := 0;
    while i < |xs|
      invariant 0 <= i <= |xs|
      invariant unique == Dedup(xs[..i])
    {
      assert xs[..i + 1][..i] == xs[..i];
      if xs[i] !in unique {
        unique := unique + [xs[i]];
      }
      i := i + 1;
    }
    assert xs[..|xs|] == xs;
    DedupKeepsFirstOccurrenceOrder(xs);
  }
}
