/**
 * `java.util.List` operations the entities use on their relationship lists,
 * and the filter that every repository query reduces to.
 */
module Lists {

  predicate NoDup<T(==)>(xs: seq<T>)
  {
    forall i, j :: 0 <= i < j < |xs| ==> xs[i] != xs[j]
  }

  /** `if (!list.contains(x)) list.add(x)`: append only when absent. */
  function AppendIfAbsent<T(==,!new)>(xs: seq<T>, x: T): (r: seq<T>)
    ensures x in r
    ensures forall y :: y in r <==> y in xs || y == x
    ensures x in xs ==> r == xs
    ensures x !in xs ==> |r| == |xs| + 1 && r[..|xs|] == xs
    ensures NoDup(xs) ==> NoDup(r)
  {
    if x in xs then xs else xs + [x]
  }

  /** `list.remove(x)`: drop the first occurrence of `x`, if there is one. */
  function RemoveFirst<T(==)>(xs: seq<T>, x: T): (r: seq<T>)
    ensures multiset(r) == multiset(xs) - multiset{x}
  {
    if |xs| == 0 then xs
    else if xs[0] == x then
      assert xs == [x] + xs[1..];
      xs[1..]
    else
      var rest := RemoveFirst(xs[1..], x);
      assert xs == [xs[0]] + xs[1..];
      assert multiset([xs[0]] + rest) == multiset{xs[0]} + multiset(rest);
      [xs[0]] + rest
  }

  /** Removing an absent element is a no-op. */
  lemma {:induction false} RemoveFirstAbsent<T>(xs: seq<T>, x: T)
    requires x !in xs
    ensures RemoveFirst(xs, x) == xs
  {
    if |xs| > 0 {
      assert xs == [xs[0]] + xs[1..];
      RemoveFirstAbsent(xs[1..], x);
    }
  }

  /** Removing an element just appended, and found nowhere before, gives back the original. */
  lemma {:induction false} RemoveFirstAppended<T>(xs: seq<T>, x: T)
    requires x !in xs
    ensures RemoveFirst(xs + [x], x) == xs
  {
    if xs != [] {
      assert (xs + [x])[1..] == xs[1..] + [x];
      RemoveFirstAppended(xs[1..], x);
      assert [xs[0]] + xs[1..] == xs;
    }
  }

  lemma NoDupCons<T>(a: T, rest: seq<T>)
    requires NoDup(rest) && a !in rest
    ensures NoDup([a] + rest)
  {
    var xs := [a] + rest;
    forall i, j | 0 <= i < j < |xs|
      ensures xs[i] != xs[j]
    {
      assert xs[j] == rest[j - 1];
      if i > 0 {
        assert xs[i] == rest[i - 1];
      }
    }
  }

  /** The tail of a duplicate-free list is duplicate-free and lacks the head. */
  lemma NoDupTail<T>(xs: seq<T>)
    requires NoDup(xs) && |xs| > 0
    ensures NoDup(xs[1..]) && xs[0] !in xs[1..]
  {
    var tail := xs[1..];
    forall i, j | 0 <= i < j < |tail|
      ensures tail[i] != tail[j]
    {
      assert tail[i] == xs[i + 1] && tail[j] == xs[j + 1];
    }
    forall j | 0 <= j < |tail|
      ensures tail[j] != xs[0]
    {
      assert tail[j] == xs[j + 1];
    }
  }

  /** Removing from a duplicate-free list removes the element entirely and keeps the rest. */
  lemma RemoveFirstNoDup<T>(xs: seq<T>, x: T)
    requires NoDup(xs)
    ensures NoDup(RemoveFirst(xs, x))
    ensures forall y :: y in RemoveFirst(xs, x) <==> y in xs && y != x
    ensures x in xs ==> |RemoveFirst(xs, x)| == |xs| - 1
  {
    RemoveFirstKeepsNoDup(xs, x);
    RemoveFirstMembers(xs, x);
  }

  lemma {:induction false} RemoveFirstKeepsNoDup<T>(xs: seq<T>, x: T)
    requires NoDup(xs)
    ensures NoDup(RemoveFirst(xs, x))
  {
    if |xs| > 0 {
      var tail := xs[1..];
      NoDupTail(xs);
      if xs[0] != x {
        RemoveFirstKeepsNoDup(tail, x);
        RemoveFirstMembers(tail, x);
        NoDupCons(xs[0], RemoveFirst(tail, x));
      }
    }
  }

  lemma {:induction false} RemoveFirstMembers<T>(xs: seq<T>, x: T)
    requires NoDup(xs)
    ensures forall y :: y in RemoveFirst(xs, x) <==> y in xs && y != x
    ensures x in xs ==> |RemoveFirst(xs, x)| == |xs| - 1
  {
    if |xs| > 0 {
      var tail := xs[1..];
      assert xs == [xs[0]] + tail;
      NoDupTail(xs);
      if xs[0] != x {
        RemoveFirstMembers(tail, x);
      }
    }
  }

  /** Every element of `xs` that satisfies `p`, in their original order. */
  function Filter<T(!new)>(xs: seq<T>, p: T -> bool): (r: seq<T>)
    ensures |r| <= |xs|
    ensures forall x :: x in r <==> x in xs && p(x)
    ensures forall i :: 0 <= i < |r| ==> p(r[i])
  {
    if |xs| == 0 then []
    else
      var rest := Filter(xs[1..], p);
      assert xs == [xs[0]] + xs[1..];
      if p(xs[0]) then [xs[0]] + rest else rest
  }

  /** `Filter` keeps the order: filtering a concatenation concatenates the filtered parts. */
  lemma {:induction false} FilterAppend<T(!new)>(xs: seq<T>, ys: seq<T>, p: T -> bool)
    ensures Filter(xs + ys, p) == Filter(xs, p) + Filter(ys, p)
  {
    if |xs| > 0 {
      assert (xs + ys)[1..] == xs[1..] + ys;
      FilterAppend(xs[1..], ys, p);
    } else {
      assert xs + ys == ys;
    }
  }

  /** The multiplicities `Filter` keeps: all of a satisfying element, none of the others. */
  lemma {:induction false} FilterMultiset<T(!new)>(xs: seq<T>, p: T -> bool, x: T)
    ensures multiset(Filter(xs, p))[x] == if p(x) then multiset(xs)[x] else 0
  {
    if |xs| > 0 {
      FilterMultiset(xs[1..], p, x);
      assert xs == [xs[0]] + xs[1..];
    }
  }

  /** Ascending by `key`. */
  predicate SortedBy<T>(xs: seq<T>, key: T -> int)
  {
    forall i, j :: 0 <= i < j < |xs| ==> key(xs[i]) <= key(xs[j])
  }

  /** A sorted list stays sorted when an element no larger than all of it goes in front. */
  lemma SortedCons<T>(h: T, xs: seq<T>, key: T -> int)
    requires SortedBy(xs, key)
    requires forall i :: 0 <= i < |xs| ==> key(h) <= key(xs[i])
    ensures SortedBy([h] + xs, key)
  {
    var r := [h] + xs;
    forall i, j | 0 <= i < j < |r|
      ensures key(r[i]) <= key(r[j])
    {
      assert r[j] == xs[j - 1];
      if i > 0 {
        assert r[i] == xs[i - 1];
      }
    }
  }

  /** Put `x` into a sorted list, after every element with the same key. */
  function InsertBy<T>(x: T, xs: seq<T>, key: T -> int): (r: seq<T>)
    requires SortedBy(xs, key)
    ensures SortedBy(r, key)
    ensures multiset(r) == multiset(xs) + multiset{x}
  {
    if |xs| == 0 then [x]
    else if key(x) < key(xs[0]) then
      SortedCons(x, xs, key);
      [x] + xs
    else
      var rest := InsertBy(x, xs[1..], key);
      assert xs == [xs[0]] + xs[1..];
      forall i | 0 <= i < |rest|
        ensures key(xs[0]) <= key(rest[i])
      {
        assert rest[i] in multiset(rest);
      }
      SortedCons(xs[0], rest, key);
      [xs[0]] + rest
  }

  /** A sort ascending by `key`: the same elements, reordered. */
  function SortBy<T>(xs: seq<T>, key: T -> int): (r: seq<T>)
    ensures SortedBy(r, key)
    ensures multiset(r) == multiset(xs)
  {
    if |xs| == 0 then []
    else
      assert xs == [xs[0]] + xs[1..];
      InsertBy(xs[0], SortBy(xs[1..], key), key)
  }
}
