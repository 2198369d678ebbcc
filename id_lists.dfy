/** The mutable list of sample identifiers (a Kotlin `ArrayList<Int>`): the
    lookups the quiz relies on (first and last index, removal of the first
    occurrence, in-place shuffle) and the facts about distinct elements that
    carry over from one round to the next. */
module IdLists {

  function Min(a: int, b: int): int { if a <= b then a else b }

  /** No identifier occurs twice. */
  predicate Distinct(s: seq<int>) {
    forall i, j :: 0 <= i < j < |s| ==> s[i] != s[j]
  }

  /** Index of the first occurrence of `x`, or -1 (`ArrayList.indexOf`). */
  function IndexOf(s: seq<int>, x: int): (k: int)
    ensures -1 <= k < |s|
    ensures k == -1 <==> x !in s
    ensures 0 <= k ==> s[k] == x && forall j :: 0 <= j < k ==> s[j] != x
  {
    if |s| == 0 then -1
    else if s[0] == x then 0
    else
      var k := IndexOf(s[1..], x);
      if k == -1 then -1 else k + 1
  }

  /** Index of the last occurrence of `x`, or -1: what a forward scan that
      overwrites its result on every match ends with. */
  function LastIndexOf(s: seq<int>, x: int): (k: int)
    ensures -1 <= k < |s|
    ensures k == -1 <==> x !in s
    ensures 0 <= k ==> s[k] == x && forall j :: k < j < |s| ==> s[j] != x
  {
    if |s| == 0 then -1
    else if s[|s| - 1] == x then |s| - 1
    else LastIndexOf(s[..|s| - 1], x)
  }

  /** `s` without the first occurrence of `x` (`ArrayList.remove(Object)`);
      `s` itself when `x` does not occur. */
  function RemoveFirst(s: seq<int>, x: int): seq<int> {
    if |s| == 0 then []
    else if s[0] == x then s[1..]
    else [s[0]] + RemoveFirst(s[1..], x)
  }

  /** Removal drops exactly one copy of `x` when there is one, and leaves the
      list as it was otherwise. */
  lemma {:induction false} RemoveFirstDropsOne(s: seq<int>, x: int)
    ensures |RemoveFirst(s, x)| == if x in s then |s| - 1 else |s|
    ensures multiset(RemoveFirst(s, x)) == multiset(s) - multiset{x}
    ensures x !in s ==> RemoveFirst(s, x) == s
  {
    if |s| > 0 {
      assert s == [s[0]] + s[1..];
      if s[0] != x {
        RemoveFirstDropsOne(s[1..], x);
      }
    }
  }

  /** Removal cuts the list at the first occurrence and keeps the order of
      everything else. */
  lemma {:induction false} RemoveFirstSplitsAtIndex(s: seq<int>, x: int)
    requires x in s
    ensures RemoveFirst(s, x) == s[..IndexOf(s, x)] + s[IndexOf(s, x) + 1..]
  {
    if s[0] != x {
      RemoveFirstSplitsAtIndex(s[1..], x);
      var k := IndexOf(s[1..], x);
      assert s[..k + 1] == [s[0]] + s[1..][..k];
      assert s[k + 2..] == s[1..][k + 1..];
    }
  }

  /** A list is duplicate-free exactly when every identifier occurs at most once
      in its multiset. */
  lemma {:induction false} DistinctIffSingleCounts(s: seq<int>)
    ensures Distinct(s) <==> forall x :: multiset(s)[x] <= 1
  {
    if |s| > 0 {
      var h, t := s[0], s[1..];
      assert s == [h] + t;
      DistinctIffSingleCounts(t);
      if Distinct(s) {
        assert Distinct(t) by {
          forall i, j | 0 <= i < j < |t| ensures t[i] != t[j] {
            assert t[i] == s[i + 1] && t[j] == s[j + 1];
          }
        }
        assert h !in t;
        forall x ensures multiset(s)[x] <= 1 {
          assert multiset(s)[x] == multiset{h}[x] + multiset(t)[x];
        }
      }
      if forall x :: multiset(s)[x] <= 1 {
        assert multiset(t)[h] == 0 by {
          assert multiset(s)[h] == 1 + multiset(t)[h];
        }
        forall x ensures multiset(t)[x] <= 1 {
          assert multiset(s)[x] == multiset{h}[x] + multiset(t)[x];
        }
        forall i, j | 0 <= i < j < |s| ensures s[i] != s[j] {
          assert s[j] == t[j - 1];
          if i > 0 { assert s[i] == t[i - 1]; }
        }
      }
    }
  }

  /** Reordering a duplicate-free list leaves it duplicate-free. */
  lemma PermutationKeepsDistinct(a: seq<int>, b: seq<int>)
    requires multiset(a) == multiset(b)
    requires Distinct(a)
    ensures Distinct(b)
  {
    DistinctIffSingleCounts(a);
    DistinctIffSingleCounts(b);
  }

  /** Removing from a duplicate-free list retires the identifier for good. */
  lemma RemoveFirstKeepsDistinct(s: seq<int>, x: int)
    requires Distinct(s)
    ensures Distinct(RemoveFirst(s, x))
    ensures x !in RemoveFirst(s, x)
  {
    var r := RemoveFirst(s, x);
    RemoveFirstDropsOne(s, x);
    DistinctIffSingleCounts(s);
    DistinctIffSingleCounts(r);
    assert multiset(r)[x] == 0;
  }

  /** A Kotlin `ArrayList<Int>` of sample identifiers, mutated in place. */
  class IdList {
    var items: seq<int>

    constructor (ids: seq<int>)
      ensures items == ids
    {
      items := ids;
    }

    /** `Collections.shuffle`: the contents become some permutation of
        themselves; which one is left to the random source. */
    method Shuffle()
      modifies this
      ensures multiset(items) == multiset(old(items))
      ensures |items| == |old(items)|
    {
      var shuffled: seq<int> :| multiset(shuffled) == multiset(items);
      assert |shuffled| == |multiset(shuffled)|;
      items := shuffled;
    }

    /** `remove(Object)`: drops the first occurrence of `x`, if any, and says
        whether there was one. */
    method Remove(x: int) returns (removed: bool)
      modifies this
      ensures removed <==> x in old(items)
      ensures items == RemoveFirst(old(items), x)
    {
      removed := x in items;
      items := RemoveFirst(items, x);
    }
  }
}
