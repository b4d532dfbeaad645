/** Counting facts about finite ranges and sequences. */
module Finite {
  /** The numbers 0, 1, ..., n-1. */
  function Range(n: nat): (s: set<int>)
    ensures forall i :: i in s <==> 0 <= i < n
  {
    if n == 0 then {} else Range(n - 1) + {n - 1}
  }

  lemma {:induction false} RangeSize(n: nat)
    ensures |Range(n)| == n
  {
    if n > 0 {
      RangeSize(n - 1);
    }
  }

  lemma {:induction false} SubsetSize<T>(a: set<T>, b: set<T>)
    requires a <= b
    ensures |a| <= |b|
    ensures |a| == |b| <==> a == b
  {
    assert b == a + (b - a);
    assert |b| == |a| + |b - a|;
  }

  /** Iteration over a collection without an order starts anywhere. */
  method AnyOf<T>(s: set<T>) returns (x: T)
    requires s != {}
    ensures x in s
  {
    x :| x in s;
  }

  /** Pigeonhole: `n` different numbers below `n` are all of them. */
  lemma FullRange(keys: set<int>, n: nat)
    requires keys <= Range(n)
    ensures |keys| == n <==> keys == Range(n)
  {
    RangeSize(n);
    SubsetSize(keys, Range(n));
  }

  ghost predicate Ascending(s: seq<int>) {
    forall i, j :: 0 <= i < j < |s| ==> s[i] < s[j]
  }

  ghost predicate NoDuplicates<T>(s: seq<T>) {
    forall i, j :: 0 <= i < j < |s| ==> s[i] != s[j]
  }

  lemma AppendAscending(s: seq<int>, x: int)
    requires Ascending(s) && forall k :: k in s ==> k < x
    ensures Ascending(s + [x])
  {
    assert forall i :: 0 <= i < |s| ==> s[i] in s;
  }

  lemma AppendNew<T>(s: seq<T>, x: T)
    requires NoDuplicates(s) && x !in s
    ensures NoDuplicates(s + [x])
  {
  }

  lemma {:induction false} OccursOnce<T>(s: seq<T>, x: T)
    requires NoDuplicates(s)
    ensures multiset(s)[x] == if x in s then 1 else 0
  {
    if s != [] {
      var init, last := s[..|s| - 1], s[|s| - 1];
      assert s == init + [last];
      OccursOnce(init, x);
    }
  }

  /** A permutation repeats something exactly when the original does. */
  lemma PermutationRepeats<T>(s: seq<T>, t: seq<T>)
    requires multiset(s) == multiset(t)
    ensures NoDuplicates(s) ==> NoDuplicates(t)
  {
    if NoDuplicates(s) {
      forall i, j | 0 <= i < j < |t|
        ensures t[i] != t[j]
      {
        assert t == t[..j] + t[j..];
        OccursOnce(s, t[j]);
        assert t[i] in t[..j] && t[j] in t[j..];
      }
    }
  }

  lemma SameMembersSameMultiset<T>(s: seq<T>, t: seq<T>)
    requires NoDuplicates(s) && NoDuplicates(t) && forall x :: x in s <==> x in t
    ensures multiset(s) == multiset(t)
  {
    forall x
      ensures multiset(s)[x] == multiset(t)[x]
    {
      OccursOnce(s, x);
      OccursOnce(t, x);
    }
  }

  /** As many different members as there are to choose from are all of them. */
  lemma FullChoiceIsPermutation<T>(s: seq<T>, t: seq<T>)
    requires NoDuplicates(s) && |s| == |t| && forall x :: x in s ==> x in t
    ensures multiset(s) == multiset(t)
  {
    forall x
      ensures multiset(s)[x] <= multiset(t)[x]
    {
      OccursOnce(s, x);
      assert x in t <==> x in multiset(t);
    }
    var rest := multiset(t) - multiset(s);
    assert multiset(t) == multiset(s) + rest;
    assert |rest| == |multiset(t)| - |multiset(s)| == 0;
  }

  /** `n` numbers below `n` are different exactly when they are all of them. */
  lemma Pigeonhole(s: seq<nat>, n: nat)
    requires |s| == n && forall i :: i in s ==> i < n
    ensures NoDuplicates(s) <==> forall i: nat :: i < n ==> i in s
  {
    var all: seq<nat> := seq(n, i requires 0 <= i < n => i);
    forall i: nat | i < n
      ensures i in all
    {
      assert all[i] == i;
    }
    if NoDuplicates(s) {
      FullChoiceIsPermutation(s, all);
      MembersOfPermutation(s, all);
    }
    if forall i: nat :: i < n ==> i in s {
      FullChoiceIsPermutation(all, s);
      PermutationRepeats(all, s);
    }
  }

  lemma MembersOfPermutation<T>(s: seq<T>, t: seq<T>)
    requires multiset(s) == multiset(t)
    ensures forall x :: x in s <==> x in t
  {
    assert forall x :: x in s <==> x in multiset(s);
    assert forall x :: x in t <==> x in multiset(t);
  }

  lemma SameMembersSameLength<T>(s: seq<T>, t: seq<T>)
    requires NoDuplicates(s) && NoDuplicates(t) && forall x :: x in s <==> x in t
    ensures |s| == |t|
  {
    SameMembersSameMultiset(s, t);
    assert |s| == |multiset(s)| == |multiset(t)| == |t|;
  }
}
