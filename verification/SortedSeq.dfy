// Sorted sequences of integers, and the one sorted sequence a multiset has.
module SortedSeq {
  import opened Slices

  ghost predicate Sorted(s: seq<int>) {
    forall i, j :: 0 <= i < j < |s| ==> s[i] <= s[j]
  }

  ghost predicate AllBelow(s: seq<int>, x: int) {
    forall i :: 0 <= i < |s| ==> s[i] < x
  }

  ghost predicate NoneBelow(s: seq<int>, x: int) {
    forall i :: 0 <= i < |s| ==> x <= s[i]
  }

  // What section [lower.bound] of the C++20 standard asks of the position found for x.
  ghost predicate IsLowerBound(s: seq<int>, p: nat, x: int) {
    p <= |s| && AllBelow(s[..p], x) && NoneBelow(s[p..], x)
  }

  // The first position whose element is not below x.
  function LowerBoundOf(s: seq<int>, x: int): (p: nat)
    ensures p <= |s|
    ensures AllBelow(s[..p], x)
    ensures p < |s| ==> x <= s[p]
  {
    if s == [] || x <= s[0] then 0 else
      var p := 1 + LowerBoundOf(s[1..], x);
      assert forall i :: 0 < i < p ==> s[i] == s[1..][..p-1][i-1];
      p
  }

  function Inserted(s: seq<int>, x: int): seq<int> {
    var p := LowerBoundOf(s, x);
    s[..p] + [x] + s[p..]
  }

  function Backwards(s: seq<int>): (r: seq<int>)
    ensures |r| == |s|
  {
    seq(|s|, i requires 0 <= i < |s| => s[|s| - 1 - i])
  }

  lemma LowerBoundIsUnique(s: seq<int>, p: nat, x: int)
    requires IsLowerBound(s, p, x)
    ensures p == LowerBoundOf(s, x)
  {
    var q := LowerBoundOf(s, x);
    assert forall i :: 0 <= i < p ==> s[i] == s[..p][i];
    assert forall i :: 0 <= i < q ==> s[i] == s[..q][i];
    assert p < |s| ==> s[p] == s[p..][0];
  }

  lemma LowerBoundIsNotBelow(s: seq<int>, p: nat, x: int)
    requires IsLowerBound(s, p, x)
    ensures if p < |s| then x <= s[p] else AllBelow(s, x)
  {
    assert p == |s| ==> s[..p] == s;
    assert p < |s| ==> s[p..][0] == s[p];
  }

  lemma LowerBoundIsAbove(s: seq<int>, p: nat, x: int)
    requires IsLowerBound(s, p, x)
    ensures p <= |s| && AllBelow(s[..p], x)
  {
  }

  lemma SortedTail(s: seq<int>, p: nat)
    requires Sorted(s) && p <= |s|
    ensures Sorted(s[p..])
  {
  }

  lemma SortedSlice(s: seq<int>, p: nat, q: nat)
    requires Sorted(s) && p <= q <= |s|
    ensures Sorted(s[p..q])
  {
  }

  lemma SplitOrders(s: seq<int>, p: nat)
    requires Sorted(s) && p <= |s|
    ensures multiset(s) - multiset(s[..p]) == multiset(s[p..])
    ensures multiset(s) - multiset(s[p..]) == multiset(s[..p])
    ensures forall x, y :: x in multiset(s[..p]) && y in multiset(s[p..]) ==> x <= y
  {
    SliceMultiset(s, p);
    forall x, y | x in multiset(s[..p]) && y in multiset(s[p..])
      ensures x <= y
    {
      assert x in s[..p] && y in s[p..];
    }
  }

  lemma SortedJoin(s: seq<int>, t: seq<int>)
    requires Sorted(s) && Sorted(t)
    requires s != [] && t != [] ==> s[|s| - 1] <= t[0]
    ensures Sorted(s + t)
  {
    if s != [] && t != [] {
      assert forall i :: 0 <= i < |s| ==> s[i] <= s[|s| - 1];
      assert forall j :: 0 <= j < |t| ==> t[0] <= t[j];
    }
  }

  // A sorted run fits in at p when it lies between the elements on either side of p.
  lemma RunFits(s: seq<int>, p: nat, run: seq<int>)
    requires Sorted(s) && Sorted(run) && run != []
    requires IsLowerBound(s, p, run[0])
    requires p < |s| ==> run[|run| - 1] <= s[p]
    ensures Sorted(s[..p] + run + s[p..])
    ensures multiset(s[..p] + run + s[p..]) == multiset(s) + multiset(run)
  {
    SliceMultiset(s, p);
    SortedJoin(s[..p], run);
    SortedJoin(s[..p] + run, s[p..]);
  }

  lemma InsertedIsSorted(s: seq<int>, x: int)
    requires Sorted(s)
    ensures Sorted(Inserted(s, x))
    ensures multiset(Inserted(s, x)) == multiset(s) + multiset{x}
  {
    RunFits(s, LowerBoundOf(s, x), [x]);
  }

  lemma SomeSortedSequence(ms: multiset<int>)
    ensures exists s :: Sorted(s) && multiset(s) == ms
    decreases |ms|
  {
    if forall x :: x !in ms {
      assert ms == multiset{};
      assert Sorted([]) && multiset([]) == ms;
    } else {
      var x :| x in ms;
      SomeSortedSequence(ms - multiset{x});
      var s :| Sorted(s) && multiset(s) == ms - multiset{x};
      InsertedIsSorted(s, x);
    }
  }

  // The sorted sequence of the elements of ms.
  ghost function SortedOf(ms: multiset<int>): (s: seq<int>)
    ensures Sorted(s) && multiset(s) == ms
    ensures |s| == |ms|
  {
    SomeSortedSequence(ms);
    var s :| Sorted(s) && multiset(s) == ms;
    s
  }

  lemma HeadIsLeast(s: seq<int>, x: int)
    requires Sorted(s) && x in multiset(s)
    ensures s[0] <= x
  {
    assert x in s;
  }

  lemma {:induction false} SortedIsUnique(s: seq<int>, t: seq<int>)
    requires Sorted(s) && Sorted(t) && multiset(s) == multiset(t)
    ensures s == t
  {
    hide Sorted;
    assert |s| == |multiset(s)| == |multiset(t)| == |t|;
    if s != [] {
      assert s[0] == t[0] by {
        HeadIsLeast(s, t[0]);
        HeadIsLeast(t, s[0]);
      }
      assert s[1..] == t[1..] by {
        WithoutHead(s);
        WithoutHead(t);
        assert multiset(s[1..]) == multiset(s) - multiset{s[0]};
        SortedTail(s, 1);
        SortedTail(t, 1);
        SortedIsUnique(s[1..], t[1..]);
      }
      assert s == [s[0]] + s[1..];
      assert t == [t[0]] + t[1..];
    }
  }

  // The one way every operation below is tied to its multiset.
  lemma SortedIsSortedOf(s: seq<int>)
    requires Sorted(s)
    ensures s == SortedOf(multiset(s))
  {
    SortedIsUnique(s, SortedOf(multiset(s)));
  }
}
