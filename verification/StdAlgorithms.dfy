// The standard algorithms the sorted array is built from, with the behaviour that sections
// [lower.bound], [alg.reverse], [alg.rotate], [sort], [alg.copy] and [set.intersection] of the
// C++20 standard require.
module StdAlgorithms {
  import opened Slices
  import opened SortedSeq

  ghost function Rotated(s: seq<int>, first: nat, middle: nat, last: nat): seq<int>
    requires first <= middle <= last <= |s|
  {
    s[..first] + s[middle..last] + s[first..middle] + s[last..]
  }

  lemma RotatedMultiset(s: seq<int>, first: nat, middle: nat, last: nat)
    requires first <= middle <= last <= |s|
    ensures multiset(Rotated(s, first, middle, last)) == multiset(s)
  {
    assert s == s[..first] + s[first..middle] + s[middle..last] + s[last..];
  }

  lemma RotatedAt(s: seq<int>, first: nat, middle: nat, last: nat, i: nat)
    requires first <= middle <= last <= |s| && i < |s|
    ensures |Rotated(s, first, middle, last)| == |s|
    ensures Rotated(s, first, middle, last)[i] ==
            if i < first || last <= i then s[i]
            else if i < first + last - middle then s[middle + i - first]
            else s[middle + i - last]
  {
  }

  method LowerBound(a: array<int>, first: nat, last: nat, x: int) returns (p: nat)
    requires first <= last <= a.Length
    requires Sorted(a[first..last])
    ensures first <= p <= last
    ensures IsLowerBound(a[first..last], p - first, x)
  {
    var lo, hi := first, last;
    while lo < hi
      invariant first <= lo <= hi <= last
      invariant forall i :: first <= i < lo ==> a[i] < x
      invariant forall i :: hi <= i < last ==> x <= a[i]
    {
      var mid := (lo + hi) / 2;
      assert forall i :: first <= i < last ==> a[i] == a[first..last][i - first];
      if a[mid] < x {
        lo := mid + 1;
      } else {
        hi := mid;
      }
    }
    p := lo;
  }

  method Reverse(a: array<int>, first: nat, last: nat)
    requires first <= last <= a.Length
    modifies a
    ensures forall i :: first <= i < last ==> a[i] == old(a[first + last - 1 - i])
    ensures forall i :: 0 <= i < first || last <= i < a.Length ==> a[i] == old(a[i])
  {
    var i, j := first, last;
    while i + 1 < j
      invariant first <= i <= j <= last
      invariant i + j == first + last
      invariant forall k :: first <= k < i || j <= k < last ==> a[k] == old(a[first + last - 1 - k])
      invariant forall k :: i <= k < j ==> a[k] == old(a[k])
      invariant forall k :: 0 <= k < first || last <= k < a.Length ==> a[k] == old(a[k])
    {
      j := j - 1;
      a[i], a[j] := a[j], a[i];
      i := i + 1;
    }
  }

  method Rotate(a: array<int>, first: nat, middle: nat, last: nat)
    requires first <= middle <= last <= a.Length
    modifies a
    ensures a[..] == Rotated(old(a[..]), first, middle, last)
  {
    Reverse(a, first, middle);
    Reverse(a, middle, last);
    label BeforeLast:
    Reverse(a, first, last);
    forall i | 0 <= i < a.Length
      ensures a[i] == Rotated(old(a[..]), first, middle, last)[i]
    {
      RotatedAt(old(a[..]), first, middle, last, i);
      if first <= i < last {
        assert a[i] == old@BeforeLast(a[first + last - 1 - i]);
      }
    }
  }

  ghost function Overwritten(s: seq<int>, at: nat, xs: seq<int>): seq<int>
    requires at + |xs| <= |s|
  {
    s[..at] + xs + s[at + |xs|..]
  }

  method Copy(src: array<int>, first: nat, last: nat, dest: array<int>, at: nat)
    requires src != dest
    requires first <= last <= src.Length && at + (last - first) <= dest.Length
    modifies dest
    ensures dest[..] == Overwritten(old(dest[..]), at, src[first..last])
  {
    var i := first;
    while i != last
      invariant first <= i <= last
      invariant forall k :: first <= k < i ==> dest[at + (k - first)] == src[k]
      invariant forall k :: 0 <= k < at || at + (i - first) <= k < dest.Length ==> dest[k] == old(dest[k])
    {
      dest[at + (i - first)] := src[i];
      i := i + 1;
    }
    assert forall k {:trigger dest[k]} :: at <= k < at + (last - first) ==> dest[k] == src[k - at + first];
  }

  // Rotating the element behind a sorted prefix down to its lower bound inserts it.
  lemma RotateInserts(s: seq<int>, p: nat, n: nat)
    requires n < |s| && Sorted(s[..n]) && IsLowerBound(s[..n], p, s[n])
    ensures Rotated(s, p, n, n + 1) == Inserted(s[..n], s[n]) + s[n + 1..]
    ensures Rotated(s, p, n, n + 1)[..n + 1] == Inserted(s[..n], s[n])
    ensures Sorted(Inserted(s[..n], s[n]))
  {
    LowerBoundIsUnique(s[..n], p, s[n]);
    InsertedIsSorted(s[..n], s[n]);
    assert s[n..n + 1] == [s[n]];
    assert Inserted(s[..n], s[n]) == s[..p] + s[n..n + 1] + s[p..n];
  }

  method Sort(a: array<int>)
    modifies a
    ensures a[..] == SortedOf(multiset(old(a[..])))
  {
    var n := 0;
    while n != a.Length
      invariant 0 <= n <= a.Length
      invariant Sorted(a[..][..n])
      invariant multiset(a[..]) == multiset(old(a[..]))
    {
      hide Sorted, IsLowerBound, Rotated, Inserted;
      ghost var was := a[..];
      assert a[0..n] == was[..n];
      var p := LowerBound(a, 0, n, a[n]);
      Rotate(a, p, n, n + 1);
      RotatedMultiset(was, p, n, n + 1);
      RotateInserts(was, p, n);
      n := n + 1;
    }
    assert a[..] == a[..][..n];
    SortedIsSortedOf(a[..]);
  }

  // What two sorted ranges still have in common from positions i and j on.
  ghost function Meet(s: seq<int>, i: nat, t: seq<int>, j: nat): multiset<int>
    requires i <= |s| && j <= |t|
  {
    multiset(s[i..]) * multiset(t[j..])
  }

  lemma MeetCommutes(s: seq<int>, i: nat, t: seq<int>, j: nat)
    requires i <= |s| && j <= |t|
    ensures Meet(s, i, t, j) == Meet(t, j, s, i)
  {
  }

  // A head below everything in the other range is in no intersection.
  lemma SkipHead(s: seq<int>, i: nat, t: seq<int>, j: nat)
    requires i < |s| && j < |t| && Sorted(t) && s[i] < t[j]
    ensures Meet(s, i, t, j) == Meet(s, i + 1, t, j)
  {
    WithoutHead(s[i..]);
    assert s[i..][1..] == s[i + 1..];
    assert s[i] !in t[j..];
  }

  // Equal heads are matched with each other.
  lemma TakeBoth(s: seq<int>, i: nat, t: seq<int>, j: nat)
    requires i < |s| && j < |t| && s[i] == t[j]
    ensures Meet(s, i, t, j) == multiset{s[i]} + Meet(s, i + 1, t, j + 1)
  {
    WithoutHead(s[i..]);
    WithoutHead(t[j..]);
    assert s[i..][1..] == s[i + 1..];
    assert t[j..][1..] == t[j + 1..];
  }

  // What has been found of the intersection of s and t when the walk has come to i and j.
  ghost predicate Walked(result: seq<int>, s: seq<int>, i: nat, t: seq<int>, j: nat) {
    && i <= |s| && j <= |t|
    && multiset(result) + Meet(s, i, t, j) == multiset(s) * multiset(t)
    && Sorted(result)
    && (i < |s| ==> forall k :: 0 <= k < |result| ==> result[k] <= s[i])
  }

  lemma WalkStarts(s: seq<int>, t: seq<int>)
    ensures Walked([], s, 0, t, 0)
  {
    assert s[0..] == s && t[0..] == t;
  }

  lemma WalkPastLeft(result: seq<int>, s: seq<int>, i: nat, t: seq<int>, j: nat)
    requires Walked(result, s, i, t, j) && Sorted(s) && Sorted(t)
    requires i < |s| && j < |t| && s[i] < t[j]
    ensures Walked(result, s, i + 1, t, j)
  {
    SkipHead(s, i, t, j);
    assert i + 1 < |s| ==> s[i] <= s[i + 1];
  }

  lemma WalkPastRight(result: seq<int>, s: seq<int>, i: nat, t: seq<int>, j: nat)
    requires Walked(result, s, i, t, j) && Sorted(s) && Sorted(t)
    requires i < |s| && j < |t| && t[j] < s[i]
    ensures Walked(result, s, i, t, j + 1)
  {
    SkipHead(t, j, s, i);
    MeetCommutes(s, i, t, j);
    MeetCommutes(s, i, t, j + 1);
  }

  lemma WalkPastBoth(result: seq<int>, s: seq<int>, i: nat, t: seq<int>, j: nat)
    requires Walked(result, s, i, t, j) && Sorted(s) && Sorted(t)
    requires i < |s| && j < |t| && s[i] == t[j]
    ensures Walked(result + [s[i]], s, i + 1, t, j + 1)
  {
    TakeBoth(s, i, t, j);
    assert i + 1 < |s| ==> s[i] <= s[i + 1];
    assert multiset(result + [s[i]]) == multiset(result) + multiset{s[i]};
  }

  lemma WalkEnds(result: seq<int>, s: seq<int>, i: nat, t: seq<int>, j: nat)
    requires Walked(result, s, i, t, j) && (i == |s| || j == |t|)
    ensures result == SortedOf(multiset(s) * multiset(t))
  {
    assert Meet(s, i, t, j) == multiset{};
    assert multiset(result) == multiset(s) * multiset(t);
    SortedIsSortedOf(result);
  }

  // Walks a[..aLast] and b[..bLast] once, in step.
  method SetIntersection(a: array<int>, aLast: nat, b: array<int>, bLast: nat) returns (result: seq<int>)
    requires aLast <= a.Length && bLast <= b.Length
    requires Sorted(a[..aLast]) && Sorted(b[..bLast])
    ensures result == SortedOf(multiset(a[..aLast]) * multiset(b[..bLast]))
  {
    hide Sorted, Walked;
    ghost var s, t := a[..aLast], b[..bLast];
    result := [];
    var i, j := 0, 0;
    WalkStarts(s, t);
    while i != aLast && j != bLast
      invariant i <= aLast && j <= bLast
      invariant Walked(result, s, i, t, j)
      decreases aLast - i + bLast - j
    {
      if a[i] < b[j] {
        WalkPastLeft(result, s, i, t, j);
        i := i + 1;
      } else {
        if !(b[j] < a[i]) {
          WalkPastBoth(result, s, i, t, j);
          result := result + [a[i]];
          i := i + 1;
        } else {
          WalkPastRight(result, s, i, t, j);
        }
        j := j + 1;
      }
    }
    WalkEnds(result, s, i, t, j);
  }
}
