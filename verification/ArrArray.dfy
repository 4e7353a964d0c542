// The fixed-capacity sorted array of core/arr/ArrArray.h.
module ArrArray {
  import opened Common
  import opened Slices
  import opened SortedSeq
  import opened StdAlgorithms

  // The state of one array: every physical slot, and how many of them are live.
  datatype Cells = Cells(slots: seq<int>, used: nat) {

    ghost predicate Valid() {
      used <= |slots| && Sorted(View())
    }

    // The live prefix.
    function View(): seq<int>
      requires used <= |slots|
    {
      slots[..used]
    }

    function AfterSet(x: int): Cells
      requires used < |slots|
    {
      Cells(Inserted(View(), x) + slots[used + 1..], used + 1)
    }

    ghost function AfterSetRange(xs: seq<int>): Cells
      requires used + |xs| <= |slots|
    {
      Cells(SortedOf(multiset(View()) + multiset(xs)) + slots[used + |xs|..], used + |xs|)
    }

    // The removed slice ends up behind everything else in the buffer.
    function AfterClear(start: nat, stop: nat): Cells
      requires used <= |slots| && start <= Lesser(used, stop)
    {
      var pivot := Lesser(used, stop);
      Cells(slots[..start] + slots[pivot..] + slots[start..pivot], used - (pivot - start))
    }

    function Window(start: nat, stop: nat, maxRspSize: nat): seq<int>
      requires used <= |slots| && start <= Lesser(Lesser(stop, used), maxRspSize)
    {
      View()[start..Lesser(Lesser(stop, used), maxRspSize)]
    }

    function Smallest(n: nat): seq<int>
      requires used <= |slots|
    {
      View()[..Lesser(n, used)]
    }

    // max counts back from the physical end of the buffer, not from the end of the live prefix.
    function FromPhysicalEnd(n: nat): seq<int>
      requires used <= |slots|
    {
      Backwards(slots[|slots| - Lesser(n, used)..])
    }
  }

  function Fresh(size: nat): (c: Cells)
    ensures c.used == 0 && |c.slots| == size
  {
    Cells(seq(size, i => 0), 0)
  }

  // live is what the live prefix should be after the first k items of the run have been merged
  // into view.
  ghost predicate Merged(view: seq<int>, run: seq<int>, k: nat, live: seq<int>) {
    && k <= |run| && |live| == |view| + k
    && Sorted(live)
    && multiset(live) == multiset(view) + multiset(run[..k])
  }

  lemma MergeStarts(view: seq<int>, run: seq<int>)
    requires Sorted(view)
    ensures Merged(view, run, 0, view)
  {
    assert run[..0] == [];
  }

  lemma BothBelow(s: seq<int>, run: seq<int>, x: int)
    requires Sorted(run) && run != [] && AllBelow(s, run[0]) && run[|run| - 1] < x
    ensures AllBelow(s + run, x)
  {
    assert forall i :: 0 <= i < |run| ==> run[i] <= run[|run| - 1];
  }

  // One pass moves the items [from, to) in at lb. It leaves nothing before the advanced iterator
  // that the next item could have to go in front of.
  lemma PassKeepsMerged(view: seq<int>, run: seq<int>, from: nat, to: nat, live: seq<int>, lb: nat)
    requires Merged(view, run, from, live) && Sorted(run)
    requires from < to <= |run| && lb < |live|
    requires IsLowerBound(live, lb, run[from]) && run[to - 1] <= live[lb]
    ensures Merged(view, run, to, live[..lb] + run[from..to] + live[lb..])
    ensures Sorted(live[..lb] + run[from..to] + live[lb..])
    ensures to < |run| && live[lb] < run[to] ==> AllBelow(live[..lb] + run[from..to], run[to])
  {
    hide Sorted, IsLowerBound;
    SortedSlice(run, from, to);
    RunFits(live, lb, run[from..to]);
    SliceMultiset(run[..to], from);
    assert run[..to][..from] == run[..from] && run[..to][from..] == run[from..to];
    if to < |run| && live[lb] < run[to] {
      LowerBoundIsAbove(live, lb, run[from]);
      BothBelow(live[..lb], run[from..to], run[to]);
    }
  }

  lemma RotatePlacesRun(live: seq<int>, run: seq<int>, rest: seq<int>, lb: nat)
    requires lb <= |live|
    ensures Rotated(live + run + rest, lb, |live|, |live| + |run|) == live[..lb] + run + live[lb..] + rest
  {
    var s := live + run + rest;
    assert s[..lb] == live[..lb];
    assert s[|live|..|live| + |run|] == run;
    assert s[lb..|live|] == live[lb..];
    assert s[|live| + |run|..] == rest;
  }

  // A batch that fits adds exactly its items, and touches no slot behind the new live prefix.
  lemma BatchIsSorted(c: Cells, xs: seq<int>)
    requires c.Valid() && c.used + |xs| <= |c.slots|
    ensures var d := c.AfterSetRange(xs);
            && d.Valid() && |d.slots| == |c.slots| && d.used == c.used + |xs|
            && multiset(d.View()) == multiset(c.View()) + multiset(xs)
            && d.slots[d.used..] == c.slots[d.used..]
  {
    var live := SortedOf(multiset(c.View()) + multiset(xs));
    assert |live| == |c.View()| + |xs|;
    assert c.AfterSetRange(xs).View() == live;
  }

  // Once the next item, if there is one, is above every live element, the rest goes behind.
  lemma RestIsSorted(view: seq<int>, run: seq<int>, k: nat, live: seq<int>)
    requires Sorted(run) && Merged(view, run, k, live)
    requires k < |run| ==> AllBelow(live, run[k])
    ensures live + run[k..] == SortedOf(multiset(view) + multiset(run))
  {
    SortedJoin(live, run[k..]);
    SliceMultiset(run, k);
    assert multiset(live + run[k..]) == multiset(view) + multiset(run);
    SortedIsSortedOf(live + run[k..]);
  }

  lemma RestGoesLast(c: Cells, run: seq<int>, k: nat, live: seq<int>)
    requires c.Valid() && c.used + |run| <= |c.slots| && k <= |run| && |live| == c.used + k
    requires Sorted(run) && Merged(c.View(), run, k, live)
    requires k < |run| ==> AllBelow(live, run[k])
    ensures c.AfterSetRange(run).Valid()
    ensures c.AfterSetRange(run)
            == Cells(Overwritten(live + c.slots[c.used + k..], c.used + k, run[k..]), c.used + |run|)
  {
    hide Sorted, Merged;
    RestIsSorted(c.View(), run, k, live);
    BatchIsSorted(c, run);
    var rest := c.slots[c.used + k..];
    assert (live + rest)[..|live|] == live;
    assert (live + rest)[|live| + (|run| - k)..] == c.slots[c.used + |run|..];
  }

  // Searching only behind position q is exact when everything before it is below x.
  lemma ResumedSearchIsExact(s: seq<int>, q: nat, p: nat, x: int)
    requires q <= p <= |s| && AllBelow(s[..q], x)
    ensures IsLowerBound(s[q..], p - q, x) <==> IsLowerBound(s, p, x)
  {
    assert s[..p] == s[..q] + s[q..][..p - q];
    assert s[p..] == s[q..][p - q..];
  }

  // Where the inner loop stops: at the first item that exceeds the bound, or at the end. The item
  // it stops at has been read.
  function RunStop(run: seq<int>, from: nat, bound: int): (to: nat)
    requires from <= |run|
    ensures from <= to <= |run|
    ensures from < to ==> run[to - 1] <= bound
    ensures to < |run| ==> bound < run[to]
    decreases |run| - from
  {
    if from == |run| || bound < run[from] then from else RunStop(run, from + 1, bound)
  }

  // Whether the merge loop, about to merge the item at k, comes to read the item at the end.
  ghost predicate LoopReadsPastEnd(live: seq<int>, run: seq<int>, k: nat)
    requires k < |run|
    decreases |run| - k
  {
    var lb := LowerBoundOf(live, run[k]);
    lb < |live| &&
    var to := RunStop(run, k, live[lb]);
    to == |run| || LoopReadsPastEnd(live[..lb] + run[k..to] + live[lb..], run, to)
  }

  // Whether a batch insert reads an item past the last one: at once if the batch is empty.
  ghost predicate BatchReadsPastEnd(c: Cells, xs: seq<int>)
    requires c.used <= |c.slots|
  {
    c.used != 0 && (xs == [] || LoopReadsPastEnd(c.View(), SortedOf(multiset(xs)), 0))
  }

  lemma {:induction false} LoopReadsPastEndExactly(live: seq<int>, run: seq<int>, k: nat)
    requires Sorted(live) && Sorted(run) && live != [] && k < |run|
    ensures LoopReadsPastEnd(live, run, k) <==> run[|run| - 1] <= live[|live| - 1]
    decreases |run| - k
  {
    var lb := LowerBoundOf(live, run[k]);
    if lb < |live| {
      var to := RunStop(run, k, live[lb]);
      if to < |run| {
        var live' := live[..lb] + run[k..to] + live[lb..];
        SortedSlice(run, k, to);
        RunFits(live, lb, run[k..to]);
        assert live'[|live'| - 1] == live[|live| - 1];
        LoopReadsPastEndExactly(live', run, to);
      }
    } else {
      assert live[..lb] == live;
    }
  }

  // One pass of the loop as the method makes it.
  lemma PassOfLoop(live: seq<int>, run: seq<int>, k: nat, lb: nat)
    requires k < |run| && lb < |live| && IsLowerBound(live, lb, run[k])
    ensures var to := RunStop(run, k, live[lb]);
            LoopReadsPastEnd(live, run, k) <==>
            to == |run| || LoopReadsPastEnd(live[..lb] + run[k..to] + live[lb..], run, to)
  {
    LowerBoundIsUnique(live, lb, run[k]);
  }

  lemma LoopEnds(live: seq<int>, run: seq<int>, k: nat)
    requires k < |run| && AllBelow(live, run[k])
    ensures !LoopReadsPastEnd(live, run, k)
  {
    assert live[..|live|] == live;
    LowerBoundIsUnique(live, |live|, run[k]);
  }

  lemma LastIsGreatest(xs: seq<int>, run: seq<int>)
    requires Sorted(run) && multiset(run) == multiset(xs) && xs != []
    ensures run != [] && run[|run| - 1] in xs
    ensures forall x :: x in xs ==> x <= run[|run| - 1]
  {
    assert |run| == |multiset(run)| == |multiset(xs)| == |xs|;
    assert run[|run| - 1] in multiset(xs);
    forall x | x in xs
      ensures x <= run[|run| - 1]
    {
      assert x in multiset(run);
    }
  }

  // A batch insert reads past its items exactly when the array is not empty and none of the items
  // is above its largest element.
  lemma BatchReadsPastEndExactly(c: Cells, xs: seq<int>)
    requires c.Valid()
    ensures BatchReadsPastEnd(c, xs) <==> c.used != 0 && forall x :: x in xs ==> x <= c.View()[c.used - 1]
  {
    if c.used != 0 && xs != [] {
      var run := SortedOf(multiset(xs));
      LoopReadsPastEndExactly(c.View(), run, 0);
      LastIsGreatest(xs, run);
    }
  }

  // For one: 3 into an array that holds 5. And one that does not: 7 into the same array.
  lemma BatchReadsPastEndForSmallerItem()
    ensures BatchReadsPastEnd(Cells([5, 0], 1), [3])
    ensures !BatchReadsPastEnd(Cells([5, 0], 1), [7])
  {
    var c := Cells([5, 0], 1);
    assert c.View() == [5];
    BatchReadsPastEndExactly(c, [3]);
    BatchReadsPastEndExactly(c, [7]);
    assert 7 in [7];
  }

  // The order in which a batch lists its items does not matter.
  lemma BatchOrderIsIrrelevant(c: Cells, xs: seq<int>, ys: seq<int>)
    requires c.used + |xs| <= |c.slots| && multiset(xs) == multiset(ys)
    ensures |xs| == |ys| && c.AfterSetRange(xs) == c.AfterSetRange(ys)
  {
    assert |xs| == |multiset(xs)| == |multiset(ys)| == |ys|;
  }

  lemma BatchIntoEmpty(c: Cells, run: seq<int>)
    requires c.used == 0 && |run| <= |c.slots| && Sorted(run)
    ensures c.AfterSetRange(run) == Cells(Overwritten(c.slots, 0, run), |run|)
    ensures c.AfterSetRange(run).Valid()
  {
    SortedIsSortedOf(run);
    assert multiset(c.View()) + multiset(run) == multiset(run);
    BatchIsSorted(c, run);
  }

  // Writing the item behind the live prefix and rotating it down to its lower bound.
  lemma SetIsRotation(c: Cells, item: int, p: nat)
    requires c.Valid() && c.used < |c.slots| && IsLowerBound(c.View(), p, item)
    ensures Cells(Rotated(c.slots[c.used := item], p, c.used, c.used + 1), c.used + 1) == c.AfterSet(item)
    ensures c.AfterSet(item).Valid()
  {
    var was := c.slots[c.used := item];
    assert was[..c.used] == c.View() && was[c.used + 1..] == c.slots[c.used + 1..];
    RotateInserts(was, p, c.used);
  }

  // Clearing a range removes exactly that slice of the live prefix, and loses no slot.
  lemma ClearIsSliceDeletion(c: Cells, start: nat, stop: nat)
    requires c.Valid() && start <= Lesser(c.used, stop)
    ensures var d := c.AfterClear(start, stop);
            && d.Valid()
            && d.View() == c.View()[..start] + c.View()[Lesser(c.used, stop)..]
            && multiset(d.slots) == multiset(c.slots)
            && multiset(d.View()) + multiset(c.View()[start..Lesser(c.used, stop)]) == multiset(c.View())
  {
    var pivot, view := Lesser(c.used, stop), c.View();
    assert c.AfterClear(start, stop).View() == view[..start] + view[pivot..];
    SortedJoin(view[..start], view[pivot..]);
    DeletedSliceMultiset(view, start, pivot);
    DeletedSliceMultiset(c.slots, start, pivot);
  }

  // Rotating the slice out is the clear; for the whole buffer there is nothing to rotate.
  lemma ClearIsRotation(c: Cells, start: nat, stop: nat)
    requires c.Valid() && start <= Lesser(c.used, stop)
    ensures var pivot := Lesser(c.used, stop);
            && c.AfterClear(start, stop).Valid()
            && c.AfterClear(start, stop)
               == Cells(Rotated(c.slots, start, pivot, |c.slots|), c.used - (pivot - start))
            && (start == 0 && pivot == |c.slots| ==> c.AfterClear(start, stop).slots == c.slots)
  {
    ClearIsSliceDeletion(c, start, stop);
    var s := c.slots;
    assert s[|s|..] == [] && s[..0] == [] && s[0..|s|] == s;
  }

  lemma AppendOne(live: seq<int>, items: seq<int>, k: nat, end: nat, rest: seq<int>)
    requires k <= end < |items| && end - k < |rest|
    ensures (live + items[k..end] + rest[end - k..])[|live| + (end - k) := items[end]]
            == live + items[k..end + 1] + rest[end + 1 - k..]
  {
  }

  class SortedArray {
    const buf: array<int>
    const size: nat
    var used: nat

    ghost predicate Valid()
      reads this, buf
    {
      buf.Length == size && State().Valid()
    }

    ghost function State(): Cells
      reads this, buf
    {
      Cells(buf[..], used)
    }

    constructor (size: nat)
      ensures Valid() && fresh(buf) && this.size == size
      ensures State() == Fresh(size)
    {
      buf := new int[size](i => 0);
      this.size := size;
      used := 0;
      new;
      assert buf[..] == Fresh(size).slots;
    }

    static predicate IsRequestedSizeValid(size: nat, maxCapacity: nat) {
      1 <= size <= maxCapacity
    }

    predicate IsInBounds(pos: nat)
      reads this
    {
      pos < size
    }

    predicate IsFull()
      reads this
    {
      used >= size
    }

    predicate IsEmpty()
      reads this
    {
      used == 0
    }

    predicate HasCapacity(n: nat)
      reads this
    {
      used + n <= size
    }

    method Set(item: int)
      requires Valid() && !IsFull()
      modifies this`used, buf
      ensures Valid() && State() == old(State()).AfterSet(item)
    {
      hide Rotated, Cells.AfterSet;
      ghost var c := State();
      buf[used] := item;
      assert buf[..] == c.slots[used := item];
      assert buf[0..used] == c.View();
      var p := LowerBound(buf, 0, used, item);
      SetIsRotation(c, item, p);
      Rotate(buf, p, used, used + 1);
      used := used + 1;
    }

    // Reads the item at k. Past the last one there is none: whatever is read there is not known.
    method ReadItem(items: array<int>, k: nat) returns (item: int, ghost pastEnd: bool)
      requires k <= items.Length
      ensures pastEnd <==> k == items.Length
      ensures !pastEnd ==> item == items[k]
    {
      pastEnd := k == items.Length;
      if k < items.Length {
        item := items[k];
      } else {
        item := *;
      }
    }

    // One pass of the merge: appends items from position k on behind the live prefix as long as
    // they do not exceed the element at lb, then rotates them into place in front of it. Each item
    // is compared before it is known not to be the end.
    method MoveRunIn(items: array<int>, k: nat, lb: nat, ghost live: seq<int>, ghost rest: seq<int>)
      returns (end: nat, ghost pastEnd: bool)
      requires items != buf && buf[..] == live + rest && |live| == used
      requires lb < used && k < items.Length && items.Length - k <= |rest|
      requires Sorted(items[..]) && items[k] <= buf[lb]
      modifies this`used, buf
      ensures k < end <= items.Length && used == old(used) + (end - k)
      ensures buf[..] == live[..lb] + items[..][k..end] + live[lb..] + rest[end - k..]
      ensures end == RunStop(items[..], k, live[lb])
      ensures pastEnd <==> end == items.Length
    {
      hide Rotated, Sorted;
      end := k;
      var i := used;
      ghost var run := items[..];
      assert live + run[k..k] + rest[0..] == live + rest;
      assert buf[..][lb] == buf[lb];
      var item;
      item, pastEnd := ReadItem(items, end);
      while item <= buf[lb] && end != items.Length
        invariant k <= end <= items.Length && i == used + (end - k) && used == |live|
        invariant (pastEnd <==> end == items.Length) && (!pastEnd ==> item == run[end])
        invariant RunStop(run, k, live[lb]) == RunStop(run, end, live[lb])
        invariant buf[..] == live + run[k..end] + rest[end - k..]
        invariant items[..] == run
        decreases items.Length - end
      {
        AppendOne(live, run, k, end, rest);
        assert buf[..][lb] == buf[lb];
        buf[i] := item;
        i, end := i + 1, end + 1;
        item, pastEnd := ReadItem(items, end);
      }
      assert buf[..][lb] == buf[lb];
      Rotate(buf, lb, used, i);
      RotatePlacesRun(live, run[k..end], rest[end - k..], lb);
      used := i;
    }

    // The merge works in place, and resumes the search for the next item behind the last run. It
    // stops when the items are used up or the next one is above every live element.
    method Merge(items: array<int>) returns (k: nat, ghost live: seq<int>, ghost pastEnd: bool)
      requires Valid() && items != buf && HasCapacity(items.Length)
      requires used != 0 && Sorted(items[..])
      modifies this`used, buf
      ensures k <= items.Length && Merged(old(State()).View(), items[..], k, live)
      ensures used == |live| == old(used) + k && buf[..] == live + old(buf[..])[used..]
      ensures k < items.Length ==> AllBelow(live, items[k])
      ensures pastEnd <==> k == items.Length
      ensures pastEnd <==> items.Length == 0 || LoopReadsPastEnd(old(State()).View(), items[..], 0)
    {
      hide Sorted, Merged, IsLowerBound, LoopReadsPastEnd;
      ghost var c, run := State(), items[..];
      live, k := c.View(), 0;
      ghost var rest := c.slots[used..];
      var last := used;
      MergeStarts(live, run);
      assert buf[0..last] == live;
      var item;
      item, pastEnd := ReadItem(items, 0);
      var lb := LowerBound(buf, 0, last, item);
      while lb != last && k != items.Length
        invariant k <= items.Length && lb <= last <= used
        invariant Merged(c.View(), run, k, live) && |live| == used == c.used + k
        invariant buf[..] == live + rest && rest == c.slots[used..]
        invariant k != items.Length ==> last == used && IsLowerBound(live, lb, run[k])
        invariant pastEnd <==> k == items.Length
        invariant (items.Length == 0 || LoopReadsPastEnd(c.View(), run, 0))
                  <==> (k == items.Length || LoopReadsPastEnd(live, run, k))
        decreases items.Length - k
      {
        var from := k;
        LowerBoundIsNotBelow(live, lb, run[k]);
        k, pastEnd := MoveRunIn(items, k, lb, live, rest);
        PassKeepsMerged(c.View(), run, from, k, live, lb);
        PassOfLoop(live, run, from, lb);
        live, rest := live[..lb] + run[from..k] + live[lb..], rest[k - from..];
        if k != items.Length {
          last, lb := last + (k - from), lb + (k - from);
          ghost var q := lb;
          assert buf[lb..last] == live[lb..];
          SortedTail(live, lb);
          lb := LowerBound(buf, lb, last, items[k]);
          ResumedSearchIsExact(live, q, lb, items[k]);
        }
      }
      if k < items.Length {
        LowerBoundIsNotBelow(live, lb, run[k]);
        LoopEnds(live, run, k);
      }
    }

    method InsertSorted(items: array<int>) returns (ghost pastEnd: bool)
      requires Valid() && items != buf && HasCapacity(items.Length)
      requires used != 0 && Sorted(items[..])
      modifies this`used, buf
      ensures Valid() && State() == old(State()).AfterSetRange(items[..])
      ensures pastEnd <==> items.Length == 0 || LoopReadsPastEnd(old(State()).View(), items[..], 0)
    {
      hide Cells.AfterSetRange, Sorted, Merged, Overwritten, LoopReadsPastEnd;
      ghost var c, run, live := State(), items[..], [];
      var k;
      k, live, pastEnd := Merge(items);
      assert items[k..items.Length] == run[k..];
      RestGoesLast(c, run, k, live);
      Copy(items, k, items.Length, buf, used);
      used := used + (items.Length - k);
    }

    method SetRange(items: array<int>) returns (ghost pastEnd: bool)
      requires Valid() && items != buf && HasCapacity(items.Length)
      modifies this`used, buf, items
      ensures Valid() && State() == old(State()).AfterSetRange(old(items[..]))
      ensures pastEnd <==> BatchReadsPastEnd(old(State()), old(items[..]))
    {
      hide Cells.AfterSetRange, Sorted, Overwritten, LoopReadsPastEnd;
      ghost var c := State();
      Sort(items);
      BatchOrderIsIrrelevant(c, old(items[..]), items[..]);
      if used == 0 {
        Copy(items, 0, items.Length, buf, 0);
        used := used + items.Length;
        assert items[0..items.Length] == items[..];
        BatchIntoEmpty(c, items[..]);
        pastEnd := false;
      } else {
        pastEnd := InsertSorted(items);
      }
    }

    // Rotates the removed slice behind everything else, unless the whole buffer is cleared.
    method Clear(start: nat, stop: nat)
      requires Valid() && start <= Lesser(used, stop)
      modifies this`used, buf
      ensures Valid() && State() == old(State()).AfterClear(start, stop)
    {
      hide Rotated, Cells.AfterClear;
      ghost var c := State();
      ClearIsRotation(c, start, stop);
      var pivot := Lesser(used, stop);
      if start == 0 && pivot == size {
        used := 0;
      } else {
        Rotate(buf, start, pivot, size);
        used := used - (pivot - start);
      }
    }

    method GetRange(start: nat, stop: nat, maxRspSize: nat) returns (rsp: seq<int>)
      requires Valid() && start <= Lesser(Lesser(stop, used), maxRspSize)
      ensures rsp == State().Window(start, stop, maxRspSize)
    {
      var end := Lesser(Lesser(stop, used), maxRspSize);
      rsp := [];
      for i := start to end
        invariant rsp == buf[start..i]
      {
        rsp := rsp + [buf[i]];
      }
      assert buf[start..end] == buf[..used][start..end];
    }

    method Smallest(n: nat) returns (result: seq<int>)
      requires Valid()
      ensures result == State().Smallest(n)
    {
      var nValues := Lesser(n, used);
      result := [];
      for i := 0 to nValues
        invariant result == buf[..i]
      {
        result := result + [buf[i]];
      }
      assert buf[..nValues] == buf[..used][..nValues];
    }

    method FromPhysicalEnd(n: nat) returns (result: seq<int>)
      requires Valid()
      ensures result == State().FromPhysicalEnd(n)
    {
      var nValues := Lesser(n, used);
      result := [];
      for i := 0 to nValues
        invariant |result| == i
        invariant forall k :: 0 <= k < i ==> result[k] == buf[size - 1 - k]
      {
        result := result + [buf[size - 1 - i]];
      }
    }
  }
}
