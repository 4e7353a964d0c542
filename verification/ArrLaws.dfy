// What the operations of a sorted array promise about each other.
module ArrLaws {
  import opened Common
  import opened Slices
  import opened SortedSeq
  import opened ArrArray
  import opened ArrExecutor
  import opened ArrHandler

  ghost function SetAll(c: Cells, xs: seq<int>): Cells
    requires c.used + |xs| <= |c.slots|
    decreases |xs|
  {
    if xs == [] then c else SetAll(c.AfterSet(xs[0]), xs[1..])
  }

  lemma EmptyBatchChangesNothing(c: Cells, xs: seq<int>)
    requires c.Valid() && xs == []
    ensures c.AfterSetRange(xs) == c
  {
    SortedIsSortedOf(c.View());
    assert multiset(c.View()) + multiset(xs) == multiset(c.View());
    assert c.slots == c.View() + c.slots[c.used..];
  }

  lemma SetThenBatch(c: Cells, ys: seq<int>)
    requires c.Valid() && c.used + |ys| <= |c.slots| && ys != []
    ensures c.AfterSet(ys[0]).Valid() && |c.AfterSet(ys[0]).slots| == |c.slots|
    ensures c.AfterSet(ys[0]).used + |ys[1..]| <= |c.slots|
    ensures c.AfterSet(ys[0]).AfterSetRange(ys[1..]) == c.AfterSetRange(ys)
  {
    hide Inserted, Sorted;
    var d := c.AfterSet(ys[0]);
    InsertedIsSorted(c.View(), ys[0]);
    assert d.View() == Inserted(c.View(), ys[0]) by {
      assert |Inserted(c.View(), ys[0])| == |multiset(Inserted(c.View(), ys[0]))| == c.used + 1;
    }
    WithoutHead(ys);
    assert multiset(d.View()) + multiset(ys[1..]) == multiset(c.View()) + multiset(ys);
    assert d.slots[d.used + |ys[1..]|..] == c.slots[c.used + |ys|..];
  }

  // Setting items one by one, in any order, is setting them as one batch: the same live prefix and
  // the same slots behind it.
  lemma {:induction false} BatchEqualsSingles(c: Cells, xs: seq<int>, ys: seq<int>)
    requires c.Valid() && c.used + |xs| <= |c.slots| && multiset(xs) == multiset(ys)
    ensures |ys| == |xs| && SetAll(c, ys) == c.AfterSetRange(xs)
    decreases |ys|
  {
    BatchOrderIsIrrelevant(c, xs, ys);
    if ys == [] {
      EmptyBatchChangesNothing(c, xs);
    } else {
      var d := c.AfterSet(ys[0]);
      SetThenBatch(c, ys);
      BatchEqualsSingles(d, ys[1..], ys[1..]);
    }
  }

  // It does not matter which array of an intersection comes first.
  lemma IntersectCommutes(s: Arrays, a: string, b: string, lim: Limits)
    requires Bounded(s)
    ensures Answer(s, Intersect(a, b), lim) == Answer(s, Intersect(b, a), lim)
  {
    if a in s && b in s {
      var x, y := multiset(s[a].View()), multiset(s[b].View());
      assert x * y == y * x;
    }
  }

  predicate Inserts(cmd: Command) {
    cmd.On? && (cmd.op.Set? || cmd.op.SetRng?)
  }

  function RequestedBy(cmd: Command, name: string): multiset<int> {
    match cmd
    case On(n, Set(item)) => if n == name then multiset{item} else multiset{}
    case On(n, SetRng(items)) => if n == name then multiset(items) else multiset{}
    case _ => multiset{}
  }

  // The items that commands insert, or ask to, under a name.
  ghost function Requested(cmds: seq<Command>, name: string): multiset<int> {
    if cmds == [] then multiset{} else RequestedBy(cmds[0], name) + Requested(cmds[1..], name)
  }

  lemma InsertAdds(s: Arrays, cmd: Command, lim: Limits, name: string)
    requires WellFormed(s, lim) && Inserts(cmd) && Safe(s, cmd, lim)
    requires Answer(s, cmd, lim).st == Ok && name in s
    ensures WellFormed(Next(s, cmd, lim), lim) && name in Next(s, cmd, lim)
    ensures multiset(Next(s, cmd, lim)[name].View()) == multiset(s[name].View()) + RequestedBy(cmd, name)
  {
    NextKeepsWellFormed(s, cmd, lim);
    if cmd.name == name {
      var c := s[name];
      match cmd.op
      case Set(item) =>
        InsertedIsSorted(c.View(), item);
        assert c.AfterSet(item).View() == Inserted(c.View(), item) by {
          assert |Inserted(c.View(), item)| == |c.View()| + 1;
        }
      case SetRng(items) =>
        BatchIsSorted(c, items);
    }
  }

  // After any run of single and batch inserts that were all accepted, each array holds what it held
  // before and what was requested for it.
  lemma {:induction false} InsertsAddUp(s: Arrays, cmds: seq<Command>, lim: Limits, name: string)
    requires WellFormed(s, lim) && SafeRun(s, cmds, lim) && name in s
    requires forall cmd :: cmd in cmds ==> Inserts(cmd)
    requires forall r :: r in Answers(s, cmds, lim) ==> r.st == Ok
    ensures WellFormed(Run(s, cmds, lim), lim) && name in Run(s, cmds, lim)
    ensures multiset(Run(s, cmds, lim)[name].View()) == multiset(s[name].View()) + Requested(cmds, name)
    decreases |cmds|
  {
    hide Sorted, Next, Answer, Safe, RequestedBy, WellFormed;
    if cmds != [] {
      var rs := Answers(s, cmds, lim);
      assert rs[0] in rs && cmds[0] in cmds;
      assert rs[0] == Answer(s, cmds[0], lim);
      assert rs[1..] == Answers(Next(s, cmds[0], lim), cmds[1..], lim);
      assert forall r :: r in rs[1..] ==> r in rs;
      InsertAdds(s, cmds[0], lim, name);
      InsertsAddUp(Next(s, cmds[0], lim), cmds[1..], lim, name);
    }
  }

  // Whatever two arrays held, and whatever was inserted into them, item by item or in batches, in
  // whatever order: intersect answers with the sorted sequence that holds each item as often as the
  // array with fewer of them does.
  lemma IntersectOfInserts(s: Arrays, cmds: seq<Command>, lim: Limits, a: string, b: string)
    requires WellFormed(s, lim) && SafeRun(s, cmds, lim) && a != b && a in s && b in s
    requires forall cmd :: cmd in cmds ==> Inserts(cmd)
    requires forall r :: r in Answers(s, cmds, lim) ==> r.st == Ok
    ensures Bounded(Run(s, cmds, lim))
    ensures Answer(Run(s, cmds, lim), Intersect(a, b), lim)
            == Reply(Ok, SortedOf((multiset(s[a].View()) + Requested(cmds, a))
                                  * (multiset(s[b].View()) + Requested(cmds, b))))
  {
    InsertsAddUp(s, cmds, lim, a);
    InsertsAddUp(s, cmds, lim, b);
  }

  // min(n) answers the n smallest live elements, all of them if there are fewer.
  lemma SmallestAreSmallest(c: Cells, n: nat)
    requires c.Valid()
    ensures var r := c.Smallest(n);
            && |r| == Lesser(n, c.used) && Sorted(r)
            && multiset(r) <= multiset(c.View())
            && forall x, y :: x in multiset(r) && y in multiset(c.View()) - multiset(r) ==> x <= y
  {
    SplitOrders(c.View(), Lesser(n, c.used));
  }

  ghost function LargestOf(c: Cells, n: nat): seq<int>
    requires c.used <= |c.slots|
  {
    Backwards(c.View()[c.used - Lesser(n, c.used)..])
  }

  lemma {:induction false} BackwardsMultiset(s: seq<int>)
    ensures multiset(Backwards(s)) == multiset(s)
  {
    if s != [] {
      BackwardsMultiset(s[1..]);
      assert Backwards(s) == Backwards(s[1..]) + [s[0]];
      WithoutHead(s);
    }
  }

  // The n largest live elements, largest first.
  lemma LargestAreLargest(c: Cells, n: nat)
    requires c.Valid()
    ensures var r := LargestOf(c, n);
            && |r| == Lesser(n, c.used)
            && (forall i, j :: 0 <= i < j < |r| ==> r[j] <= r[i])
            && multiset(r) <= multiset(c.View())
            && forall x, y :: x in multiset(r) && y in multiset(c.View()) - multiset(r) ==> y <= x
  {
    var k := c.used - Lesser(n, c.used);
    var top := c.View()[k..];
    SplitOrders(c.View(), k);
    BackwardsMultiset(top);
  }

  lemma SlotsFromTheEnd(c: Cells, n: nat)
    requires c.used <= |c.slots|
    ensures |c.FromPhysicalEnd(n)| == if n < c.used then n else c.used
    ensures forall i :: 0 <= i < |c.FromPhysicalEnd(n)| ==> c.FromPhysicalEnd(n)[i] == c.slots[|c.slots| - 1 - i]
  {
  }

  lemma LiveSlotsFromTheEnd(c: Cells, n: nat)
    requires c.used <= |c.slots| && |c.slots| - c.used <= |c.FromPhysicalEnd(n)|
    ensures var r, dead := c.FromPhysicalEnd(n), |c.slots| - c.used;
            r[dead..] == LargestOf(c, |r| - dead)
  {
    SlotsFromTheEnd(c, n);
  }

  // What max answers for any array with live items: slot by slot from the end of the buffer. First
  // come the slots behind the live prefix, whatever is in them, and then the largest live elements.
  lemma MaxAnswersFromTheEnd(c: Cells, n: nat, maxRspSize: nat)
    requires c.Valid() && c.used != 0
    ensures var r, dead := OpReply(c, Op.Max(n), maxRspSize), |c.slots| - c.used;
            && r.st == Ok && |r.items| == (if n < c.used then n else c.used)
            && (forall i :: 0 <= i < |r.items| ==> r.items[i] == c.slots[|c.slots| - 1 - i])
            && (dead <= |r.items| ==>
                  && r.items[dead..] == LargestOf(c, |r.items| - dead)
                  && forall i, j :: dead <= i < j < |r.items| ==> r.items[j] <= r.items[i])
  {
    hide Cells.FromPhysicalEnd, LargestOf;
    var items, dead := c.FromPhysicalEnd(n), |c.slots| - c.used;
    assert OpReply(c, Op.Max(n), maxRspSize) == Reply(Ok, items);
    SlotsFromTheEnd(c, n);
    if dead <= |items| {
      LiveSlotsFromTheEnd(c, n);
      forall i, j | dead <= i < j < |items|
        ensures items[j] <= items[i]
      {
        assert c.View()[|c.slots| - 1 - j] <= c.View()[|c.slots| - 1 - i];
      }
    }
  }

  ghost predicate RestIsUnset(c: Cells) {
    c.used <= |c.slots| && forall i :: c.used <= i < |c.slots| ==> c.slots[i] == 0
  }

  lemma InsertKeepsRestUnset(s: Arrays, cmd: Command, lim: Limits, name: string)
    requires WellFormed(s, lim) && Safe(s, cmd, lim) && Inserts(cmd)
    requires name in s && RestIsUnset(s[name])
    ensures var t := Next(s, cmd, lim);
            && WellFormed(t, lim) && name in t && RestIsUnset(t[name])
            && |t[name].slots| == |s[name].slots|
  {
    hide Sorted;
    NextKeepsWellFormed(s, cmd, lim);
    if cmd.name == name {
      var c := s[name];
      match cmd.op
      case Set(item) =>
        if c.used < |c.slots| {
          var d := c.AfterSet(item);
          assert d.slots == Inserted(c.View(), item) + c.slots[c.used + 1..];
        }
      case SetRng(items) =>
        if c.used + |items| <= |c.slots| {
          BatchIsSorted(c, items);
          var d := c.AfterSetRange(items);
          assert forall i :: d.used <= i < |d.slots| ==> d.slots[i] == c.slots[d.used..][i - d.used];
        }
    }
  }

  lemma {:induction false} InsertsKeepRestUnset(s: Arrays, cmds: seq<Command>, lim: Limits, name: string)
    requires WellFormed(s, lim) && SafeRun(s, cmds, lim)
    requires forall cmd :: cmd in cmds ==> Inserts(cmd)
    requires name in s && RestIsUnset(s[name])
    ensures var t := Run(s, cmds, lim);
            && WellFormed(t, lim) && name in t && RestIsUnset(t[name])
            && |t[name].slots| == |s[name].slots|
    decreases |cmds|
  {
    hide Next, Safe, WellFormed, RestIsUnset;
    if cmds != [] {
      assert cmds[0] in cmds;
      InsertKeepsRestUnset(s, cmds[0], lim, name);
      InsertsKeepRestUnset(Next(s, cmds[0], lim), cmds[1..], lim, name);
    }
  }

  // Only windows and clears can get an iterator out of order: every run without them is safe.
  lemma {:induction false} OtherRunsAreSafe(s: Arrays, cmds: seq<Command>, lim: Limits)
    requires WellFormed(s, lim)
    requires forall cmd :: cmd in cmds && cmd.On? ==> !cmd.op.GetRng? && !cmd.op.Clear?
    ensures SafeRun(s, cmds, lim)
    decreases |cmds|
  {
    hide Next;
    if cmds != [] {
      assert cmds[0] in cmds;
      NextKeepsWellFormed(s, cmds[0], lim);
      OtherRunsAreSafe(Next(s, cmds[0], lim), cmds[1..], lim);
    }
  }

  // After nothing but inserts, accepted or not, into a new array, max answers an initial zero for
  // every slot that is not live before it comes to the items.
  lemma MaxOfNewArrayStartsWithZeros(s: Arrays, name: string, len: nat, cmds: seq<Command>, lim: Limits, n: nat)
    requires WellFormed(s, lim) && name !in s && 1 <= len <= lim.maxCapacity
    requires forall cmd :: cmd in cmds ==> Inserts(cmd)
    ensures SafeRun(s, [Create(name, len)] + cmds, lim)
    ensures var t := Run(s, [Create(name, len)] + cmds, lim);
            && name in t && t[name].used <= |t[name].slots| == len
            && var r := OpReply(t[name], Op.Max(n), lim.maxRspSize);
            && (t[name].used != 0 ==> r.st == Ok && |r.items| == if n < t[name].used then n else t[name].used)
            && forall i :: 0 <= i < len - t[name].used && i < |r.items| ==> r.items[i] == 0
  {
    var create := Create(name, len);
    OtherRunsAreSafe(s, [create] + cmds, lim);
    var s' := Next(s, create, lim);
    assert ([create] + cmds)[1..] == cmds;
    NextKeepsWellFormed(s, create, lim);
    InsertsKeepRestUnset(s', cmds, lim, name);
    var c := Run(s', cmds, lim)[name];
    if c.used != 0 {
      MaxAnswersFromTheEnd(c, n, lim.maxRspSize);
    }
  }

  // A batch of ones in a fresh array that it does not fill: max answers a slot that was never set.
  lemma MaxReadsUnsetSlots(size: nat, used: nat, n: nat)
    requires 0 < used < size && 0 < n
    ensures var c := Fresh(size).AfterSetRange(seq(used, i => 1));
            c.Valid() && |c.slots| == size && c.used == used && c.FromPhysicalEnd(n) != LargestOf(c, n)
  {
    var ones := seq(used, i => 1);
    var c := Fresh(size).AfterSetRange(ones);
    BatchIsSorted(Fresh(size), ones);
    assert LargestOf(c, n)[0] == c.View()[used - 1] == 1 by {
      assert c.View()[used - 1] in multiset(c.View());
      assert c.View()[used - 1] in ones;
    }
    assert c.FromPhysicalEnd(n)[0] == c.slots[size - 1] == 0 by {
      assert c.slots[size - 1] == c.slots[used..][size - 1 - used];
    }
  }

  // max(n) answers the n largest elements of every array of that size and fill exactly when the
  // array is full, or empty, or nothing was asked for.
  lemma MaxIsRightExactlyWhenFull(size: nat, used: nat, n: nat)
    requires used <= size
    ensures (forall c: Cells :: c.Valid() && |c.slots| == size && c.used == used ==>
               c.FromPhysicalEnd(n) == LargestOf(c, n))
            <==> used == size || used == 0 || n == 0
  {
    if used == size || used == 0 || n == 0 {
      forall c: Cells | c.Valid() && |c.slots| == size && c.used == used
        ensures c.FromPhysicalEnd(n) == LargestOf(c, n)
      {
        assert used == size ==> c.slots == c.View();
      }
    } else {
      MaxReadsUnsetSlots(size, used, n);
    }
  }

  lemma MaxOfAllReversesMin(c: Cells)
    requires c.Valid() && c.used == |c.slots|
    ensures c.FromPhysicalEnd(|c.slots|) == Backwards(c.Smallest(|c.slots|))
  {
    assert c.slots[0..] == c.slots[..|c.slots|];
  }

  // Reading an array page by page, from each cut point to the next.
  function Pages(c: Cells, cuts: seq<nat>, maxRspSize: nat): seq<int>
    requires c.used <= |c.slots|
    requires forall i :: 0 <= i < |cuts| - 1 ==> cuts[i] <= Lesser(Lesser(cuts[i + 1], c.used), maxRspSize)
  {
    if |cuts| < 2 then [] else
      c.Window(cuts[0], cuts[1], maxRspSize) + Pages(c, cuts[1..], maxRspSize)
  }

  lemma {:induction false} PagesJoinUp(c: Cells, cuts: seq<nat>, maxRspSize: nat)
    requires c.used <= |c.slots| && |cuts| >= 2
    requires forall i :: 0 <= i < |cuts| - 1 ==> cuts[i] <= Lesser(Lesser(cuts[i + 1], c.used), maxRspSize)
    ensures cuts[0] <= Lesser(Lesser(cuts[|cuts| - 1], c.used), maxRspSize)
    ensures Pages(c, cuts, maxRspSize) == c.Window(cuts[0], cuts[|cuts| - 1], maxRspSize)
    decreases |cuts|
  {
    if |cuts| > 2 {
      PagesJoinUp(c, cuts[1..], maxRspSize);
      assert cuts[1] == cuts[1..][0];
    }
  }

  // Because the response limit clamps the end position and not the length of a window, paging
  // reads the whole array exactly when the array holds no more than one response may.
  lemma PagingIsCompleteExactlyWithinLimit(c: Cells, cuts: seq<nat>, maxRspSize: nat)
    requires c.used <= |c.slots| && |cuts| >= 2 && cuts[0] == 0 && c.used <= cuts[|cuts| - 1]
    requires forall i :: 0 <= i < |cuts| - 1 ==> cuts[i] <= Lesser(Lesser(cuts[i + 1], c.used), maxRspSize)
    ensures Pages(c, cuts, maxRspSize) == c.View() <==> c.used <= maxRspSize
  {
    PagesJoinUp(c, cuts, maxRspSize);
    assert |Pages(c, cuts, maxRspSize)| == Lesser(c.used, maxRspSize);
  }

  // No window holds more items than the response limit, as documented (docs/docs/home/config.md:91).
  // It may hold fewer than the limit allows: it holds all that were asked for, up to the limit,
  // exactly when it starts at 0 or ends within the limit.
  lemma LimitCountsItemsExactlyFromStart(c: Cells, start: nat, stop: nat, maxRspSize: nat)
    requires c.used <= |c.slots| && start <= Lesser(Lesser(stop, c.used), maxRspSize)
    ensures |c.Window(start, stop, maxRspSize)| <= maxRspSize
    ensures c.Window(start, stop, maxRspSize)
            == c.View()[start..Lesser(Lesser(stop, c.used), start + maxRspSize)]
            <==> start == 0 || Lesser(stop, c.used) <= maxRspSize
  {
    var window := c.Window(start, stop, maxRspSize);
    var counted := c.View()[start..Lesser(Lesser(stop, c.used), start + maxRspSize)];
    assert |window| == |counted| <==> start == 0 || Lesser(stop, c.used) <= maxRspSize;
  }

  // For one: of three items, two are asked for and a response may have two, but it has one.
  lemma WindowHoldsFewer()
    ensures Cells([1, 2, 3], 3).Window(1, 3, 2) == [2]
    ensures Cells([1, 2, 3], 3).View()[1..Lesser(3, 1 + 2)] == [2, 3]
  {
    assert Cells([1, 2, 3], 3).View() == [1, 2, 3];
  }

  // clear is documented to lower the count of live items by the length of the range. It does exactly
  // when the range ends within the live prefix.
  lemma ClearCountsRangeExactlyWithinUsed(c: Cells, start: nat, stop: nat)
    requires c.Valid() && start <= Lesser(c.used, stop)
    ensures c.used - c.AfterClear(start, stop).used == stop - start <==> stop <= c.used
  {
  }

  // For one: clearing [0, 2) of an array with one item.
  lemma ClearCountsLess()
    ensures var c := Cells([5, 0], 1);
            c.Valid() && c.used - c.AfterClear(0, 2).used == 1 < 2 - 0
  {
  }

  // min and max are documented to fail for more values than there are. They fail for an empty array
  // only; the two agree exactly if the array has n values, or if it has none and n is not 0.
  lemma BoundsErrorIsAsDocumentedExactly(c: Cells, n: nat, op: Op, maxRspSize: nat)
    requires c.Valid() && (op == Op.Min(n) || op == Op.Max(n))
    ensures (OpReply(c, op, maxRspSize).st != Ok <==> c.used < n)
            <==> if c.used == 0 then n != 0 else n <= c.used
  {
  }

  // For one: the two smallest and the two largest of one value.
  lemma MoreThanThereAreIsNoError(maxRspSize: nat)
    ensures var c := Cells([5], 1);
            && c.Valid()
            && OpReply(c, Op.Min(2), maxRspSize) == Reply(Ok, [5])
            && OpReply(c, Op.Max(2), maxRspSize) == Reply(Ok, [5])
  {
  }

  // When an operation is refused, and with which status.
  lemma OperationStatuses(s: Arrays, name: string, op: Op, lim: Limits)
    requires Bounded(s) && Safe(s, On(name, op), lim)
    ensures var st := Answer(s, On(name, op), lim).st;
            var reversed := op.GetRng? && op.stop.Some? && op.stop.value < op.start;
            && (st == CommandSyntax <==> reversed)
            && (st == NotExist <==> !reversed && name !in s)
            && (st == Bounds <==>
                  && !reversed && name in s
                  && var c := s[name];
                  match op
                  case Set(_) => c.used == |c.slots|
                  case SetRng(items) => |c.slots| - c.used < |items|
                  case GetRng(start, _) => |c.slots| <= start
                  case Clear(start, _) => |c.slots| <= start
                  case Min(_) => c.used == 0
                  case Max(_) => c.used == 0)
            && st in {Ok, CommandSyntax, NotExist, Bounds}
  {
  }

  // A window of an ordered range holds the slots from start to end, where end is the least of the
  // number of live items, the response limit and the end of the range.
  lemma WindowIsAnswered(s: Arrays, name: string, start: nat, stop: Option<nat>, end: nat, lim: Limits)
    requires Bounded(s) && name in s && start < |s[name].slots| && start <= end
    requires end <= s[name].used && end <= lim.maxRspSize && (stop.Some? ==> end <= stop.value)
    requires end == s[name].used || end == lim.maxRspSize || stop == Some(end)
    ensures Safe(s, On(name, GetRng(start, stop)), lim)
    ensures Answer(s, On(name, GetRng(start, stop)), lim) == Reply(Ok, s[name].slots[start..end])
  {
    assert s[name].View()[start..end] == s[name].slots[start..end];
  }

  // Clearing takes the slots from start to end out of the live ones, where end is the lesser of the
  // number of live items and the end of the range.
  lemma ClearIsAnswered(s: Arrays, name: string, start: nat, stop: Option<nat>, end: nat, lim: Limits)
    requires WellFormed(s, lim) && name in s && start < |s[name].slots| && start <= end
    requires end <= s[name].used && (stop.Some? ==> end <= stop.value)
    requires end == s[name].used || stop == Some(end)
    ensures var clear := On(name, Clear(start, stop));
            && Safe(s, clear, lim) && Answer(s, clear, lim) == Reply(Ok, [])
            && var c, t := s[name], Next(s, clear, lim);
            && t.Keys == s.Keys && (forall n :: n in s && n != name ==> t[n] == s[n])
            && t[name].used == c.used - (end - start) <= |t[name].slots|
            && t[name].slots[..t[name].used] == c.slots[..start] + c.slots[end..c.used]
            && multiset(t[name].slots) == multiset(c.slots)
  {
    hide Sorted;
    var c := s[name];
    ClearIsSliceDeletion(c, start, StopOf(stop, |c.slots|));
    assert c.View()[..start] == c.slots[..start] && c.View()[end..] == c.slots[end..c.used];
  }

  // The guards of clear and of reading a window let every start below the size pass. For a range
  // without an end this is enough exactly if at most one slot is behind what the range may start at.
  lemma GuardsSufficeExactly(size: nat, used: nat, maxRspSize: nat)
    requires used <= size
    ensures (forall start: nat :: start < size ==> OpSafe(size, used, Clear(start, None), maxRspSize))
            <==> size <= used + 1
    ensures (forall start: nat :: start < size ==> OpSafe(size, used, GetRng(start, None), maxRspSize))
            <==> size <= Lesser(used, maxRspSize) + 1
  {
    if size > 0 {
      assert OpSafe(size, used, Clear(size - 1, None), maxRspSize) <==> size <= used + 1;
      assert OpSafe(size, used, GetRng(size - 1, None), maxRspSize) <==> size <= Lesser(used, maxRspSize) + 1;
    }
  }
}
