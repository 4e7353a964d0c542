// The guarded operations of core/arr/ArrExecutor.h on one sorted array.
module ArrExecutor {
  import opened Common
  import opened SortedSeq
  import opened StdAlgorithms
  import opened ArrArray

  datatype Op =
    | Set(item: int)
    | SetRng(items: seq<int>)
    | GetRng(start: nat, stop: Option<nat>)
    | Clear(start: nat, stop: Option<nat>)
    | Min(n: nat)
    | Max(n: nat)

  datatype Reply = Reply(st: Status, items: seq<int>)

  // The operations for which no iterator of the array is out of order: what the guards do not check.
  // A cleared range must not start behind the live prefix, and a window must not start behind its own
  // clamped end. What a batch insert reads past its own items is not a matter of this predicate: a
  // safe operation may do it, and BatchReadsPastEnd says when.
  predicate OpSafe(size: nat, used: nat, op: Op, maxRspSize: nat) {
    match op
    case GetRng(start, stop) =>
      start < size ==> start <= Lesser(Lesser(StopOf(stop, size), used), maxRspSize)
    case Clear(start, stop) => start < size ==> start <= Lesser(used, StopOf(stop, size))
    case _ => true
  }

  ghost function OpState(c: Cells, op: Op, maxRspSize: nat): Cells
    requires c.used <= |c.slots| && OpSafe(|c.slots|, c.used, op, maxRspSize)
  {
    match op
    case Set(item) => if c.used >= |c.slots| then c else c.AfterSet(item)
    case SetRng(items) => if c.used + |items| <= |c.slots| then c.AfterSetRange(items) else c
    case Clear(start, stop) => if start < |c.slots| then c.AfterClear(start, StopOf(stop, |c.slots|)) else c
    case _ => c
  }

  ghost function OpReply(c: Cells, op: Op, maxRspSize: nat): Reply
    requires c.used <= |c.slots| && OpSafe(|c.slots|, c.used, op, maxRspSize)
  {
    match op
    case Set(item) => Reply(if c.used >= |c.slots| then Bounds else Ok, [])
    case SetRng(items) => Reply(if c.used + |items| <= |c.slots| then Ok else Bounds, [])
    case GetRng(start, stop) =>
      if start < |c.slots| then Reply(Ok, c.Window(start, StopOf(stop, |c.slots|), maxRspSize)) else Reply(Bounds, [])
    case Clear(start, stop) => Reply(if start < |c.slots| then Ok else Bounds, [])
    case Min(n) => if c.used == 0 then Reply(Bounds, []) else Reply(Ok, c.Smallest(n))
    case Max(n) => if c.used == 0 then Reply(Bounds, []) else Reply(Ok, c.FromPhysicalEnd(n))
  }

  // Every operation keeps the live prefix sorted and the capacity constant.
  lemma OpKeepsValid(c: Cells, op: Op, maxRspSize: nat)
    requires c.Valid() && OpSafe(|c.slots|, c.used, op, maxRspSize)
    ensures OpState(c, op, maxRspSize).Valid()
    ensures |OpState(c, op, maxRspSize).slots| == |c.slots|
  {
    match op
    case Set(item) =>
      if c.used < |c.slots| {
        InsertedIsSorted(c.View(), item);
        assert c.AfterSet(item).View() == Inserted(c.View(), item);
      }
    case SetRng(items) =>
      if c.used + |items| <= |c.slots| {
        BatchIsSorted(c, items);
      }
    case Clear(start, stop) =>
      if start < |c.slots| {
        ClearIsSliceDeletion(c, start, StopOf(stop, |c.slots|));
      }
    case _ =>
  }

  method Execute(a: SortedArray, op: Op, maxRspSize: nat) returns (r: Reply)
    requires a.Valid() && OpSafe(a.size, a.used, op, maxRspSize)
    modifies a`used, a.buf
    ensures a.Valid()
    ensures a.State() == OpState(old(a.State()), op, maxRspSize)
    ensures r == OpReply(old(a.State()), op, maxRspSize)
  {
    r := Reply(Ok, []);
    match op {
      case Set(item) =>
        if a.IsFull() {
          r := Reply(Bounds, []);
        } else {
          a.Set(item);
        }
      case SetRng(xs) =>
        if !a.HasCapacity(|xs|) {
          r := Reply(Bounds, []);
        } else {
          var items := new int[|xs|](i requires 0 <= i < |xs| => xs[i]);
          assert items[..] == xs;
          ghost var pastEnd := a.SetRange(items);
        }
      case GetRng(start, stop) =>
        if !a.IsInBounds(start) {
          r := Reply(Bounds, []);
        } else {
          var window := a.GetRange(start, StopOf(stop, a.size), maxRspSize);
          r := Reply(Ok, window);
        }
      case Clear(start, stop) =>
        if !a.IsInBounds(start) {
          r := Reply(Bounds, []);
        } else {
          a.Clear(start, StopOf(stop, a.size));
        }
      case Min(n) =>
        if a.IsEmpty() {
          r := Reply(Bounds, []);
        } else {
          var result := a.Smallest(n);
          r := Reply(Ok, result);
        }
      case Max(n) =>
        if a.IsEmpty() {
          r := Reply(Bounds, []);
        } else {
          var result := a.FromPhysicalEnd(n);
          r := Reply(Ok, result);
        }
    }
  }

  method Intersect(a: SortedArray, b: SortedArray) returns (r: Reply)
    requires a.Valid() && b.Valid()
    ensures r == Reply(Ok, SortedOf(multiset(a.State().View()) * multiset(b.State().View())))
  {
    assert a.buf[..a.used] == a.State().View() && b.buf[..b.used] == b.State().View();
    var result := SetIntersection(a.buf, a.used, b.buf, b.used);
    r := Reply(Ok, result);
  }
}
