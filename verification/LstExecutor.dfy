// The operations of core/lst/LstExecutor.h on one list.
module LstExecutor {
  import opened Common
  import opened LstList

  datatype Range = Range(start: nat, stop: Option<nat>)

  datatype Op<T> =
    | Add(items: seq<T>, pos: Option<nat>)
    | SetRng(start: nat, items: seq<T>)
    | GetRng(start: nat, stop: Option<nat>)
    | Remove(head: bool, tail: bool, rng: Option<Range>)

  datatype Reply<T> =
    | Status(st: Common.Status)
    | Added(pos: nat, size: nat)
    | Items(items: seq<T>)
    | Removed(size: nat)

  function Head(head: bool): nat {
    if head then 1 else 0
  }

  predicate RemoveSafe<T>(s: seq<T>, head: bool, tail: bool, rng: Option<Range>) {
    Head(head) + Head(tail) <= |s| && (rng.Some? ==> Ordered(rng.value.start, rng.value.stop))
  }

  // The operations for which no iterator leaves its list: what the guards do not check.
  predicate OpSafe<T>(s: seq<T>, op: Op<T>, maxRspSize: nat) {
    match op
    case Add(_, _) => true
    case SetRng(start, items) => start < |s| ==> start + Lesser(|s|, |items|) <= |s|
    case GetRng(start, stop) => start < |s| ==> start <= Lesser(Lesser(StopOf(stop, |s|), |s|), maxRspSize)
    case Remove(head, tail, rng) => RemoveSafe(s, head, tail, rng)
  }

  // What is left of a list when its head, its tail and then a range have been removed.
  function AfterRemove<T>(s: seq<T>, head: bool, tail: bool, rng: Option<Range>): seq<T>
    requires RemoveSafe(s, head, tail, rng)
  {
    var trimmed := s[Head(head)..|s| - Head(tail)];
    if rng.None? then trimmed else
      Erased(trimmed, Clamp(rng.value.start, |trimmed|), Clamp(StopOf(rng.value.stop, |trimmed|), |trimmed|))
  }

  function OpState<T>(s: seq<T>, op: Op<T>, maxRspSize: nat): seq<T>
    requires OpSafe(s, op, maxRspSize)
  {
    match op
    case Add(items, pos) => Inserted(s, Clamp(StopOf(pos, |s|), |s|), items)
    case SetRng(start, items) => if start < |s| then Overwritten(s, start, items) else s
    case GetRng(_, _) => s
    case Remove(head, tail, rng) => AfterRemove(s, head, tail, rng)
  }

  function OpReply<T>(s: seq<T>, op: Op<T>, maxRspSize: nat): Reply<T>
    requires OpSafe(s, op, maxRspSize)
  {
    match op
    case Add(items, pos) => Added(Clamp(StopOf(pos, |s|), |s|), |s| + |items|)
    case SetRng(start, items) => Reply.Status(if start < |s| then Ok else Bounds)
    case GetRng(start, stop) =>
      Items(if start < |s| then s[start..Lesser(Lesser(StopOf(stop, |s|), |s|), maxRspSize)] else [])
    case Remove(head, tail, rng) => Removed(|AfterRemove(s, head, tail, rng)|)
  }

  // The range applies to what is left after the head and the tail have gone.
  method ExecuteRemove<T>(list: List<T>, head: bool, tail: bool, rng: Option<Range>) returns (r: Reply<T>)
    requires OpSafe(list.items, Remove(head, tail, rng), list.maxRspSize)
    modifies list
    ensures list.items == AfterRemove(old(list.items), head, tail, rng)
    ensures r == Removed(|list.items|)
  {
    ghost var s := list.items;
    if head {
      list.RemoveHead();
    }
    assert list.items == s[Head(head)..];
    if tail {
      list.RemoveTail();
    }
    assert list.items == s[Head(head)..|s| - Head(tail)];
    if rng.Some? {
      list.Remove(rng.value.start, StopOf(rng.value.stop, |list.items|));
    }
    r := Removed(|list.items|);
  }

  method Execute<T>(list: List<T>, op: Op<T>) returns (r: Reply<T>)
    requires OpSafe(list.items, op, list.maxRspSize)
    modifies list
    ensures list.items == OpState(old(list.items), op, list.maxRspSize)
    ensures r == OpReply(old(list.items), op, list.maxRspSize)
  {
    match op {
      case Add(items, pos) =>
        var at, size;
        if pos.Some? {
          at, size := list.Add(items, pos.value);
        } else {
          at, size := list.AddTail(items);
          assert old(list.items)[..at] + items + old(list.items)[at..] == old(list.items) + items;
        }
        r := Added(at, size);
      case SetRng(start, items) =>
        if !list.IsInbounds(start) {
          r := Reply.Status(Bounds);
        } else {
          list.SetRange(items, start);
          r := Reply.Status(Ok);
        }
      case GetRng(start, stop) =>
        if !list.IsInbounds(start) {
          r := Items([]);
        } else {
          var window := list.GetRange(start, StopOf(stop, |list.items|));
          r := Items(window);
        }
      case Remove(head, tail, rng) =>
        r := ExecuteRemove(list, head, tail, rng);
    }
  }
}
