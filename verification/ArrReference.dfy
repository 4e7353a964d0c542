// The reference that the named sorted arrays refine: bounded bags of integers.
module ArrReference {
  import opened Common
  import opened SortedSeq
  import opened ArrArray
  import opened ArrExecutor
  import opened ArrHandler

  datatype Bag = Bag(cap: nat, items: multiset<int>)

  type Bags = map<string, Bag>

  ghost function BagOf(c: Cells): Bag
    requires c.used <= |c.slots|
  {
    Bag(|c.slots|, multiset(c.View()))
  }

  ghost function BagsOf(s: Arrays): Bags
    requires Bounded(s)
  {
    map name | name in s :: BagOf(s[name])
  }

  ghost function BagState(b: Bag, op: Op): Bag
    requires op.Clear? && op.start < b.cap ==> op.start <= Lesser(|b.items|, StopOf(op.stop, b.cap))
  {
    match op
    case Set(item) => if |b.items| < b.cap then b.(items := b.items + multiset{item}) else b
    case SetRng(items) => if |b.items| + |items| <= b.cap then b.(items := b.items + multiset(items)) else b
    case Clear(start, stop) =>
      if start < b.cap then
        b.(items := b.items - multiset(SortedOf(b.items)[start..Lesser(|b.items|, StopOf(stop, b.cap))]))
      else b
    case _ => b
  }

  // The reference leaves open what max answers for a bag that is neither full nor empty.
  ghost function BagReply(b: Bag, op: Op, maxRspSize: nat): Option<Reply>
    requires OpSafe(b.cap, |b.items|, op, maxRspSize)
  {
    var view := SortedOf(b.items);
    match op
    case Set(item) => Some(Reply(if |view| < b.cap then Ok else Bounds, []))
    case SetRng(items) => Some(Reply(if |view| + |items| <= b.cap then Ok else Bounds, []))
    case GetRng(start, stop) =>
      if start < b.cap then
        Some(Reply(Ok, view[start..Lesser(Lesser(StopOf(stop, b.cap), |view|), maxRspSize)]))
      else Some(Reply(Bounds, []))
    case Clear(start, _) => Some(Reply(if start < b.cap then Ok else Bounds, []))
    case Min(n) =>
      if view == [] then Some(Reply(Bounds, [])) else Some(Reply(Ok, view[..Lesser(n, |view|)]))
    case Max(n) =>
      if view == [] then Some(Reply(Bounds, []))
      else if |view| == b.cap then Some(Reply(Ok, Backwards(view[|view| - Lesser(n, |view|)..])))
      else None
  }

  ghost predicate BagSafe(bs: Bags, cmd: Command, lim: Limits) {
    cmd.On? && !Malformed(cmd.op) && cmd.name in bs ==>
      OpSafe(bs[cmd.name].cap, |bs[cmd.name].items|, cmd.op, lim.maxRspSize)
  }

  ghost function BagsNext(bs: Bags, cmd: Command, lim: Limits): Bags
    requires BagSafe(bs, cmd, lim)
  {
    match cmd
    case Create(name, len) =>
      if name !in bs && 1 <= len <= lim.maxCapacity then bs[name := Bag(len, multiset{})] else bs
    case Delete(name) => bs - {name}
    case DeleteAll => map[]
    case Intersect(_, _) => bs
    case On(name, op) => if Malformed(op) || name !in bs then bs else bs[name := BagState(bs[name], op)]
  }

  ghost function BagsReply(bs: Bags, cmd: Command, lim: Limits): Option<Reply>
    requires BagSafe(bs, cmd, lim)
  {
    match cmd
    case Create(name, len) =>
      Some(Reply(if name in bs then Duplicate else if 1 <= len <= lim.maxCapacity then Ok else Bounds, []))
    case Delete(_) => Some(Reply(Ok, []))
    case DeleteAll => Some(Reply(Ok, []))
    case Intersect(a, b) =>
      if a == b then Some(Reply(Duplicate, []))
      else if a !in bs || b !in bs then Some(Reply(NotExist, []))
      else Some(Reply(Ok, SortedOf(bs[a].items * bs[b].items)))
    case On(name, op) =>
      if Malformed(op) then Some(Reply(CommandSyntax, []))
      else if name !in bs then Some(Reply(NotExist, []))
      else BagReply(bs[name], op, lim.maxRspSize)
  }

  ghost predicate BagsSafeRun(bs: Bags, cmds: seq<Command>, lim: Limits)
    decreases |cmds|
  {
    cmds == [] || (BagSafe(bs, cmds[0], lim) && BagsSafeRun(BagsNext(bs, cmds[0], lim), cmds[1..], lim))
  }

  ghost function BagsRun(bs: Bags, cmds: seq<Command>, lim: Limits): Bags
    requires BagsSafeRun(bs, cmds, lim)
    decreases |cmds|
  {
    if cmds == [] then bs else BagsRun(BagsNext(bs, cmds[0], lim), cmds[1..], lim)
  }

  ghost function BagsReplies(bs: Bags, cmds: seq<Command>, lim: Limits): (rs: seq<Option<Reply>>)
    requires BagsSafeRun(bs, cmds, lim)
    ensures |rs| == |cmds|
    decreases |cmds|
  {
    if cmds == [] then []
    else [BagsReply(bs, cmds[0], lim)] + BagsReplies(BagsNext(bs, cmds[0], lim), cmds[1..], lim)
  }

  ghost predicate Matches(rs: seq<Reply>, expected: seq<Option<Reply>>) {
    |rs| == |expected| && forall i :: 0 <= i < |rs| && expected[i].Some? ==> rs[i] == expected[i].value
  }

  lemma ViewIsSortedOf(c: Cells)
    requires c.Valid()
    ensures c.View() == SortedOf(BagOf(c).items) && |BagOf(c).items| == c.used
  {
    SortedIsSortedOf(c.View());
  }

  // One operation on one array is the same operation on its bag.
  lemma OpStateRefines(c: Cells, op: Op, maxRspSize: nat)
    requires c.Valid() && OpSafe(|c.slots|, c.used, op, maxRspSize)
    ensures OpState(c, op, maxRspSize).Valid()
    ensures OpSafe(BagOf(c).cap, |BagOf(c).items|, op, maxRspSize)
    ensures BagOf(OpState(c, op, maxRspSize)) == BagState(BagOf(c), op)
  {
    ViewIsSortedOf(c);
    OpKeepsValid(c, op, maxRspSize);
    match op
    case Set(item) =>
      if c.used < |c.slots| {
        InsertedIsSorted(c.View(), item);
        assert c.AfterSet(item).View() == Inserted(c.View(), item);
      }
    case SetRng(items) =>
      if c.used + |items| <= |c.slots| {
        BatchIsSorted(c, items);
      }
    case Clear(start, stop) =>
      if start < |c.slots| {
        ClearIsSliceDeletion(c, start, StopOf(stop, |c.slots|));
      }
    case _ =>
  }

  lemma OpReplyRefines(c: Cells, op: Op, maxRspSize: nat)
    requires c.Valid() && OpSafe(|c.slots|, c.used, op, maxRspSize)
    ensures OpSafe(BagOf(c).cap, |BagOf(c).items|, op, maxRspSize)
    ensures BagReply(BagOf(c), op, maxRspSize).Some? ==>
              OpReply(c, op, maxRspSize) == BagReply(BagOf(c), op, maxRspSize).value
  {
    ViewIsSortedOf(c);
    if c.used == |c.slots| {
      assert c.View() == c.slots;
    }
  }

  lemma StateRefines(s: Arrays, cmd: Command, lim: Limits)
    requires WellFormed(s, lim) && Safe(s, cmd, lim)
    ensures WellFormed(Next(s, cmd, lim), lim) && BagSafe(BagsOf(s), cmd, lim)
    ensures BagsOf(Next(s, cmd, lim)) == BagsNext(BagsOf(s), cmd, lim)
  {
    hide Sorted, OpState, BagState, OpSafe;
    NextKeepsWellFormed(s, cmd, lim);
    if cmd.On? && !Malformed(cmd.op) && cmd.name in s {
      OpStateRefines(s[cmd.name], cmd.op, lim.maxRspSize);
    }
    if cmd.Create? {
      assert multiset(Fresh(cmd.len).View()) == multiset{};
    }
    assert BagsOf(Next(s, cmd, lim)) == BagsNext(BagsOf(s), cmd, lim);
  }

  // One command on the named arrays is the same command on their bags, answer included.
  lemma CommandRefines(s: Arrays, cmd: Command, lim: Limits)
    requires WellFormed(s, lim) && Safe(s, cmd, lim)
    ensures WellFormed(Next(s, cmd, lim), lim) && BagSafe(BagsOf(s), cmd, lim)
    ensures BagsOf(Next(s, cmd, lim)) == BagsNext(BagsOf(s), cmd, lim)
    ensures BagsReply(BagsOf(s), cmd, lim).Some? ==>
              Answer(s, cmd, lim) == BagsReply(BagsOf(s), cmd, lim).value
  {
    hide Sorted, Next, BagsNext, OpReply, BagReply, OpSafe;
    StateRefines(s, cmd, lim);
    if cmd.On? && !Malformed(cmd.op) && cmd.name in s {
      OpReplyRefines(s[cmd.name], cmd.op, lim.maxRspSize);
    }
  }

  // Every run of commands keeps every array sorted and within its bounds, ends in exactly the bags
  // the reference computes, and is answered as the reference answers.
  lemma {:induction false} RunRefines(s: Arrays, cmds: seq<Command>, lim: Limits)
    requires WellFormed(s, lim) && SafeRun(s, cmds, lim)
    ensures WellFormed(Run(s, cmds, lim), lim)
    ensures BagsSafeRun(BagsOf(s), cmds, lim)
    ensures BagsOf(Run(s, cmds, lim)) == BagsRun(BagsOf(s), cmds, lim)
    ensures Matches(Answers(s, cmds, lim), BagsReplies(BagsOf(s), cmds, lim))
    decreases |cmds|
  {
    hide Sorted, Safe, BagSafe, Next, BagsNext, Answer, BagsReply, WellFormed, BagsOf;
    if cmds != [] {
      CommandRefines(s, cmds[0], lim);
      RunRefines(Next(s, cmds[0], lim), cmds[1..], lim);
    }
  }

  predicate Names(cmd: Command, name: string) {
    match cmd
    case Create(n, _) => n == name
    case Delete(n) => n == name
    case DeleteAll => true
    case Intersect(_, _) => false
    case On(n, _) => n == name
  }

  // Commands on other names never reach an array, not even its slots behind the live prefix.
  lemma {:induction false} RunLeavesOtherNames(s: Arrays, cmds: seq<Command>, lim: Limits, name: string)
    requires SafeRun(s, cmds, lim)
    requires forall cmd :: cmd in cmds ==> !Names(cmd, name)
    ensures name in Run(s, cmds, lim) <==> name in s
    ensures name in s ==> Run(s, cmds, lim)[name] == s[name]
    decreases |cmds|
  {
    if cmds != [] {
      assert !Names(cmds[0], name);
      RunLeavesOtherNames(Next(s, cmds[0], lim), cmds[1..], lim, name);
    }
  }

  // As long as it is not deleted, an array keeps its capacity.
  lemma {:induction false} RunKeepsCapacity(s: Arrays, cmds: seq<Command>, lim: Limits, name: string)
    requires WellFormed(s, lim) && SafeRun(s, cmds, lim) && name in s
    requires Delete(name) !in cmds && DeleteAll !in cmds
    ensures name in Run(s, cmds, lim) && |Run(s, cmds, lim)[name].slots| == |s[name].slots|
    decreases |cmds|
  {
    if cmds != [] {
      NextKeepsWellFormed(s, cmds[0], lim);
      assert cmds[0] in cmds;
      if cmds[0].On? && !Malformed(cmds[0].op) && cmds[0].name == name {
        OpKeepsValid(s[name], cmds[0].op, lim.maxRspSize);
      }
      RunKeepsCapacity(Next(s, cmds[0], lim), cmds[1..], lim, name);
    }
  }

  // A command that is not answered with Ok has changed nothing.
  lemma RejectedChangesNothing(s: Arrays, cmd: Command, lim: Limits)
    requires WellFormed(s, lim) && Safe(s, cmd, lim)
    ensures Answer(s, cmd, lim).st != Ok ==> Next(s, cmd, lim) == s
  {
    if cmd.On? && !Malformed(cmd.op) && cmd.name in s && Answer(s, cmd, lim).st != Ok {
      assert OpState(s[cmd.name], cmd.op, lim.maxRspSize) == s[cmd.name];
    }
  }
}
