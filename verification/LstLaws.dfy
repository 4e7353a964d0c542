// What the list operations promise about each other, and what every run of them keeps.
module LstLaws {
  import opened Common
  import opened Slices
  import opened LstList
  import opened LstExecutor
  import opened LstHandler

  lemma InsertErased<T>(s: seq<T>, a: nat, b: nat)
    requires a <= b <= |s|
    ensures a <= |Erased(s, a, b)| && Inserted(Erased(s, a, b), a, s[a..b]) == s
  {
    assert Erased(s, a, b)[..a] == s[..a] && Erased(s, a, b)[a..] == s[b..];
  }

  // Moving a range into another list and back restores both lists.
  lemma SpliceIsInvertible<T>(src: seq<T>, dest: seq<T>, a: nat, b: nat, p: nat)
    requires a <= b <= |src| && p <= |dest|
    ensures var src', dest' := Erased(src, a, b), Inserted(dest, p, src[a..b]);
            && dest'[p..p + (b - a)] == src[a..b]
            && Inserted(src', a, dest'[p..p + (b - a)]) == src
            && Erased(dest', p, p + (b - a)) == dest
  {
    InsertErased(src, a, b);
    assert Inserted(dest, p, src[a..b])[p + (b - a)..] == dest[p..];
  }

  lemma SplicedSizes<T>(src: seq<T>, dest: seq<T>, a: nat, b: nat, p: nat)
    requires a <= b <= |src| && p <= |dest|
    ensures |Erased(src, a, b)| == |src| - (b - a) && |Inserted(dest, p, src[a..b])| == |dest| + (b - a)
  {
  }

  lemma RunOfTwo<T>(s: Lists<T>, c: Command<T>, d: Command<T>, maxRspSize: nat)
    requires Safe(s, c, maxRspSize) && Safe(Next(s, c, maxRspSize), d, maxRspSize)
    ensures SafeRun(s, [c, d], maxRspSize)
    ensures Run(s, [c, d], maxRspSize) == Next(Next(s, c, maxRspSize), d, maxRspSize)
  {
    var s1 := Next(s, c, maxRspSize);
    var s2 := Next(s1, d, maxRspSize);
    hide Safe, Next;
    assert [c, d][1..] == [d] && [d][1..] == [];
    assert SafeRun(s2, [], maxRspSize) && Run(s2, [], maxRspSize) == s2;
    assert SafeRun(s1, [d], maxRspSize) && Run(s1, [d], maxRspSize) == s2;
  }

  // The same as two commands to the handler: the second undoes the first.
  lemma SpliceCommandIsInvertible<T>(s: Lists<T>, x: string, y: string, a: nat, b: nat, p: nat, maxRspSize: nat)
    requires x != y && x in s && y in s && a <= b <= |s[x]| && p <= |s[y]|
    ensures var there := Command<T>.Splice(x, a, Some(b), y, Some(p));
            var back := Command<T>.Splice(y, p, Some(p + (b - a)), x, Some(a));
            SafeRun(s, [there, back], maxRspSize) && Run(s, [there, back], maxRspSize) == s
  {
    hide Inserted, Erased, SafeRun, Run;
    var there := Command<T>.Splice(x, a, Some(b), y, Some(p));
    var back := Command<T>.Splice(y, p, Some(p + (b - a)), x, Some(a));
    SpliceIsInvertible(s[x], s[y], a, b, p);
    var s1 := s[x := Erased(s[x], a, b)][y := Inserted(s[y], p, s[x][a..b])];
    assert |s1[x]| == |s[x]| - (b - a) && |s1[y]| == |s[y]| + (b - a) by {
      SplicedSizes(s[x], s[y], a, b, p);
    }
    assert Next(s, there, maxRspSize) == s1;
    assert Next(s1, back, maxRspSize) == s;
    RunOfTwo(s, there, back, maxRspSize);
  }

  lemma InsertedMultiset<T>(s: seq<T>, p: nat, xs: seq<T>)
    requires p <= |s|
    ensures multiset(Inserted(s, p, xs)) == multiset(s) + multiset(xs)
  {
    SliceMultiset(s, p);
  }

  lemma ErasedMultiset<T>(s: seq<T>, a: nat, b: nat)
    requires a <= b <= |s|
    ensures multiset(Erased(s, a, b)) + multiset(s[a..b]) == multiset(s)
  {
    DeletedSliceMultiset(s, a, b);
  }

  lemma InsertedBlock<T>(s: seq<T>, p: nat, xs: seq<T>)
    requires p <= |s|
    ensures var t := Inserted(s, p, xs);
            |t| == |s| + |xs| && t[p..p + |xs|] == xs && Erased(t, p, p + |xs|) == s
  {
    assert Inserted(s, p, xs)[p + |xs|..] == s[p..];
  }

  // Within one list a range moves as one block, and everything else keeps its order: taking the
  // block out before or after the move leaves the same nodes.
  lemma MoveKeepsBlockAndRest<T>(s: seq<T>, a: nat, b: nat, p: nat)
    requires a <= b <= |s| && p <= |s| && Outside(p, a, b)
    ensures var t, q := MovedWithin(s, a, b, p), Shifted(p, a, b);
            && |t| == |s| && q + (b - a) <= |t|
            && t[q..q + (b - a)] == s[a..b]
            && Erased(t, q, q + (b - a)) == Erased(s, a, b)
            && multiset(t) == multiset(s)
  {
    var rest, block, q := Erased(s, a, b), s[a..b], Shifted(p, a, b);
    MoveIsEraseThenInsert(s, a, b, p);
    ErasedMultiset(s, a, b);
    InsertedBlock(rest, q, block);
    InsertedMultiset(rest, q, block);
    assert |rest| + |block| == |s|;
    hide MovedWithin, Erased, Inserted, Shifted;
  }

  // Moving the block back in front of the node it stood before restores the list.
  lemma MoveWithinIsInvertible<T>(s: seq<T>, a: nat, b: nat, p: nat)
    requires a < b <= |s| && p <= |s| && Outside(p, a, b)
    ensures var t, q := MovedWithin(s, a, b, p), Shifted(p, a, b);
            var home := if p <= b then b else a;
            && q + (b - a) <= |t| == |s| && Outside(home, q, q + (b - a))
            && MovedWithin(t, q, q + (b - a), home) == s
  {
    hide MovedWithin, Erased, Inserted;
    var t, q := MovedWithin(s, a, b, p), Shifted(p, a, b);
    var home := if p <= b then b else a;
    MoveKeepsBlockAndRest(s, a, b, p);
    MoveIsEraseThenInsert(t, q, q + (b - a), home);
    InsertErased(s, a, b);
  }

  // A splice between two lists, the destination of which may be missing: the range leaves its list
  // and arrives in order and in one piece at the clamped position, by default at the end.
  lemma SpliceBetweenLists<T>(s: Lists<T>, x: string, y: string, start: nat, stop: Option<nat>, pos: Option<nat>,
                              maxRspSize: nat)
    requires x != y && x in s
    requires stop.Some? ==> start <= stop.value || |s[x]| <= stop.value
    ensures var cmd := Command<T>.Splice(x, start, stop, y, pos);
            && Safe(s, cmd, maxRspSize)
            && var from, to, t := s[x], if y in s then s[y] else [], Next(s, cmd, maxRspSize);
            var a := if start < |from| then start else |from|;
            var b := if stop.Some? && stop.value < |from| then stop.value else |from|;
            && t.Keys == s.Keys + {y} && (forall z :: z in s && z != x && z != y ==> t[z] == s[z])
            && t[x] == from[..a] + from[b..]
            && (pos.None? ==> t[y] == to + from[a..b])
            && (pos.Some? && |to| <= pos.value ==> t[y] == to + from[a..b])
            && (pos.Some? && pos.value <= |to| ==> t[y] == to[..pos.value] + from[a..b] + to[pos.value..])
  {
    var to := if y in s then s[y] else [];
    assert to[..|to|] == to;
  }

  // A splice within one list, to a position in front of the range or behind it: what is between the
  // range and the position changes places with the range.
  lemma SpliceWithinList<T>(s: Lists<T>, x: string, a: nat, b: nat, p: nat, maxRspSize: nat)
    requires x in s && a <= b <= |s[x]| && p <= |s[x]| && (p < a || b <= p)
    ensures var cmd, l := Command<T>.Splice(x, a, Some(b), x, Some(p)), s[x];
            && Safe(s, cmd, maxRspSize)
            && (p < a ==> Next(s, cmd, maxRspSize) == s[x := l[..p] + l[a..b] + l[p..a] + l[b..]])
            && (b <= p ==> Next(s, cmd, maxRspSize) == s[x := l[..a] + l[b..p] + l[a..b] + l[p..]])
  {
    if a == b && b <= p {
      assert s[x][..a] + s[x][b..p] + s[x][a..b] + s[x][p..] == s[x];
    }
  }

  // Without a position, the range of a list spliced into itself goes to its end. A range that ends
  // behind the list ends with it.
  lemma SpliceToSelfGoesToEnd<T>(s: Lists<T>, x: string, start: nat, stop: Option<nat>, maxRspSize: nat)
    requires x in s
    requires stop.Some? ==> start <= stop.value || |s[x]| <= stop.value
    ensures var cmd := Command<T>.Splice(x, start, stop, x, None);
            var a := if start < |s[x]| then start else |s[x]|;
            var b := if stop.Some? && stop.value < |s[x]| then stop.value else |s[x]|;
            && Safe(s, cmd, maxRspSize)
            && Next(s, cmd, maxRspSize) == s[x := s[x][..a] + s[x][b..] + s[x][a..b]]
  {
    var cmd := Command<T>.Splice(x, start, stop, x, None);
    var a, b := SpliceFirst(s[x], cmd), SpliceLast(s[x], cmd);
    assert MovedWithin(s[x], a, b, |s[x]|) == s[x][..a] + s[x][b..] + s[x][a..b];
  }

  // Added items stand in order and in one piece at the requested position, by default and at the
  // latest at the end; the answer is that position and the new length.
  lemma AddedAtPosition<T>(s: seq<T>, items: seq<T>, pos: Option<nat>, maxRspSize: nat)
    ensures var t := OpState(s, Add(items, pos), maxRspSize);
            var p := if pos.Some? && pos.value < |s| then pos.value else |s|;
            && t[..p] == s[..p] && t[p..p + |items|] == items && t[p + |items|..] == s[p..]
            && OpReply(s, Add(items, pos), maxRspSize) == Added(p, |t|)
  {
  }

  // Removing the range that add reports restores the list, wherever the items were asked to go.
  lemma AddThenRemove<T>(s: seq<T>, items: seq<T>, pos: Option<nat>, maxRspSize: nat)
    ensures var r := OpReply(s, Add(items, pos), maxRspSize);
            var remove := Remove(false, false, Some(Range(r.pos, Some(r.pos + |items|))));
            && OpSafe(OpState(s, Add(items, pos), maxRspSize), remove, maxRspSize)
            && OpState(OpState(s, Add(items, pos), maxRspSize), remove, maxRspSize) == s
  {
    var p := Clamp(StopOf(pos, |s|), |s|);
    var t := Inserted(s, p, items);
    assert t[0..|t| - 0] == t;
    assert Erased(t, p, p + |items|) == s;
  }

  // One combined remove is the three removals in turn.
  lemma CombinedRemoveIsInTurn<T>(s: seq<T>, head: bool, tail: bool, rng: Option<Range>, maxRspSize: nat)
    requires OpSafe(s, Remove(head, tail, rng), maxRspSize)
    ensures OpSafe(s, Remove(head, false, None), maxRspSize)
    ensures var s1 := OpState(s, Remove(head, false, None), maxRspSize);
            && OpSafe(s1, Remove(false, tail, None), maxRspSize)
            && var s2 := OpState(s1, Remove(false, tail, None), maxRspSize);
            && OpSafe(s2, Remove(false, false, rng), maxRspSize)
            && OpState(s2, Remove(false, false, rng), maxRspSize) == OpState(s, Remove(head, tail, rng), maxRspSize)
  {
    hide Erased;
    var s1 := OpState(s, Remove(head, false, None), maxRspSize);
    assert s1 == s[Head(head)..];
    var s2 := OpState(s1, Remove(false, tail, None), maxRspSize);
    assert s2 == s[Head(head)..|s| - Head(tail)];
    assert s2[0..|s2| - 0] == s2;
  }

  lemma ClampsOf(rng: Range, size: nat)
    requires rng.stop.Some? ==> rng.start <= rng.stop.value
    ensures Ordered(rng.start, rng.stop)
    ensures Clamp(rng.start, size) <= Clamp(StopOf(rng.stop, size), size)
    ensures Clamp(rng.start, size) == if rng.start < size then rng.start else size
    ensures Clamp(StopOf(rng.stop, size), size)
            == if rng.stop.Some? && rng.stop.value < size then rng.stop.value else size
  {
  }

  lemma SliceOfSlice<T>(s: seq<T>, h: nat, t: nat, a: nat, b: nat)
    requires h <= t <= |s| && a <= b <= t - h
    ensures Erased(s[h..t], a, b) == s[h..h + a] + s[h + b..t]
    ensures |Erased(s[h..t], a, b)| == t - h - (b - a)
  {
    assert s[h..t][..a] == s[h..h + a] && s[h..t][b..] == s[h + b..t];
  }

  lemma TrimmedAndErased<T>(s: seq<T>, head: bool, tail: bool, rng: Range, h: nat, len: nat, a: nat, b: nat)
    requires RemoveSafe(s, head, tail, Some(rng))
    requires h == Head(head) && len == |s| - h - Head(tail)
    requires a == Clamp(rng.start, len) && b == Clamp(StopOf(rng.stop, len), len)
    ensures a <= b && AfterRemove(s, head, tail, Some(rng)) == s[h..h + a] + s[h + b..h + len]
  {
    hide Erased, Clamp, StopOf;
    ClampsOf(rng, len);
    assert |s[h..h + len]| == len && h + len == |s| - Head(tail);
    SliceOfSlice(s, h, h + len, a, b);
  }

  // In terms of the original list, it keeps what is between the removed head and tail, which are len
  // elements from h on, without the clamped range; and it answers how much that is.
  lemma CombinedRemove<T>(s: seq<T>, head: bool, tail: bool, rng: Range, h: nat, len: nat, a: nat, b: nat,
                          maxRspSize: nat)
    requires h == (if head then 1 else 0) && h + len + (if tail then 1 else 0) == |s|
    requires rng.stop.Some? ==> rng.start <= rng.stop.value
    requires a == if rng.start < len then rng.start else len
    requires b == if rng.stop.Some? && rng.stop.value < len then rng.stop.value else len
    ensures OpSafe(s, Remove(head, tail, Some(rng)), maxRspSize)
    ensures OpState(s, Remove(head, tail, Some(rng)), maxRspSize) == s[h..h + a] + s[h + b..h + len]
    ensures OpReply(s, Remove(head, tail, Some(rng)), maxRspSize) == Removed(a + (len - b))
  {
    TrimmedAndErased(s, head, tail, rng, h, len, a, b);
    hide AfterRemove, Inserted, Overwritten, Clamp, StopOf;
  }

  lemma RemoveWithoutRange<T>(s: seq<T>, head: bool, tail: bool, maxRspSize: nat)
    requires (if head then 1 else 0) + (if tail then 1 else 0) <= |s|
    ensures OpSafe(s, Remove(head, tail, None), maxRspSize)
    ensures var t := OpState(s, Remove(head, tail, None), maxRspSize);
            && t == s[if head then 1 else 0..if tail then |s| - 1 else |s|]
            && OpReply(s, Remove(head, tail, None), maxRspSize) == Removed(|t|)
  {
  }

  // Overwriting from start on replaces the elements one by one, as many as there are items, but no
  // more than the list has, and keeps every other element where it is.
  lemma OverwritesInPlace<T>(s: seq<T>, start: nat, items: seq<T>, count: nat, maxRspSize: nat)
    requires start < |s| && start + count <= |s|
    requires count <= |s| && count <= |items| && (count == |s| || count == |items|)
    ensures OpSafe(s, SetRng(start, items), maxRspSize)
    ensures var t := OpState(s, SetRng(start, items), maxRspSize);
            && |t| == |s|
            && forall i :: 0 <= i < |s| ==> t[i] == if start <= i < start + count then items[i - start] else s[i]
  {
  }

  // Writing the old values to the same positions restores the list.
  lemma OverwriteIsInvertible<T>(s: seq<T>, start: nat, items: seq<T>, count: nat, maxRspSize: nat)
    requires start < |s| && start + count <= |s|
    requires count <= |s| && count <= |items| && (count == |s| || count == |items|)
    ensures OpSafe(s, SetRng(start, items), maxRspSize)
    ensures var t, back := OpState(s, SetRng(start, items), maxRspSize), SetRng(start, s[start..start + count]);
            && OpSafe(t, back, maxRspSize) && OpState(t, back, maxRspSize) == s
  {
  }

  // All nodes of all lists.
  ghost function Total<T>(s: Lists<T>): multiset<T> {
    if s == map[] then multiset{} else
      var name :| name in s;
      multiset(s[name]) + Total(s - {name})
  }

  lemma {:induction false} TotalWithout<T>(s: Lists<T>, name: string)
    requires name in s
    ensures Total(s) == multiset(s[name]) + Total(s - {name})
    decreases |s|
  {
    var first :| first in s && Total(s) == multiset(s[first]) + Total(s - {first});
    if first != name {
      TotalWithout(s - {first}, name);
      TotalWithout(s - {name}, first);
      assert s - {first} - {name} == s - {name} - {first};
    }
  }

  lemma TotalWith<T>(s: Lists<T>, name: string, items: seq<T>)
    ensures Total(s[name := items]) == Total(s - {name}) + multiset(items)
  {
    TotalWithout(s[name := items], name);
    assert s[name := items] - {name} == s - {name};
  }

  lemma TotalUpdated<T>(s: Lists<T>, name: string, items: seq<T>)
    ensures Total(s[name := items]) + (if name in s then multiset(s[name]) else multiset{})
            == Total(s) + multiset(items)
  {
    TotalWith(s, name, items);
    if name in s {
      TotalWithout(s, name);
    } else {
      assert s - {name} == s;
    }
  }

  // What a command brings in from its request. Overwriting counts the values that come and go: for
  // values it is exact, while the nodes themselves stay, so identities are followed through runs
  // without it.
  ghost function Brought<T>(s: Lists<T>, cmd: Command<T>): multiset<T> {
    match cmd
    case On(name, Add(items, _)) => if name in s then multiset(items) else multiset{}
    case On(name, SetRng(start, items)) =>
      if name in s && start < |s[name]| then multiset(items[..Lesser(|s[name]|, |items|)]) else multiset{}
    case _ => multiset{}
  }

  ghost function DroppedEnds<T>(s: seq<T>, head: bool, tail: bool): multiset<T>
    requires Head(head) + Head(tail) <= |s|
  {
    multiset(s[..Head(head)]) + multiset(s[|s| - Head(tail)..])
  }

  ghost function DroppedRange<T>(m: seq<T>, rng: Option<Range>): multiset<T>
    requires rng.Some? ==> Ordered(rng.value.start, rng.value.stop)
  {
    if rng.None? then multiset{} else
      multiset(m[Clamp(rng.value.start, |m|)..Clamp(StopOf(rng.value.stop, |m|), |m|)])
  }

  // The head, the tail, and the range of what is between them.
  ghost function DroppedByRemove<T>(s: seq<T>, head: bool, tail: bool, rng: Option<Range>): multiset<T>
    requires RemoveSafe(s, head, tail, rng)
  {
    DroppedEnds(s, head, tail) + DroppedRange(s[Head(head)..|s| - Head(tail)], rng)
  }

  // What a command throws away.
  ghost function Dropped<T>(s: Lists<T>, cmd: Command<T>, maxRspSize: nat): multiset<T>
    requires Safe(s, cmd, maxRspSize)
  {
    match cmd
    case Delete(name) => if name in s then multiset(s[name]) else multiset{}
    case DeleteAll => Total(s)
    case On(name, op) =>
      if name !in s || Malformed(op) then multiset{} else
        (match op
         case SetRng(start, items) =>
           if start < |s[name]| then multiset(s[name][start..start + Lesser(|s[name]|, |items|)]) else multiset{}
         case Remove(head, tail, rng) => DroppedByRemove(s[name], head, tail, rng)
         case _ => multiset{})
    case _ => multiset{}
  }

  // Facts about sums of multisets, with everything else out of sight.
  lemma SumsCancel<T>(total: multiset<T>, total': multiset<T>, same: multiset<T>)
    requires total' + same == total + same
    ensures total' == total
  {
    forall x
      ensures total'[x] == total[x]
    {
      assert (total' + same)[x] == (total + same)[x];
    }
  }

  lemma SumsOfRemove<T>(all: multiset<T>, trimmed: multiset<T>, ends: multiset<T>, kept: multiset<T>, cut: multiset<T>)
    requires trimmed + ends == all && kept + cut == trimmed
    ensures kept + (ends + cut) == all
  {
    forall x
      ensures (kept + (ends + cut))[x] == all[x]
    {
      assert (trimmed + ends)[x] == all[x] && (kept + cut)[x] == trimmed[x];
    }
  }

  lemma SumsOfUpdate<T>(total: multiset<T>, total': multiset<T>, old_: multiset<T>, new_: multiset<T>,
                        dropped: multiset<T>, brought: multiset<T>)
    requires total' + old_ == total + new_ && new_ + dropped == old_ + brought
    ensures total' + dropped == total + brought
  {
    forall x
      ensures (total' + dropped)[x] == (total + brought)[x]
    {
      assert (total' + old_)[x] == (total + new_)[x] && (new_ + dropped)[x] == (old_ + brought)[x];
    }
  }

  lemma SumsOfMove<T>(total: multiset<T>, total': multiset<T>, total'': multiset<T>, block: multiset<T>,
                      from: multiset<T>, from': multiset<T>, to: multiset<T>, to': multiset<T>)
    requires total' + from == total + from' && from' + block == from
    requires total'' + to == total' + to' && to' == to + block
    ensures total'' == total
  {
    forall x
      ensures total''[x] == total[x]
    {
      assert (total' + from)[x] == (total + from')[x] && (from' + block)[x] == from[x];
      assert (total'' + to)[x] == (total' + to')[x] && to'[x] == (to + block)[x];
    }
  }

  lemma SumsOfRun<T>(total: multiset<T>, total': multiset<T>, total'': multiset<T>, dropped: multiset<T>,
                     dropped': multiset<T>, brought: multiset<T>, brought': multiset<T>)
    requires total' + dropped == total + brought && total'' + dropped' == total' + brought'
    ensures total'' + (dropped + dropped') == total + (brought + brought')
  {
    forall x
      ensures (total'' + (dropped + dropped'))[x] == (total + (brought + brought'))[x]
    {
      assert (total' + dropped)[x] == (total + brought)[x];
      assert (total'' + dropped')[x] == (total' + brought')[x];
    }
  }

  lemma RangeConserves<T>(s: seq<T>, head: bool, tail: bool, rng: Option<Range>)
    requires RemoveSafe(s, head, tail, rng)
    ensures var m := s[Head(head)..|s| - Head(tail)];
            multiset(AfterRemove(s, head, tail, rng)) + DroppedRange(m, rng) == multiset(m)
  {
    hide Erased;
    var m := s[Head(head)..|s| - Head(tail)];
    if rng.Some? {
      ErasedMultiset(m, Clamp(rng.value.start, |m|), Clamp(StopOf(rng.value.stop, |m|), |m|));
    }
  }

  lemma TrimmedMultiset<T>(s: seq<T>, h: nat, t: nat)
    requires h <= t <= |s|
    ensures multiset(s[h..t]) + (multiset(s[..h]) + multiset(s[t..])) == multiset(s)
  {
    assert s == s[..h] + s[h..t] + s[t..];
  }

  lemma RemoveConserves<T>(s: seq<T>, head: bool, tail: bool, rng: Option<Range>)
    requires RemoveSafe(s, head, tail, rng)
    ensures multiset(AfterRemove(s, head, tail, rng)) + DroppedByRemove(s, head, tail, rng) == multiset(s)
  {
    hide AfterRemove, DroppedRange;
    var m := s[Head(head)..|s| - Head(tail)];
    TrimmedMultiset(s, Head(head), |s| - Head(tail));
    RangeConserves(s, head, tail, rng);
    SumsOfRemove(multiset(s), multiset(m), DroppedEnds(s, head, tail),
                 multiset(AfterRemove(s, head, tail, rng)), DroppedRange(m, rng));
  }

  lemma OverwrittenMultiset<T>(s: seq<T>, start: nat, xs: seq<T>)
    requires start <= |s| && start + Lesser(|s|, |xs|) <= |s|
    ensures multiset(Overwritten(s, start, xs)) + multiset(s[start..start + Lesser(|s|, |xs|)])
            == multiset(s) + multiset(xs[..Lesser(|s|, |xs|)])
  {
    TrimmedMultiset(s, start, start + Lesser(|s|, |xs|));
  }

  lemma OpConserves<T>(s: Lists<T>, cmd: Command<T>, maxRspSize: nat)
    requires cmd.On? && cmd.name in s && !Malformed(cmd.op) && Safe(s, cmd, maxRspSize)
    ensures multiset(OpState(s[cmd.name], cmd.op, maxRspSize)) + Dropped(s, cmd, maxRspSize)
            == multiset(s[cmd.name]) + Brought(s, cmd)
  {
    hide Overwritten, Inserted, AfterRemove, DroppedByRemove;
    var list := s[cmd.name];
    match cmd.op
    case Add(items, pos) => InsertedMultiset(list, Clamp(StopOf(pos, |list|), |list|), items);
    case SetRng(start, items) =>
      if start < |list| {
        OverwrittenMultiset(list, start, items);
      }
    case GetRng(_, _) =>
    case Remove(head, tail, rng) => RemoveConserves(list, head, tail, rng);
  }

  // A splice moves nodes; it neither makes nor loses any, even when it creates its destination.
  lemma SpliceConserves<T>(s: Lists<T>, cmd: Command<T>, maxRspSize: nat)
    requires cmd.Splice? && Safe(s, cmd, maxRspSize)
    ensures Total(Next(s, cmd, maxRspSize)) == Total(s)
  {
    hide MovedWithin, Erased, Inserted, Total;
    if cmd.src in s {
      var from := s[cmd.src];
      var a, b := SpliceFirst(from, cmd), SpliceLast(from, cmd);
      if cmd.src == cmd.dest {
        var p := SpliceAt(from, cmd);
        MoveKeepsBlockAndRest(from, a, b, p);
        TotalUpdated(s, cmd.src, MovedWithin(from, a, b, p));
        SumsCancel(Total(s), Total(Next(s, cmd, maxRspSize)), multiset(from));
      } else {
        var to := if cmd.dest in s then s[cmd.dest] else [];
        var p := SpliceAt(to, cmd);
        var s' := s[cmd.src := Erased(from, a, b)];
        TotalUpdated(s, cmd.src, Erased(from, a, b));
        TotalUpdated(s', cmd.dest, Inserted(to, p, from[a..b]));
        ErasedMultiset(from, a, b);
        InsertedMultiset(to, p, from[a..b]);
        SumsOfMove(Total(s), Total(s'), Total(Next(s, cmd, maxRspSize)), multiset(from[a..b]), multiset(from),
                   multiset(Erased(from, a, b)), multiset(to), multiset(Inserted(to, p, from[a..b])));
      }
    }
  }

  // No command both brings and drops, except overwriting, which brings what it writes. So what the
  // others bring or drop is the difference they make.
  lemma BringsOrDrops<T>(s: Lists<T>, cmd: Command<T>, maxRspSize: nat)
    requires Safe(s, cmd, maxRspSize)
    ensures !(cmd.On? && cmd.op.SetRng?) ==>
              Brought(s, cmd) == multiset{} || Dropped(s, cmd, maxRspSize) == multiset{}
    ensures cmd.On? && cmd.op.SetRng? ==>
              if cmd.name !in s || |s[cmd.name]| <= cmd.op.start then Brought(s, cmd) == multiset{}
              else if |cmd.op.items| <= |s[cmd.name]| then Brought(s, cmd) == multiset(cmd.op.items)
              else Brought(s, cmd) == multiset(cmd.op.items[..|s[cmd.name]|])
  {
    if cmd.On? && cmd.op.SetRng? && cmd.name in s && |cmd.op.items| <= |s[cmd.name]| {
      assert cmd.op.items[..|cmd.op.items|] == cmd.op.items;
    }
  }

  lemma OnConserves<T>(s: Lists<T>, cmd: Command<T>, maxRspSize: nat)
    requires cmd.On? && Safe(s, cmd, maxRspSize)
    ensures Total(Next(s, cmd, maxRspSize)) + Dropped(s, cmd, maxRspSize) == Total(s) + Brought(s, cmd)
  {
    hide OpState, Total;
    if cmd.name in s && !Malformed(cmd.op) {
      hide Dropped, Brought;
      var items := OpState(s[cmd.name], cmd.op, maxRspSize);
      OpConserves(s, cmd, maxRspSize);
      TotalUpdated(s, cmd.name, items);
      SumsOfUpdate(Total(s), Total(Next(s, cmd, maxRspSize)), multiset(s[cmd.name]), multiset(items),
                   Dropped(s, cmd, maxRspSize), Brought(s, cmd));
    }
  }

  lemma CommandConserves<T>(s: Lists<T>, cmd: Command<T>, maxRspSize: nat)
    requires Safe(s, cmd, maxRspSize)
    ensures Total(Next(s, cmd, maxRspSize)) + Dropped(s, cmd, maxRspSize) == Total(s) + Brought(s, cmd)
  {
    match cmd
    case Create(name) => TotalUpdated(s, name, []);
    case Delete(name) =>
      if name in s {
        TotalWithout(s, name);
      } else {
        assert s - {name} == s;
      }
    case DeleteAll =>
    case Splice(_, _, _, _, _) => SpliceConserves(s, cmd, maxRspSize);
    case On(_, _) => OnConserves(s, cmd, maxRspSize);
  }

  ghost function RunBrought<T>(s: Lists<T>, cmds: seq<Command<T>>, maxRspSize: nat): multiset<T>
    requires SafeRun(s, cmds, maxRspSize)
    decreases |cmds|
  {
    if cmds == [] then multiset{} else
      Brought(s, cmds[0]) + RunBrought(Next(s, cmds[0], maxRspSize), cmds[1..], maxRspSize)
  }

  ghost function RunDropped<T>(s: Lists<T>, cmds: seq<Command<T>>, maxRspSize: nat): multiset<T>
    requires SafeRun(s, cmds, maxRspSize)
    decreases |cmds|
  {
    if cmds == [] then multiset{} else
      Dropped(s, cmds[0], maxRspSize) + RunDropped(Next(s, cmds[0], maxRspSize), cmds[1..], maxRspSize)
  }

  // Whatever is in the lists after a run is what was there before and what the requests brought
  // in, without what was removed, overwritten or deleted.
  lemma {:induction false} RunConserves<T>(s: Lists<T>, cmds: seq<Command<T>>, maxRspSize: nat)
    requires SafeRun(s, cmds, maxRspSize)
    ensures Total(Run(s, cmds, maxRspSize)) + RunDropped(s, cmds, maxRspSize)
            == Total(s) + RunBrought(s, cmds, maxRspSize)
    decreases |cmds|
  {
    hide Next, Safe, Total, Dropped, Brought;
    if cmds != [] {
      var s' := Next(s, cmds[0], maxRspSize);
      CommandConserves(s, cmds[0], maxRspSize);
      RunConserves(s', cmds[1..], maxRspSize);
      SumsOfRun(Total(s), Total(s'), Total(Run(s', cmds[1..], maxRspSize)),
                Dropped(s, cmds[0], maxRspSize), RunDropped(s', cmds[1..], maxRspSize),
                Brought(s, cmds[0]), RunBrought(s', cmds[1..], maxRspSize));
    }
  }

  lemma TwiceInSequence<T>(s: seq<T>, x: T, i: nat, j: nat)
    requires i < |s| && j < |s| && i != j && s[i] == x == s[j]
    ensures multiset(s)[x] >= 2
  {
    var k := if i < j then j else i;
    assert s == s[..k] + s[k..];
    assert x in s[..k] && x in s[k..];
  }

  lemma OnePlaceAtMost<T>(s: Lists<T>, x: T, m: string, n: string, i: nat, j: nat)
    requires m in s && i < |s[m]| && n in s && j < |s[n]|
    requires s[m][i] == x == s[n][j] && (m != n || i != j)
    ensures Total(s)[x] >= 2
  {
    TotalWithout(s, m);
    if m != n {
      TotalWithout(s - {m}, n);
      assert multiset(s[m])[x] >= 1 && multiset(s[n])[x] >= 1;
    } else {
      TwiceInSequence(s[m], x, i, j);
    }
  }

  // Nodes are never copied: when a node was brought in once at most, then after every run from
  // nothing it is at one place of one list at most.
  lemma NodesAreNeverCopied<T>(cmds: seq<Command<T>>, maxRspSize: nat, x: T, m: string, n: string, i: nat, j: nat)
    requires SafeRun(map[], cmds, maxRspSize) && RunBrought(map[], cmds, maxRspSize)[x] <= 1
    requires m in Run(map[], cmds, maxRspSize) && i < |Run(map[], cmds, maxRspSize)[m]|
    requires n in Run(map[], cmds, maxRspSize) && j < |Run(map[], cmds, maxRspSize)[n]|
    requires Run(map[], cmds, maxRspSize)[m][i] == x == Run(map[], cmds, maxRspSize)[n][j]
    ensures m == n && i == j
  {
    hide Run, RunBrought, RunDropped, SafeRun;
    var s := Run(map[], cmds, maxRspSize);
    RunConserves(map[], cmds, maxRspSize);
    assert Total<T>(map[]) == multiset{};
    assert Total(s)[x] <= (Total(s) + RunDropped(map[], cmds, maxRspSize))[x] <= 1;
    if m != n || i != j {
      OnePlaceAtMost(s, x, m, n, i, j);
    }
  }

  predicate Names<T>(cmd: Command<T>, name: string) {
    match cmd
    case Create(n) => n == name
    case Delete(n) => n == name
    case DeleteAll => true
    case Splice(src, _, _, dest, _) => src == name || dest == name
    case On(n, _) => n == name
  }

  // Commands that neither name a list nor splice from or to it leave it as it is.
  lemma {:induction false} RunLeavesOtherLists<T>(s: Lists<T>, cmds: seq<Command<T>>, maxRspSize: nat, name: string)
    requires SafeRun(s, cmds, maxRspSize)
    requires forall cmd :: cmd in cmds ==> !Names(cmd, name)
    ensures name in Run(s, cmds, maxRspSize) <==> name in s
    ensures name in s ==> Run(s, cmds, maxRspSize)[name] == s[name]
    decreases |cmds|
  {
    if cmds != [] {
      assert !Names(cmds[0], name);
      RunLeavesOtherLists(Next(s, cmds[0], maxRspSize), cmds[1..], maxRspSize, name);
    }
  }

  // The guard of overwriting lets every start inside the list pass, which is enough exactly if there
  // is at most one node to write; reading a window without an end has to stay within the limit.
  lemma GuardsSufficeExactly<T>(s: seq<T>, items: seq<T>, maxRspSize: nat)
    ensures (forall start: nat :: start < |s| ==> OpSafe(s, SetRng(start, items), maxRspSize))
            <==> |s| <= 1 || |items| <= 1
    ensures (forall start: nat :: start < |s| ==> OpSafe(s, Op<T>.GetRng(start, None), maxRspSize))
            <==> |s| <= maxRspSize + 1
  {
    if s != [] {
      assert OpSafe(s, SetRng(|s| - 1, items), maxRspSize) <==> |s| <= 1 || |items| <= 1;
      assert OpSafe(s, Op<T>.GetRng(|s| - 1, None), maxRspSize) <==> |s| <= maxRspSize + 1;
    }
  }

  // What create and delete leave of the lists, and how they are answered: with Ok exactly if they
  // change something. Deleting all lists is always answered with Ok.
  lemma CreateAndDelete<T>(s: Lists<T>, name: string, maxRspSize: nat)
    ensures var t := Next(s, Command<T>.Create(name), maxRspSize);
            && name in t && t[name] == (if name in s then s[name] else []) && t - {name} == s - {name}
            && Answer(s, Command<T>.Create(name), maxRspSize) == Reply.Status(if t == s then Duplicate else Ok)
    ensures var t := Next(s, Command<T>.Delete(name), maxRspSize);
            && name !in t && t == s - {name}
            && Answer(s, Command<T>.Delete(name), maxRspSize) == Reply.Status(if t == s then NotExist else Ok)
    ensures Next(s, Command<T>.DeleteAll, maxRspSize) == map[]
    ensures Answer(s, Command<T>.DeleteAll, maxRspSize) == Reply.Status(Ok)
  {
    var t := Next(s, Command<T>.Create(name), maxRspSize);
    assert name !in s ==> t != s;
    assert s - {name} == s <==> name !in s;
  }

  predicate Reversed<T>(op: Op<T>) {
    match op
    case GetRng(start, stop) => stop.Some? && stop.value < start
    case Remove(_, _, rng) => rng.Some? && rng.value.stop.Some? && rng.value.stop.value < rng.value.start
    case _ => false
  }

  // When an operation on a list is refused, and with which status. What is refused changes nothing.
  lemma OperationStatuses<T>(s: Lists<T>, name: string, op: Op<T>, maxRspSize: nat)
    requires Safe(s, On(name, op), maxRspSize)
    ensures var r := Answer(s, On(name, op), maxRspSize);
            && (r == Reply.Status(CommandSyntax) <==> Reversed(op))
            && (r == Reply.Status(NotExist) <==> !Reversed(op) && name !in s)
            && (r == Reply.Status(Bounds) <==> name in s && op.SetRng? && |s[name]| <= op.start)
            && (r.Status? ==> r.st in {Ok, CommandSyntax, NotExist, Bounds})
            && (r.Status? && r.st != Ok ==> Next(s, On(name, op), maxRspSize) == s)
  {
  }

  // A splice is answered with NotExist exactly if there is no source, and then creates no destination.
  lemma SpliceStatuses<T>(s: Lists<T>, cmd: Command<T>, maxRspSize: nat)
    requires cmd.Splice? && Safe(s, cmd, maxRspSize)
    ensures Answer(s, cmd, maxRspSize) == Reply.Status(if cmd.src in s then Ok else NotExist)
    ensures if cmd.src in s then cmd.dest in Next(s, cmd, maxRspSize) else Next(s, cmd, maxRspSize) == s
  {
  }

  // A window of an ordered range that starts inside the list holds the elements from start to end,
  // where end is the least of the length, the response limit and the end of the range. Behind the
  // list there is nothing to answer.
  lemma WindowIsAnswered<T>(s: Lists<T>, name: string, start: nat, stop: Option<nat>, end: nat, maxRspSize: nat)
    requires name in s && start < |s[name]| && start <= end
    requires end <= |s[name]| && end <= maxRspSize && (stop.Some? ==> end <= stop.value)
    requires end == |s[name]| || end == maxRspSize || stop == Some(end)
    ensures var get := On(name, Op<T>.GetRng(start, stop));
            Safe(s, get, maxRspSize) && Answer(s, get, maxRspSize) == Items(s[name][start..end])
  {
  }

  lemma WindowBehindListIsEmpty<T>(s: Lists<T>, name: string, start: nat, stop: Option<nat>, maxRspSize: nat)
    requires name in s && |s[name]| <= start && (stop.Some? ==> start <= stop.value)
    ensures var get := On(name, Op<T>.GetRng(start, stop));
            Safe(s, get, maxRspSize) && Answer(s, get, maxRspSize) == Items([])
  {
  }

  // In a run, each command meets the lists the commands before it left, and is answered for them.
  lemma {:induction false} CommandsRunInTurn<T>(s: Lists<T>, cmds: seq<Command<T>>, maxRspSize: nat, i: nat)
    requires SafeRun(s, cmds, maxRspSize) && i < |cmds|
    ensures SafeRun(s, cmds[..i], maxRspSize) && SafeRun(s, cmds[..i + 1], maxRspSize)
    ensures var before := Run(s, cmds[..i], maxRspSize);
            && Safe(before, cmds[i], maxRspSize)
            && Run(s, cmds[..i + 1], maxRspSize) == Next(before, cmds[i], maxRspSize)
            && Answers(s, cmds, maxRspSize)[i] == Answer(before, cmds[i], maxRspSize)
    decreases i
  {
    hide Next, Safe, Answer;
    if i == 0 {
      assert cmds[..1][1..] == [] && cmds[..0] == [];
      assert Run(Next(s, cmds[0], maxRspSize), cmds[..1][1..], maxRspSize) == Next(s, cmds[0], maxRspSize);
    } else {
      assert cmds[..i][1..] == cmds[1..][..i - 1] && cmds[..i + 1][1..] == cmds[1..][..i];
      CommandsRunInTurn(Next(s, cmds[0], maxRspSize), cmds[1..], maxRspSize, i - 1);
    }
  }

  predicate SafePage<T>(s: seq<T>, start: nat, stop: nat, maxRspSize: nat) {
    start <= stop && OpSafe(s, Op<T>.GetRng(start, Some(stop)), maxRspSize)
  }

  function Page<T>(s: seq<T>, start: nat, stop: nat, maxRspSize: nat): seq<T>
    requires SafePage(s, start, stop, maxRspSize)
  {
    OpReply(s, Op<T>.GetRng(start, Some(stop)), maxRspSize).items
  }

  predicate SafePages<T>(s: seq<T>, cuts: seq<nat>, maxRspSize: nat) {
    forall i :: 0 <= i < |cuts| - 1 ==> SafePage(s, cuts[i], cuts[i + 1], maxRspSize)
  }

  // Reading a list page by page, from each cut point to the next.
  function Pages<T>(s: seq<T>, cuts: seq<nat>, maxRspSize: nat): seq<T>
    requires SafePages(s, cuts, maxRspSize)
  {
    if |cuts| < 2 then [] else Page(s, cuts[0], cuts[1], maxRspSize) + Pages(s, cuts[1..], maxRspSize)
  }

  lemma TwoPagesJoinUp<T>(s: seq<T>, p: nat, q: nat, stop: nat, maxRspSize: nat)
    requires SafePage(s, p, q, maxRspSize) && SafePage(s, q, stop, maxRspSize)
    ensures SafePage(s, p, stop, maxRspSize)
    ensures Page(s, p, q, maxRspSize) + Page(s, q, stop, maxRspSize) == Page(s, p, stop, maxRspSize)
  {
  }

  // Consecutive pages are one page. A page that starts behind the list is empty.
  lemma {:induction false} PagesJoinUp<T>(s: seq<T>, cuts: seq<nat>, maxRspSize: nat)
    requires |cuts| >= 2 && SafePages(s, cuts, maxRspSize)
    ensures SafePage(s, cuts[0], cuts[|cuts| - 1], maxRspSize)
    ensures Pages(s, cuts, maxRspSize) == Page(s, cuts[0], cuts[|cuts| - 1], maxRspSize)
    decreases |cuts|
  {
    hide SafePage, Page;
    if |cuts| == 2 {
      assert Pages(s, cuts[1..], maxRspSize) == [];
    } else {
      PagesJoinUp(s, cuts[1..], maxRspSize);
      TwoPagesJoinUp(s, cuts[0], cuts[1], cuts[|cuts| - 1], maxRspSize);
    }
  }

  // The response limit clamps the end position here too: paging reads the whole list exactly when
  // the list is no longer than the limit.
  lemma PagingIsCompleteExactlyWithinLimit<T>(s: seq<T>, cuts: seq<nat>, maxRspSize: nat)
    requires |cuts| >= 2 && SafePages(s, cuts, maxRspSize)
    requires cuts[0] == 0 && |s| <= cuts[|cuts| - 1]
    ensures Pages(s, cuts, maxRspSize) == s <==> |s| <= maxRspSize
  {
    PagesJoinUp(s, cuts, maxRspSize);
    assert |Page(s, 0, cuts[|cuts| - 1], maxRspSize)| == Lesser(|s|, maxRspSize);
  }
}
