// The linked list of core/lst/LstList.h. A list is the sequence of its nodes; the type of the
// nodes is left open, so everything below holds for the identities of nodes as well as for the
// values in them.
module LstList {
  import opened Common

  // An iterator for a position behind the end is the end.
  function Clamp(pos: nat, size: nat): (p: nat)
    ensures p <= size
  {
    Lesser(size, pos)
  }

  function Inserted<T>(s: seq<T>, p: nat, xs: seq<T>): seq<T>
    requires p <= |s|
  {
    s[..p] + xs + s[p..]
  }

  function Erased<T>(s: seq<T>, a: nat, b: nat): seq<T>
    requires a <= b <= |s|
  {
    s[..a] + s[b..]
  }

  // A position that std::list accepts for moving [a, b) within one list.
  predicate Outside(p: nat, a: nat, b: nat) {
    a == b || p < a || b <= p
  }

  // The nodes [a, b) moved in front of the node at p, which is not one of them.
  function MovedWithin<T>(s: seq<T>, a: nat, b: nat, p: nat): seq<T>
    requires a <= b <= |s| && p <= |s| && Outside(p, a, b)
  {
    if p <= a then s[..p] + s[a..b] + s[p..a] + s[b..]
    else if a == b then s
    else s[..a] + s[b..p] + s[a..b] + s[p..]
  }

  // Where the node in front of which [a, b) goes is found once [a, b) has been taken out.
  function Shifted(p: nat, a: nat, b: nat): nat
    requires a <= b
  {
    if b <= p then p - (b - a) else p
  }

  lemma MoveIsEraseThenInsert<T>(s: seq<T>, a: nat, b: nat, p: nat)
    requires a <= b <= |s| && p <= |s| && Outside(p, a, b)
    ensures Shifted(p, a, b) <= |Erased(s, a, b)|
    ensures Inserted(Erased(s, a, b), Shifted(p, a, b), s[a..b]) == MovedWithin(s, a, b, p)
  {
    var rest := Erased(s, a, b);
    if a == b {
      assert rest == s;
    } else if p < a {
      assert rest[..p] == s[..p] && rest[p..] == s[p..a] + s[b..];
    } else {
      assert rest[..p - (b - a)] == s[..a] + s[b..p] && rest[p - (b - a)..] == s[p..];
    }
  }

  function Overwritten<T>(s: seq<T>, start: nat, xs: seq<T>): seq<T>
    requires start <= |s| && start + Lesser(|s|, |xs|) <= |s|
  {
    s[..start] + xs[..Lesser(|s|, |xs|)] + s[start + Lesser(|s|, |xs|)..]
  }

  class List<T> {
    var items: seq<T>
    const maxRspSize: nat

    constructor (maxRspSize: nat)
      ensures items == [] && this.maxRspSize == maxRspSize
    {
      items := [];
      this.maxRspSize := maxRspSize;
    }

    predicate IsInbounds(pos: nat)
      reads this
    {
      pos < |items|
    }

    // Returns where the items went, and the new size.
    method Add(xs: seq<T>, pos: nat) returns (at: nat, size: nat)
      modifies this
      ensures items == Inserted(old(items), Clamp(pos, |old(items)|), xs)
      ensures at == Clamp(pos, |old(items)|) && size == |old(items)| + |xs|
    {
      at := Clamp(pos, |items|);
      items := items[..at] + xs + items[at..];
      size := |items|;
    }

    method AddTail(xs: seq<T>) returns (at: nat, size: nat)
      modifies this
      ensures items == old(items) + xs
      ensures at == |old(items)| && size == |old(items)| + |xs|
    {
      at, size := Add(xs, |items|);
      assert old(items)[..at] == old(items);
    }

    // Overwrites nodes in place, one after the other. The end of the range is not checked.
    method SetRange(xs: seq<T>, start: nat)
      requires start <= |items| && start + Lesser(|items|, |xs|) <= |items|
      modifies this
      ensures items == Overwritten(old(items), start, xs)
    {
      var count := Lesser(|items|, |xs|);
      for i := 0 to count
        invariant items == old(items)[..start] + xs[..i] + old(items)[start + i..]
      {
        items := items[start + i := xs[i]];
      }
    }

    method GetRange(start: nat, stop: nat) returns (result: seq<T>)
      requires Clamp(start, |items|) <= Lesser(Lesser(stop, |items|), maxRspSize)
      ensures result == items[Clamp(start, |items|)..Lesser(Lesser(stop, |items|), maxRspSize)]
    {
      var first, last := Clamp(start, |items|), Lesser(Lesser(stop, |items|), maxRspSize);
      result := [];
      for i := first to last
        invariant result == items[first..i]
      {
        result := result + [items[i]];
      }
    }

    method RemoveHead()
      requires items != []
      modifies this
      ensures [old(items)[0]] + items == old(items)
    {
      items := items[1..];
    }

    method RemoveTail()
      requires items != []
      modifies this
      ensures items + [old(items)[|old(items)| - 1]] == old(items)
    {
      items := items[..|items| - 1];
    }

    method Remove(start: nat, end: nat)
      requires Clamp(start, |items|) <= Clamp(end, |items|)
      modifies this
      ensures items == Erased(old(items), Clamp(start, |old(items)|), Clamp(end, |old(items)|))
    {
      if start == 0 && end == |items| {
        items := [];
      } else {
        items := items[..Clamp(start, |items|)] + items[Clamp(end, |items|)..];
      }
    }

    // Moves the nodes [srcStart, srcStop) of src in front of the node at pos; src may be this list.
    // The position is an iterator, so it stays at its node when nodes in front of it are moved.
    method Splice(pos: nat, src: List<T>, srcStart: nat, srcStop: nat)
      requires Clamp(srcStart, |src.items|) <= Clamp(srcStop, |src.items|)
      requires src == this ==>
                 Outside(Clamp(pos, |items|), Clamp(srcStart, |items|), Clamp(srcStop, |items|))
      modifies this, src
      ensures src != this ==>
                var a, b := Clamp(srcStart, |old(src.items)|), Clamp(srcStop, |old(src.items)|);
                && items == Inserted(old(items), Clamp(pos, |old(items)|), old(src.items)[a..b])
                && src.items == Erased(old(src.items), a, b)
      ensures src == this ==>
                items == MovedWithin(old(items), Clamp(srcStart, |old(items)|),
                                     Clamp(srcStop, |old(items)|), Clamp(pos, |old(items)|))
    {
      var p := Clamp(pos, |items|);
      var first, last := Clamp(srcStart, |src.items|), Clamp(srcStop, |src.items|);
      if src == this {
        MoveIsEraseThenInsert(items, first, last, p);
        p := Shifted(p, first, last);
      }
      var nodes := src.items[first..last];
      src.items := Erased(src.items, first, last);
      items := Inserted(items, p, nodes);
    }
  }
}
