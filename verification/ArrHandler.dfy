// The named sorted arrays of core/arr/ArrHandler.h.
module ArrHandler {
  import opened Common
  import opened SortedSeq
  import opened ArrArray
  import opened ArrExecutor

  datatype Command =
    | Create(name: string, len: nat)
    | Delete(name: string)
    | DeleteAll
    | Intersect(srcA: string, srcB: string)
    | On(name: string, op: Op)

  datatype Limits = Limits(maxCapacity: nat, maxRspSize: nat)

  // What the validators refuse before the name is looked up.
  predicate Malformed(op: Op) {
    op.GetRng? && !Ordered(op.start, op.stop)
  }

  type Arrays = map<string, Cells>

  ghost predicate Bounded(s: Arrays) {
    forall name :: name in s ==> s[name].used <= |s[name].slots|
  }

  ghost predicate WellFormed(s: Arrays, lim: Limits) {
    forall name :: name in s ==> s[name].Valid() && 1 <= |s[name].slots| <= lim.maxCapacity
  }

  ghost predicate Safe(s: Arrays, cmd: Command, lim: Limits) {
    cmd.On? && !Malformed(cmd.op) && cmd.name in s ==>
      OpSafe(|s[cmd.name].slots|, s[cmd.name].used, cmd.op, lim.maxRspSize)
  }

  ghost function Next(s: Arrays, cmd: Command, lim: Limits): Arrays
    requires Bounded(s) && Safe(s, cmd, lim)
  {
    match cmd
    case Create(name, len) => if name !in s && 1 <= len <= lim.maxCapacity then s[name := Fresh(len)] else s
    case Delete(name) => s - {name}
    case DeleteAll => map[]
    case Intersect(_, _) => s
    case On(name, op) =>
      if Malformed(op) || name !in s then s else s[name := OpState(s[name], op, lim.maxRspSize)]
  }

  ghost function Answer(s: Arrays, cmd: Command, lim: Limits): Reply
    requires Bounded(s) && Safe(s, cmd, lim)
  {
    match cmd
    case Create(name, len) =>
      Reply(if name in s then Duplicate else if 1 <= len <= lim.maxCapacity then Ok else Bounds, [])
    case Delete(_) => Reply(Ok, [])
    case DeleteAll => Reply(Ok, [])
    case Intersect(a, b) =>
      if a == b then Reply(Duplicate, [])
      else if a !in s || b !in s then Reply(NotExist, [])
      else Reply(Ok, SortedOf(multiset(s[a].View()) * multiset(s[b].View())))
    case On(name, op) =>
      if Malformed(op) then Reply(CommandSyntax, [])
      else if name !in s then Reply(NotExist, [])
      else OpReply(s[name], op, lim.maxRspSize)
  }

  lemma NextKeepsWellFormed(s: Arrays, cmd: Command, lim: Limits)
    requires WellFormed(s, lim) && Safe(s, cmd, lim)
    ensures WellFormed(Next(s, cmd, lim), lim)
  {
    if cmd.On? && !Malformed(cmd.op) && cmd.name in s {
      OpKeepsValid(s[cmd.name], cmd.op, lim.maxRspSize);
    }
  }

  ghost predicate SafeRun(s: Arrays, cmds: seq<Command>, lim: Limits)
    decreases |cmds|
  {
    cmds == [] ||
    (Bounded(s) && Safe(s, cmds[0], lim) && SafeRun(Next(s, cmds[0], lim), cmds[1..], lim))
  }

  ghost function Run(s: Arrays, cmds: seq<Command>, lim: Limits): Arrays
    requires SafeRun(s, cmds, lim)
    decreases |cmds|
  {
    if cmds == [] then s else Run(Next(s, cmds[0], lim), cmds[1..], lim)
  }

  ghost function Answers(s: Arrays, cmds: seq<Command>, lim: Limits): (rs: seq<Reply>)
    requires SafeRun(s, cmds, lim)
    ensures |rs| == |cmds|
    decreases |cmds|
  {
    if cmds == [] then [] else [Answer(s, cmds[0], lim)] + Answers(Next(s, cmds[0], lim), cmds[1..], lim)
  }

  class Handler {
    const lim: Limits
    var arrays: map<string, SortedArray>
    ghost var Repr: set<object>

    // The named arrays and their buffers are distinct objects, and nobody else's.
    ghost predicate Owned()
      reads this, Repr
    {
      && this in Repr
      && (forall n :: n in arrays ==>
            arrays[n] in Repr && arrays[n].buf in Repr && arrays[n].buf.Length == arrays[n].size)
      && (forall m, n :: m in arrays && n in arrays && m != n ==>
            arrays[m] != arrays[n] && arrays[m].buf != arrays[n].buf)
    }

    ghost predicate Valid()
      reads this, Repr
    {
      Owned() && WellFormed(Model(), lim)
    }

    ghost function Model(): Arrays
      requires Owned()
      reads this, Repr
    {
      map n | n in arrays :: arrays[n].State()
    }

    constructor (lim: Limits)
      ensures Valid() && fresh(Repr) && this.lim == lim
      ensures Model() == map[]
    {
      this.lim := lim;
      arrays := map[];
      Repr := {this};
    }

    method Emplace(name: string, a: SortedArray)
      requires Owned() && name !in arrays
      requires a !in Repr && a.buf !in Repr && a.buf.Length == a.size
      modifies this
      ensures Owned() && Repr == old(Repr) + {a, a.buf}
      ensures Model() == old(Model())[name := a.State()]
    {
      arrays := arrays[name := a];
      Repr := Repr + {a, a.buf};
    }

    method CreateArray(name: string, len: nat) returns (r: Reply)
      requires Owned() && Bounded(Model())
      modifies this
      ensures Owned() && fresh(Repr - old(Repr))
      ensures Model() == Next(old(Model()), Create(name, len), lim)
      ensures r == Answer(old(Model()), Create(name, len), lim)
    {
      if name in arrays {
        r := Reply(Duplicate, []);
      } else if !SortedArray.IsRequestedSizeValid(len, lim.maxCapacity) {
        r := Reply(Bounds, []);
      } else {
        var a := new SortedArray(len);
        Emplace(name, a);
        r := Reply(Ok, []);
      }
    }

    method DeleteArray(name: string) returns (r: Reply)
      requires Owned() && Bounded(Model())
      modifies this`arrays
      ensures Owned() && Model() == Next(old(Model()), Delete(name), lim)
      ensures r == Answer(old(Model()), Delete(name), lim)
    {
      ghost var s := Model();
      arrays := arrays - {name};
      assert Model() == s - {name};
      r := Reply(Ok, []);
    }

    method DeleteEverything() returns (r: Reply)
      requires Owned() && Bounded(Model())
      modifies this`arrays
      ensures Owned() && Model() == Next(old(Model()), DeleteAll, lim)
      ensures r == Answer(old(Model()), DeleteAll, lim)
    {
      arrays := map[];
      r := Reply(Ok, []);
    }

    method IntersectArrays(srcA: string, srcB: string) returns (r: Reply)
      requires Owned() && Bounded(Model())
      requires srcA in arrays ==> arrays[srcA].Valid()
      requires srcB in arrays ==> arrays[srcB].Valid()
      ensures r == Answer(Model(), Command.Intersect(srcA, srcB), lim)
    {
      if srcA == srcB {
        r := Reply(Duplicate, []);
      } else if !(srcA in arrays && srcB in arrays) {
        r := Reply(NotExist, []);
      } else {
        assert Model()[srcA] == arrays[srcA].State() && Model()[srcB] == arrays[srcB].State();
        r := ArrExecutor.Intersect(arrays[srcA], arrays[srcB]);
      }
    }

    method ValidateAndExecute(name: string, op: Op) returns (r: Reply)
      requires Owned() && Bounded(Model()) && Safe(Model(), On(name, op), lim)
      requires name in arrays ==> arrays[name].Valid()
      modifies Repr
      ensures Owned() && Repr == old(Repr)
      ensures Model() == Next(old(Model()), On(name, op), lim)
      ensures r == Answer(old(Model()), On(name, op), lim)
    {
      if Malformed(op) {
        r := Reply(CommandSyntax, []);
      } else if name !in arrays {
        r := Reply(NotExist, []);
      } else {
        ghost var s := Model();
        assert s[name] == arrays[name].State();
        r := Execute(arrays[name], op, lim.maxRspSize);
        assert forall n :: n in s && n != name ==> arrays[n].State() == s[n];
        assert Model() == s[name := arrays[name].State()];
      }
    }

    method Handle(cmd: Command) returns (r: Reply)
      requires Valid() && Safe(Model(), cmd, lim)
      modifies Repr
      ensures Valid() && fresh(Repr - old(Repr))
      ensures Model() == Next(old(Model()), cmd, lim)
      ensures r == Answer(old(Model()), cmd, lim)
    {
      NextKeepsWellFormed(Model(), cmd, lim);
      assert forall n :: n in arrays ==> Model()[n] == arrays[n].State();
      match cmd {
        case Create(name, len) => r := CreateArray(name, len);
        case Delete(name) => r := DeleteArray(name);
        case DeleteAll => r := DeleteEverything();
        case Intersect(srcA, srcB) => r := IntersectArrays(srcA, srcB);
        case On(name, op) => r := ValidateAndExecute(name, op);
      }
    }
  }

  // Requests reach the handler one after the other.
  method HandleAll(h: Handler, cmds: seq<Command>) returns (rs: seq<Reply>)
    requires h.Valid() && SafeRun(h.Model(), cmds, h.lim)
    modifies h.Repr
    ensures h.Valid() && fresh(h.Repr - old(h.Repr))
    ensures h.Model() == Run(old(h.Model()), cmds, h.lim)
    ensures rs == Answers(old(h.Model()), cmds, h.lim)
  {
    rs := [];
    for i := 0 to |cmds|
      invariant h.Valid() && fresh(h.Repr - old(h.Repr))
      invariant SafeRun(h.Model(), cmds[i..], h.lim)
      invariant Run(h.Model(), cmds[i..], h.lim) == Run(old(h.Model()), cmds, h.lim)
      invariant rs + Answers(h.Model(), cmds[i..], h.lim) == Answers(old(h.Model()), cmds, h.lim)
    {
      assert cmds[i..][0] == cmds[i] && cmds[i..][1..] == cmds[i + 1..];
      var r := h.Handle(cmds[i]);
      rs := rs + [r];
    }
  }
}
