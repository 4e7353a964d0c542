// The named lists of core/lst/LstHandler.h.
module LstHandler {
  import opened Common
  import opened LstList
  import opened LstExecutor

  datatype Command<T> =
    | Create(name: string)
    | Delete(name: string)
    | DeleteAll
    | Splice(src: string, srcStart: nat, srcStop: Option<nat>, dest: string, destPos: Option<nat>)
    | On(name: string, op: Op<T>)

  type Lists<T> = map<string, seq<T>>

  // What the validators refuse before the name is looked up.
  predicate Malformed<T>(op: Op<T>) {
    match op
    case GetRng(start, stop) => !Ordered(start, stop)
    case Remove(_, _, rng) => rng.Some? && !Ordered(rng.value.start, rng.value.stop)
    case _ => false
  }

  function SpliceFirst<T>(s: seq<T>, cmd: Command<T>): (a: nat)
    requires cmd.Splice?
    ensures a <= |s|
  {
    Clamp(cmd.srcStart, |s|)
  }

  function SpliceLast<T>(s: seq<T>, cmd: Command<T>): (b: nat)
    requires cmd.Splice?
    ensures b <= |s|
  {
    Clamp(StopOf(cmd.srcStop, |s|), |s|)
  }

  function SpliceAt<T>(d: seq<T>, cmd: Command<T>): (p: nat)
    requires cmd.Splice?
    ensures p <= |d|
  {
    Clamp(StopOf(cmd.destPos, |d|), |d|)
  }

  // The commands for which no iterator leaves its list. No validator looks into the range of a
  // splice: it must not be reversed, nor be moved into itself.
  predicate Safe<T>(s: Lists<T>, cmd: Command<T>, maxRspSize: nat) {
    match cmd
    case Splice(src, _, _, dest, _) =>
      src in s ==>
        && SpliceFirst(s[src], cmd) <= SpliceLast(s[src], cmd)
        && (src == dest ==> Outside(SpliceAt(s[src], cmd), SpliceFirst(s[src], cmd), SpliceLast(s[src], cmd)))
    case On(name, op) => name in s && !Malformed(op) ==> OpSafe(s[name], op, maxRspSize)
    case _ => true
  }

  // A destination that does not exist yet is created, whatever is moved.
  function AfterSplice<T>(s: Lists<T>, cmd: Command<T>): Lists<T>
    requires cmd.Splice? && cmd.src in s && Safe(s, cmd, 0)
  {
    var from := s[cmd.src];
    var a, b := SpliceFirst(from, cmd), SpliceLast(from, cmd);
    if cmd.src == cmd.dest then s[cmd.src := MovedWithin(from, a, b, SpliceAt(from, cmd))] else
      var to := if cmd.dest in s then s[cmd.dest] else [];
      s[cmd.src := Erased(from, a, b)][cmd.dest := Inserted(to, SpliceAt(to, cmd), from[a..b])]
  }

  function Next<T>(s: Lists<T>, cmd: Command<T>, maxRspSize: nat): Lists<T>
    requires Safe(s, cmd, maxRspSize)
  {
    match cmd
    case Create(name) => if name in s then s else s[name := []]
    case Delete(name) => s - {name}
    case DeleteAll => map[]
    case Splice(src, _, _, _, _) => if src in s then AfterSplice(s, cmd) else s
    case On(name, op) => if Malformed(op) || name !in s then s else s[name := OpState(s[name], op, maxRspSize)]
  }

  function Answer<T>(s: Lists<T>, cmd: Command<T>, maxRspSize: nat): Reply<T>
    requires Safe(s, cmd, maxRspSize)
  {
    match cmd
    case Create(name) => Reply.Status(if name in s then Duplicate else Ok)
    case Delete(name) => Reply.Status(if name in s then Ok else NotExist)
    case DeleteAll => Reply.Status(Ok)
    case Splice(src, _, _, _, _) => Reply.Status(if src in s then Ok else NotExist)
    case On(name, op) =>
      if Malformed(op) then Reply.Status(CommandSyntax)
      else if name !in s then Reply.Status(NotExist)
      else OpReply(s[name], op, maxRspSize)
  }

  predicate SafeRun<T>(s: Lists<T>, cmds: seq<Command<T>>, maxRspSize: nat)
    decreases |cmds|
  {
    cmds == [] ||
    (Safe(s, cmds[0], maxRspSize) && SafeRun(Next(s, cmds[0], maxRspSize), cmds[1..], maxRspSize))
  }

  function Run<T>(s: Lists<T>, cmds: seq<Command<T>>, maxRspSize: nat): Lists<T>
    requires SafeRun(s, cmds, maxRspSize)
    decreases |cmds|
  {
    if cmds == [] then s else Run(Next(s, cmds[0], maxRspSize), cmds[1..], maxRspSize)
  }

  function Answers<T>(s: Lists<T>, cmds: seq<Command<T>>, maxRspSize: nat): (rs: seq<Reply<T>>)
    requires SafeRun(s, cmds, maxRspSize)
    ensures |rs| == |cmds|
    decreases |cmds|
  {
    if cmds == [] then [] else
      [Answer(s, cmds[0], maxRspSize)] + Answers(Next(s, cmds[0], maxRspSize), cmds[1..], maxRspSize)
  }

  class Handler<T> {
    const maxRspSize: nat
    var lists: map<string, List<T>>
    ghost var Repr: set<object>

    // The named lists are distinct objects, and nobody else's.
    ghost predicate Valid()
      reads this, Repr
    {
      && this in Repr
      && (forall n :: n in lists ==> lists[n] in Repr && lists[n].maxRspSize == maxRspSize)
      && (forall m, n :: m in lists && n in lists && m != n ==> lists[m] != lists[n])
    }

    ghost function Model(): Lists<T>
      requires Valid()
      reads this, Repr
    {
      map n | n in lists :: lists[n].items
    }

    constructor (maxRspSize: nat)
      ensures Valid() && fresh(Repr) && this.maxRspSize == maxRspSize
      ensures Model() == map[]
    {
      this.maxRspSize := maxRspSize;
      lists := map[];
      Repr := {this};
    }

    // Does nothing if the list exists.
    method CreateList(name: string)
      requires Valid()
      modifies this
      ensures Valid() && fresh(Repr - old(Repr)) && old(Repr) <= Repr
      ensures Model() == if name in old(Model()) then old(Model()) else old(Model())[name := []]
      ensures name in lists && lists.Keys == old(lists.Keys) + {name}
    {
      if name !in lists {
        var list := new List<T>(maxRspSize);
        lists := lists[name := list];
        Repr := Repr + {list};
      }
    }

    method CreateNew(name: string) returns (r: Reply<T>)
      requires Valid()
      modifies this
      ensures Valid() && fresh(Repr - old(Repr))
      ensures Model() == Next(old(Model()), Create(name), maxRspSize)
      ensures r == Answer(old(Model()), Create(name), maxRspSize)
    {
      if name in lists {
        r := Reply.Status(Duplicate);
      } else {
        CreateList(name);
        r := Reply.Status(Ok);
      }
    }

    method DeleteList(name: string) returns (r: Reply<T>)
      requires Valid()
      modifies this`lists
      ensures Valid() && Model() == Next(old(Model()), Delete(name), maxRspSize)
      ensures r == Answer(old(Model()), Delete(name), maxRspSize)
    {
      if name !in lists {
        r := Reply.Status(NotExist);
        assert Model() - {name} == Model();
      } else {
        lists := lists - {name};
        r := Reply.Status(Ok);
      }
    }

    method MoveNodes(cmd: Command<T>)
      requires Valid() && cmd.Splice? && cmd.src in lists && cmd.dest in lists && Safe(Model(), cmd, 0)
      modifies lists[cmd.src], lists[cmd.dest]
      ensures Valid() && Model() == AfterSplice(old(Model()), cmd)
    {
      var src, dest := lists[cmd.src], lists[cmd.dest];
      assert Model()[cmd.src] == src.items && Model()[cmd.dest] == dest.items;
      var pos := if cmd.destPos.Some? then cmd.destPos.value else |dest.items|;
      if cmd.srcStop.Some? {
        dest.Splice(pos, src, cmd.srcStart, cmd.srcStop.value);
      } else {
        dest.Splice(pos, src, cmd.srcStart, |src.items|);
      }
    }

    method SpliceLists(cmd: Command<T>) returns (r: Reply<T>)
      requires Valid() && cmd.Splice? && Safe(Model(), cmd, maxRspSize)
      modifies Repr
      ensures Valid() && fresh(Repr - old(Repr))
      ensures Model() == Next(old(Model()), cmd, maxRspSize)
      ensures r == Answer(old(Model()), cmd, maxRspSize)
    {
      if cmd.src !in lists {
        r := Reply.Status(NotExist);
      } else {
        CreateList(cmd.dest);
        MoveNodes(cmd);
        r := Reply.Status(Ok);
      }
    }

    method ValidateAndExecute(name: string, op: Op<T>) returns (r: Reply<T>)
      requires Valid() && Safe(Model(), On(name, op), maxRspSize)
      modifies Repr
      ensures Valid() && Repr == old(Repr)
      ensures Model() == Next(old(Model()), On(name, op), maxRspSize)
      ensures r == Answer(old(Model()), On(name, op), maxRspSize)
    {
      if Malformed(op) {
        r := Reply.Status(CommandSyntax);
      } else if name !in lists {
        r := Reply.Status(NotExist);
      } else {
        assert Model()[name] == lists[name].items;
        r := Execute(lists[name], op);
      }
    }

    method Handle(cmd: Command<T>) returns (r: Reply<T>)
      requires Valid() && Safe(Model(), cmd, maxRspSize)
      modifies Repr
      ensures Valid() && fresh(Repr - old(Repr))
      ensures Model() == Next(old(Model()), cmd, maxRspSize)
      ensures r == Answer(old(Model()), cmd, maxRspSize)
    {
      match cmd {
        case Create(name) => r := CreateNew(name);
        case Delete(name) => r := DeleteList(name);
        case DeleteAll =>
          lists := map[];
          r := Reply.Status(Ok);
        case Splice(_, _, _, _, _) => r := SpliceLists(cmd);
        case On(name, op) => r := ValidateAndExecute(name, op);
      }
    }
  }

  // Requests reach the handler one after the other.
  method HandleAll<T>(h: Handler<T>, cmds: seq<Command<T>>) returns (rs: seq<Reply<T>>)
    requires h.Valid() && SafeRun(h.Model(), cmds, h.maxRspSize)
    modifies h.Repr
    ensures h.Valid() && fresh(h.Repr - old(h.Repr))
    ensures h.Model() == Run(old(h.Model()), cmds, h.maxRspSize)
    ensures rs == Answers(old(h.Model()), cmds, h.maxRspSize)
  {
    rs := [];
    for i := 0 to |cmds|
      invariant h.Valid() && fresh(h.Repr - old(h.Repr))
      invariant SafeRun(h.Model(), cmds[i..], h.maxRspSize)
      invariant Run(h.Model(), cmds[i..], h.maxRspSize) == Run(old(h.Model()), cmds, h.maxRspSize)
      invariant rs + Answers(h.Model(), cmds[i..], h.maxRspSize) == Answers(old(h.Model()), cmds, h.maxRspSize)
    {
      assert cmds[i..][0] == cmds[i] && cmds[i..][1..] == cmds[i + 1..];
      var r := h.Handle(cmds[i]);
      rs := rs + [r];
    }
  }
}
