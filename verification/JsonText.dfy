// Just enough of JSON's syntax (RFC 8259) to read back the files that saving writes: object
// members, names with escapes, and where the text of a value ends. What stands inside a value is
// not looked at beyond its brackets and strings.
module JsonText {
  import opened Common

  // Names a writer may put between quotes as they are (section 7 of RFC 8259).
  predicate CleanChar(c: char) {
    c != '"' && c != '\\' && c >= ' '
  }

  predicate Clean(name: string) {
    forall i :: 0 <= i < |name| ==> CleanChar(name[i])
  }

  // Where a reader stands inside the text of a value.
  datatype Scan = Scan(depth: nat, inString: bool, escaped: bool)

  const TOP := Scan(0, false, false)

  function Deeper(st: Scan): Scan {
    st.(depth := st.depth + 1)
  }

  // The value of a member is over at the first comma or closing brace on its own level.
  predicate EndsValue(st: Scan, c: char) {
    st == TOP && (c == ',' || c == '}')
  }

  function Advance(st: Scan, c: char): Option<Scan> {
    if st.inString then
      if st.escaped then Some(st.(escaped := false))
      else if c == '\\' then Some(st.(escaped := true))
      else if c == '"' then Some(st.(inString := false))
      else Some(st)
    else if c == '"' then Some(st.(inString := true))
    else if c == '{' || c == '[' then Some(st.(depth := st.depth + 1))
    else if c == '}' || c == ']' then if st.depth == 0 then None else Some(st.(depth := st.depth - 1))
    else Some(st)
  }

  // Where a reader stands after s, if s does not end the value on the way.
  function Through(s: string, st: Scan): Option<Scan> {
    if s == [] then Some(st)
    else if EndsValue(st, s[0]) || Advance(st, s[0]).None? then None
    else Through(s[1..], Advance(st, s[0]).value)
  }

  predicate IsValueText(s: string) {
    s != [] && Through(s, TOP) == Some(TOP)
  }

  function ValueEnd(s: string, st: Scan): (end: Option<nat>)
    ensures end.Some? ==> end.value < |s| && s[end.value] in {',', '}'}
  {
    if s == [] then None
    else if EndsValue(st, s[0]) then Some(0)
    else if Advance(st, s[0]).None? then None
    else
      var end := ValueEnd(s[1..], Advance(st, s[0]).value);
      if end.None? then None else Some(end.value + 1)
  }

  function Unescaped(c: char): Option<char> {
    if c == '"' || c == '\\' || c == '/' then Some(c)
    else if c == 'b' then Some(8 as char)
    else if c == 'f' then Some(12 as char)
    else if c == 'n' then Some(10 as char)
    else if c == 'r' then Some(13 as char)
    else if c == 't' then Some(9 as char)
    else None
  }

  datatype Read<+T> = Fail | Got(value: T, rest: string)

  // Reads a name up to its closing quote. A name never takes less text than it has characters, and
  // takes no more only if it is clean.
  function ReadName(s: string): (r: Read<string>)
    ensures r.Got? ==> |r.value| + 1 + |r.rest| <= |s|
    ensures r.Got? && |r.value| + 1 + |r.rest| == |s| ==> Clean(r.value)
  {
    if s == [] then Fail
    else if s[0] == '"' then Got([], s[1..])
    else if s[0] == '\\' then
      if |s| < 2 || Unescaped(s[1]).None? then Fail else
        var r := ReadName(s[2..]);
        if r.Fail? then Fail else Got([Unescaped(s[1]).value] + r.value, r.rest)
    else if s[0] < ' ' then Fail
    else
      var r := ReadName(s[1..]);
      if r.Fail? then Fail else Got([s[0]] + r.value, r.rest)
  }

  function SkipSpaces(s: string): (t: string)
    ensures |t| <= |s|
  {
    if s != [] && s[0] == ' ' then SkipSpaces(s[1..]) else s
  }

  // One member and the delimiter behind it.
  datatype Member = Member(name: string, value: string, last: bool)

  // Two quotes, a colon and a delimiter come with every member.
  function Weight(name: string, value: string): nat {
    |name| + |value| + 4
  }

  function ReadMember(s: string): (r: Read<Member>)
    ensures r.Got? ==> Weight(r.value.name, r.value.value) + |r.rest| <= |SkipSpaces(s)|
    ensures r.Got? && Weight(r.value.name, r.value.value) + |r.rest| == |SkipSpaces(s)| ==> Clean(r.value.name)
  {
    var t := SkipSpaces(s);
    if t == [] || t[0] != '"' then Fail else
      var name := ReadName(t[1..]);
      if name.Fail? || name.rest == [] || name.rest[0] != ':' then Fail else
        var body := name.rest[1..];
        var end := ValueEnd(body, TOP);
        if end.None? || end.value == 0 then Fail
        else Got(Member(name.value, body[..end.value], body[end.value] == '}'), body[end.value + 1..])
  }

  // The members up to the closing brace of their object; of equal names the first one counts.
  function ReadMembers(s: string): (r: Read<map<string, string>>)
    decreases |s|
  {
    var member := ReadMember(s);
    if member.Fail? then Fail
    else if member.value.last then Got(map[member.value.name := member.value.value], member.rest)
    else
      var others := ReadMembers(member.rest);
      if others.Fail? then Fail
      else Got(others.value[member.value.name := member.value.value], others.rest)
  }

  function ReadObject(s: string): Option<map<string, string>> {
    if s == [] || s[0] != '{' then None
    else if SkipSpaces(s[1..]) == "}" then Some(map[])
    else
      var r := ReadMembers(s[1..]);
      if r.Fail? || r.rest != [] then None else Some(r.value)
  }

  lemma {:induction false} ThroughConcat(s: string, t: string, st: Scan)
    requires Through(s, st).Some?
    ensures Through(s + t, st) == Through(t, Through(s, st).value)
  {
    if s == [] {
      assert s + t == t;
    } else {
      assert (s + t)[1..] == s[1..] + t;
      ThroughConcat(s[1..], t, Advance(st, s[0]).value);
    }
  }

  // One level down, nothing in a value is mistaken for its end.
  lemma {:induction false} ThroughDeeper(s: string, st: Scan)
    requires Through(s, st).Some?
    ensures Through(s, Deeper(st)) == Some(Deeper(Through(s, st).value))
  {
    if s != [] {
      ThroughDeeper(s[1..], Advance(st, s[0]).value);
    }
  }

  lemma {:induction false} ThroughClean(s: string, st: Scan)
    requires Clean(s) && st.inString && !st.escaped
    ensures Through(s, st) == Some(st)
  {
    if s != [] {
      assert CleanChar(s[0]);
      assert forall i :: 0 <= i < |s[1..]| ==> s[1..][i] == s[i + 1];
      ThroughClean(s[1..], st);
    }
  }

  lemma {:induction false} ValueEndsThere(v: string, rest: string, st: Scan)
    requires Through(v, st) == Some(TOP)
    requires rest != [] && rest[0] in {',', '}'}
    ensures ValueEnd(v + rest, st) == Some(|v|)
  {
    if v == [] {
      assert v + rest == rest;
    } else {
      assert (v + rest)[1..] == v[1..] + rest;
      ValueEndsThere(v[1..], rest, Advance(st, v[0]).value);
    }
  }

  lemma {:induction false} CleanNameIsRead(name: string, rest: string)
    requires Clean(name)
    ensures ReadName(name + "\"" + rest) == Got(name, rest)
  {
    var s := name + "\"" + rest;
    if name == [] {
      assert s == "\"" + rest && s[1..] == rest;
    } else {
      assert CleanChar(name[0]) && [name[0]] + name[1..] == name;
      assert s[1..] == name[1..] + "\"" + rest;
      assert forall i :: 0 <= i < |name[1..]| ==> name[1..][i] == name[i + 1];
      CleanNameIsRead(name[1..], rest);
    }
  }

  // A member written as it is, name unescaped, is read back if the name is clean.
  lemma CleanMemberIsRead(name: string, value: string, rest: string)
    requires Clean(name) && IsValueText(value) && rest != [] && rest[0] in {',', '}'}
    ensures ReadMember("\"" + name + "\":" + value + rest)
            == Got(Member(name, value, rest[0] == '}'), rest[1..])
  {
    var s := "\"" + name + "\":" + value + rest;
    assert s[1..] == name + "\"" + (":" + value + rest);
    CleanNameIsRead(name, ":" + value + rest);
    assert (":" + value + rest)[1..] == value + rest;
    ValueEndsThere(value, rest, TOP);
    assert (value + rest)[..|value|] == value && (value + rest)[|value| + 1..] == rest[1..];
  }

  ghost function TotalWeight(m: map<string, string>): nat {
    if m == map[] then 0 else
      var k :| k in m;
      Weight(k, m[k]) + TotalWeight(m - {k})
  }

  lemma {:induction false} TotalWeightWithout(m: map<string, string>, k: string)
    requires k in m
    ensures TotalWeight(m) == Weight(k, m[k]) + TotalWeight(m - {k})
    decreases |m|
  {
    var first :| first in m && TotalWeight(m) == Weight(first, m[first]) + TotalWeight(m - {first});
    if first != k {
      TotalWeightWithout(m - {first}, k);
      TotalWeightWithout(m - {k}, first);
      assert m - {first} - {k} == m - {k} - {first};
    }
  }

  lemma TotalWeightWith(m: map<string, string>, k: string, v: string)
    ensures TotalWeight(m[k := v]) <= TotalWeight(m) + Weight(k, v)
    ensures k !in m ==> TotalWeight(m[k := v]) == TotalWeight(m) + Weight(k, v)
  {
    TotalWeightWithout(m[k := v], k);
    assert m[k := v] - {k} == m - {k};
    if k in m {
      TotalWeightWithout(m, k);
    } else {
      assert m - {k} == m;
    }
  }

  lemma OverlaidLast(m: map<string, string>, o: map<string, string>, k: string)
    requires k in o
    ensures m + o == (m + (o - {k}))[k := o[k]]
  {
    var t := (m + (o - {k}))[k := o[k]];
    assert (m + o).Keys == t.Keys;
    assert forall x :: x in t ==> (m + o)[x] == t[x];
  }

  lemma {:induction false} TotalWeightOverlaid(m: map<string, string>, o: map<string, string>)
    ensures TotalWeight(m + o) <= TotalWeight(m) + TotalWeight(o)
    decreases |o|
  {
    if o == map[] {
      assert m + o == m;
    } else {
      var k :| k in o;
      hide TotalWeight;
      TotalWeightWithout(o, k);
      TotalWeightOverlaid(m, o - {k});
      OverlaidLast(m, o, k);
      TotalWeightWith(m + (o - {k}), k, o[k]);
    }
  }

  predicate AllClean(m: map<string, string>) {
    forall k :: k in m ==> Clean(k)
  }

  // Whatever the text, what is read weighs no more than the text, and as much only if every name
  // that is read is clean: escapes and extra spaces take room.
  lemma {:induction false} MembersWeigh(s: string)
    ensures var r := ReadMembers(s);
            r.Got? ==>
              && TotalWeight(r.value) + |r.rest| <= |SkipSpaces(s)|
              && (TotalWeight(r.value) + |r.rest| == |SkipSpaces(s)| ==> AllClean(r.value))
    decreases |s|
  {
    var member, r := ReadMember(s), ReadMembers(s);
    if r.Got? {
      var name, value := member.value.name, member.value.value;
      if member.value.last {
        TotalWeightWith(map[], name, value);
        assert map[][name := value] == map[name := value];
      } else {
        MembersWeigh(member.rest);
        TotalWeightWith(ReadMembers(member.rest).value, name, value);
      }
    }
  }

  lemma ObjectWeighs(s: string)
    ensures ReadObject(s).Some? ==>
              && TotalWeight(ReadObject(s).value) <= |SkipSpaces(s[1..])|
              && (TotalWeight(ReadObject(s).value) == |SkipSpaces(s[1..])| ==> AllClean(ReadObject(s).value))
  {
    if ReadObject(s).Some? {
      MembersWeigh(s[1..]);
    }
  }

  lemma {:induction false} ThroughPrefix(s: string, n: nat, st: Scan)
    requires Through(s, st).Some? && n <= |s|
    ensures Through(s[..n], st).Some?
  {
    if n > 0 {
      assert s[..n][1..] == s[1..][..n - 1];
      ThroughPrefix(s[1..], n - 1, Advance(st, s[0]).value);
    }
  }

  // From state st, reading s as far as rest ends in state st'.
  ghost predicate Leads(s: string, st: Scan, rest: string, st': Scan) {
    exists read :: s == read + rest && Through(read, st) == Some(st')
  }

  lemma LeadsNowhere(s: string, st: Scan)
    ensures Leads(s, st, s, st)
  {
    assert s == [] + s && Through([], st) == Some(st);
  }

  lemma LeadsOn(s: string, st: Scan, t: string, st': Scan, rest: string, st'': Scan)
    requires Leads(s, st, t, st') && Leads(t, st', rest, st'')
    ensures Leads(s, st, rest, st'')
  {
    var read :| s == read + t && Through(read, st) == Some(st');
    var more :| t == more + rest && Through(more, st') == Some(st'');
    ThroughConcat(read, more, st);
    assert s == (read + more) + rest;
  }

  lemma LeadsPast(s: string, st: Scan)
    requires s != [] && !EndsValue(st, s[0]) && Advance(st, s[0]).Some?
    ensures Leads(s, st, s[1..], Advance(st, s[0]).value)
  {
    assert s == [s[0]] + s[1..] && [s[0]][1..] == [];
    assert Through([s[0]], st) == Some(Advance(st, s[0]).value);
  }

  lemma LeadsStep(s: string, st: Scan, rest: string, st': Scan)
    requires s != [] && !EndsValue(st, s[0]) && Advance(st, s[0]).Some?
    requires Leads(s[1..], Advance(st, s[0]).value, rest, st')
    ensures Leads(s, st, rest, st')
  {
    LeadsPast(s, st);
    LeadsOn(s, st, s[1..], Advance(st, s[0]).value, rest, st');
  }

  lemma {:induction false} SpacesLead(s: string, st: Scan)
    requires !st.inString
    ensures Leads(s, st, SkipSpaces(s), st)
  {
    hide Leads;
    if s != [] && s[0] == ' ' {
      SpacesLead(s[1..], st);
      LeadsStep(s, st, SkipSpaces(s), st);
    } else {
      LeadsNowhere(s, st);
    }
  }

  lemma {:induction false} NameLeads(s: string, st: Scan)
    requires ReadName(s).Got? && st.inString && !st.escaped
    ensures Leads(s, st, ReadName(s).rest, st.(inString := false))
  {
    hide Leads;
    var rest, st' := ReadName(s).rest, st.(inString := false);
    if s[0] == '"' {
      LeadsPast(s, st);
    } else if s[0] == '\\' {
      NameLeads(s[2..], st);
      assert s[1..][1..] == s[2..] && s[1..][0] == s[1];
      LeadsStep(s[1..], st.(escaped := true), rest, st');
      LeadsStep(s, st, rest, st');
    } else {
      NameLeads(s[1..], st);
      LeadsStep(s, st, rest, st');
    }
  }

  lemma {:induction false} ValueLeads(s: string, st: Scan)
    requires ValueEnd(s, st).Some?
    ensures Through(s[..ValueEnd(s, st).value], st) == Some(TOP)
  {
    if !EndsValue(st, s[0]) {
      ValueLeads(s[1..], Advance(st, s[0]).value);
      var end := ValueEnd(s, st).value;
      assert s[..end][1..] == s[1..][..end - 1];
    }
  }

  lemma ValueLeadsDeeper(s: string)
    requires ValueEnd(s, TOP).Some?
    ensures Leads(s, Deeper(TOP), s[ValueEnd(s, TOP).value..], Deeper(TOP))
  {
    hide Through, ValueEnd;
    var end := ValueEnd(s, TOP).value;
    ValueLeads(s, TOP);
    ThroughDeeper(s[..end], TOP);
    assert s == s[..end] + s[end..];
  }

  // A member and a comma leave a reader where it stood, one level down; a closing brace leads up.
  lemma MemberLeads(s: string)
    requires ReadMember(s).Got?
    ensures var m := ReadMember(s);
            Leads(s, Deeper(TOP), m.rest, if m.value.last then TOP else Deeper(TOP))
  {
    hide Leads, ReadName, ValueEnd, SkipSpaces;
    var inside, end := Deeper(TOP).(inString := true), if ReadMember(s).value.last then TOP else Deeper(TOP);
    var t := SkipSpaces(s);
    var u := ReadName(t[1..]).rest;
    var v := u[1..][ValueEnd(u[1..], TOP).value..];
    var rest := ReadMember(s).rest;
    assert v[0] in {',', '}'} && v[1..] == rest;
    LeadsPast(v, Deeper(TOP));
    ValueLeadsDeeper(u[1..]);
    LeadsOn(u[1..], Deeper(TOP), v, Deeper(TOP), rest, end);
    LeadsStep(u, Deeper(TOP), rest, end);
    NameLeads(t[1..], inside);
    LeadsOn(t[1..], inside, u, Deeper(TOP), rest, end);
    LeadsStep(t, Deeper(TOP), rest, end);
    SpacesLead(s, Deeper(TOP));
    LeadsOn(s, Deeper(TOP), t, Deeper(TOP), rest, end);
  }

  lemma {:induction false} MembersLead(s: string)
    requires ReadMembers(s).Got?
    ensures Leads(s, Deeper(TOP), ReadMembers(s).rest, TOP)
    decreases |s|
  {
    hide Leads;
    var member := ReadMember(s);
    MemberLeads(s);
    if !member.value.last {
      MembersLead(member.rest);
      LeadsOn(s, Deeper(TOP), member.rest, Deeper(TOP), ReadMembers(s).rest, TOP);
    }
  }

  // What is read as an object closes everything it opens, and ends there.
  lemma ObjectIsClosed(s: string)
    requires ReadObject(s).Some?
    ensures IsValueText(s)
  {
    if SkipSpaces(s[1..]) == "}" {
      SpacesLead(s[1..], Deeper(TOP));
      LeadsPast("}", Deeper(TOP));
      LeadsOn(s[1..], Deeper(TOP), "}", Deeper(TOP), [], TOP);
    } else {
      MembersLead(s[1..]);
    }
    LeadsStep(s, TOP, [], TOP);
    var read :| s == read + [] && Through(read, TOP) == Some(TOP);
    assert read == s;
  }

  // What a writer has to put behind a backslash for a character that may not stand as it is.
  function EscapeOf(c: char): Option<char> {
    if c == '"' || c == '\\' then Some(c)
    else if c == 8 as char then Some('b')
    else if c == 9 as char then Some('t')
    else if c == 10 as char then Some('n')
    else if c == 12 as char then Some('f')
    else if c == 13 as char then Some('r')
    else None
  }

  function EscapedChar(c: char): string {
    if EscapeOf(c).Some? then ['\\', EscapeOf(c).value] else [c]
  }

  function Escaped(name: string): string {
    if name == [] then "" else EscapedChar(name[0]) + Escaped(name[1..])
  }

  // The characters that have an escape of two characters, or need none.
  predicate Escapable(c: char) {
    CleanChar(c) || EscapeOf(c).Some?
  }

  lemma EscapeIsUndone(c: char)
    ensures EscapeOf(c).Some? ==> Unescaped(EscapeOf(c).value) == Some(c)
    ensures EscapeOf(c).None? ==> c != '"' && c != '\\'
  {
  }

  lemma EscapedCharIsRead(c: char, tail: string)
    requires Escapable(c) && ReadName(tail).Got?
    ensures ReadName(EscapedChar(c) + tail) == Got([c] + ReadName(tail).value, ReadName(tail).rest)
  {
    EscapeIsUndone(c);
    hide EscapeOf, Unescaped;
    var s := EscapedChar(c) + tail;
    if EscapeOf(c).Some? {
      assert s[0] == '\\' && s[1] == EscapeOf(c).value && s[2..] == tail;
    } else {
      assert s[0] == c && s[1..] == tail;
    }
  }

  // A name that is written with its escapes is read back, whatever quotes it holds.
  lemma {:induction false} EscapedNameIsRead(name: string, rest: string)
    requires forall i :: 0 <= i < |name| ==> Escapable(name[i])
    ensures ReadName(Escaped(name) + "\"" + rest) == Got(name, rest)
  {
    var s := Escaped(name) + "\"" + rest;
    if name == [] {
      assert s == "\"" + rest && s[1..] == rest;
    } else {
      hide Escapable, EscapedChar, ReadName;
      EscapedNameIsRead(name[1..], rest);
      var tail := Escaped(name[1..]) + "\"" + rest;
      assert s == EscapedChar(name[0]) + tail;
      EscapedCharIsRead(name[0], tail);
      assert [name[0]] + name[1..] == name;
    }
  }
}
