// What is read from the text of a file: exactly the entries that were written, if their keys are
// clean; and never more than there is text for, whatever the keys are.
module KvReadBack {
  import opened Common
  import opened JsonText
  import opened KvExecutor

  function MapOf(es: seq<Entry>): map<string, string> {
    if es == [] then map[] else MapOf(es[1..])[es[0].key := es[0].value]
  }

  ghost predicate Readable(es: seq<Entry>) {
    forall i :: 0 <= i < |es| ==> Clean(es[i].key) && IsValueText(es[i].value)
  }

  lemma {:induction false} JoinedFront(e: Entry, es: seq<Entry>)
    ensures Joined([e] + es) == EntryText(e) + if es == [] then "" else "," + Joined(es)
    decreases |es|
  {
    hide EntryText;
    if es == [] {
      assert [e] + es == [e];
    } else {
      var front := es[..|es| - 1];
      assert ([e] + es)[..|es|] == [e] + front;
      JoinedFront(e, front);
      assert |es| == 1 ==> front == [] && es == [es[0]];
    }
  }

  lemma {:induction false} EntriesAreRead(es: seq<Entry>, rest: string)
    requires es != [] && Readable(es)
    ensures ReadMembers(Joined(es) + "}" + rest) == Got(MapOf(es), rest)
    decreases |es|
  {
    var e, others := es[0], es[1..];
    assert es == [e] + others;
    JoinedFront(e, others);
    var text := Joined(es) + "}" + rest;
    if others == [] {
      assert text == "\"" + e.key + "\":" + e.value + ("}" + rest);
      CleanMemberIsRead(e.key, e.value, "}" + rest);
      assert ("}" + rest)[1..] == rest;
    } else {
      var tail := "," + (Joined(others) + "}" + rest);
      assert text == "\"" + e.key + "\":" + e.value + tail;
      CleanMemberIsRead(e.key, e.value, tail);
      assert tail[1..] == Joined(others) + "}" + rest;
      EntriesAreRead(others, rest);
    }
  }

  lemma NamedValueIsValueText(name: string, value: string)
    requires Clean(name) && IsValueText(value)
    ensures Through("\"" + name + "\":" + value, TOP) == Some(TOP)
  {
    var inside := TOP.(inString := true);
    ThroughClean(name, inside);
    assert ("\"" + name)[1..] == name;
    assert Through("\"" + name, TOP) == Some(inside);
    assert "\":"[1..] == ":" && ":"[1..] == "";
    assert Through(":", TOP) == Some(TOP);
    assert Through("\":", inside) == Some(TOP);
    ThroughConcat("\"" + name, "\":", TOP);
    ThroughConcat("\"" + name + "\":", value, TOP);
  }

  lemma EntryIsBalanced(e: Entry)
    requires Clean(e.key) && IsValueText(e.value)
    ensures Through(EntryText(e), Deeper(TOP)) == Some(Deeper(TOP))
  {
    NamedValueIsValueText(e.key, e.value);
    ThroughDeeper(EntryText(e), TOP);
  }

  lemma {:induction false} EntriesAreBalanced(es: seq<Entry>)
    requires Readable(es)
    ensures Through(Joined(es), Deeper(TOP)) == Some(Deeper(TOP))
    decreases |es|
  {
    if es != [] {
      var e, others := es[0], es[1..];
      assert es == [e] + others;
      JoinedFront(e, others);
      EntryIsBalanced(e);
      if others != [] {
        EntriesAreBalanced(others);
        assert ("," + Joined(others))[1..] == Joined(others);
        ThroughConcat(EntryText(e), "," + Joined(others), Deeper(TOP));
      } else {
        assert EntryText(e) + "" == EntryText(e);
      }
    }
  }

  lemma ObjectIsRead(es: seq<Entry>)
    requires es != [] && Readable(es)
    ensures ReadObject("{" + Joined(es) + "}") == Some(MapOf(es))
  {
    hide ReadMembers, MapOf, Readable;
    var text := "{" + Joined(es) + "}";
    EntriesAreRead(es, "");
    JoinedFront(es[0], es[1..]);
    assert es == [es[0]] + es[1..];
    assert text[1..] == Joined(es) + "}" + "";
    assert text[1..][0] == EntryText(es[0])[0] == '"';
  }

  lemma MemberBehindSpace(s: string)
    requires s != [] && s[0] != ' '
    ensures ReadMember(" " + s) == ReadMember(s)
  {
    assert (" " + s)[1..] == s;
    assert SkipSpaces(" " + s) == s == SkipSpaces(s);
  }

  lemma RootIsRead(obj: string)
    requires IsValueText(obj)
    ensures ReadObject("{ \"keys\":" + obj + "}") == Some(map["keys" := obj])
  {
    var text := "{ \"keys\":" + obj + "}";
    var member := "\"" + "keys" + "\":" + obj + "}";
    assert text[1..] == " " + member;
    CleanMemberIsRead("keys", obj, "}");
    MemberBehindSpace(member);
    assert "}"[1..] == "";
    assert SkipSpaces(text[1..]) == member by {
      assert (" " + member)[1..] == member;
    }
  }

  lemma ObjectIsValueText(es: seq<Entry>)
    requires Readable(es)
    ensures IsValueText("{" + Joined(es) + "}")
  {
    EntriesAreBalanced(es);
    var inner := Joined(es) + "}";
    assert ("{" + Joined(es) + "}")[1..] == inner;
    ThroughConcat(Joined(es), "}", Deeper(TOP));
    assert "}"[1..] == "";
    assert Through("}", Deeper(TOP)) == Some(TOP);
  }

  // A file that was written from readable entries is parsed into just these.
  lemma FileIsRead(es: seq<Entry>)
    requires es != [] && Readable(es)
    ensures ContentOf(FileText(Joined(es))) == Keys(MapOf(es))
  {
    hide ReadObject, Joined, MapOf, IsValueText;
    var obj := "{" + Joined(es) + "}";
    ObjectIsRead(es);
    ObjectIsValueText(es);
    RootIsRead(obj);
    assert FileText(Joined(es)) == "{ \"keys\":" + obj + "}";
  }

  lemma {:induction false} FirstInMap(es: seq<Entry>, i: nat)
    requires i < |es| && forall j :: 0 <= j < i ==> es[j].key != es[i].key
    ensures es[i].key in MapOf(es) && MapOf(es)[es[i].key] == es[i].value
    decreases |es|
  {
    if i > 0 {
      FirstInMap(es[1..], i - 1);
    }
  }

  // Of equal keys in a file the first one counts.
  lemma FirstOfEqualKeysCounts(es: seq<Entry>, i: nat)
    requires Readable(es) && i < |es|
    requires forall j :: 0 <= j < i ==> es[j].key != es[i].key
    ensures var content := ContentOf(FileText(Joined(es)));
            content.Keys? && es[i].key in content.keys && content.keys[es[i].key] == es[i].value
  {
    FileIsRead(es);
    FirstInMap(es, i);
  }

  // What an opening brace is followed by does not end before the brace is closed.
  lemma CutShortIsNoObject(inner: string, n: nat)
    requires Through(inner, TOP).Some? && n <= |inner|
    ensures ReadObject("{" + inner[..n]).None?
  {
    hide ReadObject;
    var cut := "{" + inner[..n];
    ThroughPrefix(inner, n, TOP);
    ThroughDeeper(inner[..n], TOP);
    assert cut[1..] == inner[..n];
    assert !IsValueText(cut);
    if ReadObject(cut).Some? {
      ObjectIsClosed(cut);
    }
  }

  lemma InsideOfFile(es: seq<Entry>)
    requires Readable(es)
    ensures var inner := " " + ("\"keys\":" + ("{" + Joined(es) + "}"));
            FileText(Joined(es)) == "{" + inner + "}" && Through(inner, TOP) == Some(TOP)
  {
    var member := "\"keys\":" + ("{" + Joined(es) + "}");
    assert FileText(Joined(es)) == "{" + (" " + member) + "}" by {
      hide Joined;
    }
    ObjectIsValueText(es);
    NamedValueIsValueText("keys", "{" + Joined(es) + "}");
    assert "\"" + "keys" + "\":" == "\"keys\":";
    assert (" " + member)[1..] == member;
  }

  // A file that was cut short, anywhere, while it was written is malformed: what its first character
  // opens is not closed before its last one.
  lemma CutShortIsMalformed(es: seq<Entry>, n: nat)
    requires Readable(es) && n < |FileText(Joined(es))|
    ensures ContentOf(FileText(Joined(es))[..n]) == Malformed
  {
    hide ReadObject, FileText, Joined, Readable;
    var inner := " " + ("\"keys\":" + ("{" + Joined(es) + "}"));
    InsideOfFile(es);
    if n > 0 {
      CutShortIsNoObject(inner, n - 1);
      assert FileText(Joined(es))[..n] == "{" + inner[..n - 1];
    }
  }

  // Other JSON is loaded without effect: an object with another member, or with something that is
  // no object under that name.
  lemma OtherMemberHoldsNoKeys(name: string, value: string)
    requires Clean(name) && IsValueText(value) && (name != "keys" || value[0] != '{')
    ensures ContentOf("{\"" + name + "\":" + value + "}") == NoKeys
  {
    var text, member := "{\"" + name + "\":" + value + "}", "\"" + name + "\":" + value + "}";
    assert text[1..] == member && member == "\"" + name + "\":" + value + "}";
    CleanMemberIsRead(name, value, "}");
    assert "}"[1..] == "";
    assert ReadObject(text) == Some(map[name := value]);
  }

  // Neither does anything that is no object. If it is not even balanced text, it is malformed.
  lemma OtherTextHoldsNoKeys(text: string)
    requires text == [] || text[0] != '{'
    ensures ContentOf(text) == if IsValueText(text) then NoKeys else Malformed
  {
  }

  // Empty objects are objects.
  lemma EmptyObjects()
    ensures ContentOf("{}") == NoKeys
    ensures ContentOf("{\"keys\":{}}") == Keys(map[])
  {
    hide ReadMember, ReadName, ValueEnd;
    var member := "\"" + "keys" + "\":" + "{}" + "}";
    assert "{\"keys\":{}}"[1..] == member;
    assert "{}"[1..] == "}" && "}"[1..] == "";
    assert Through("}", Deeper(TOP)) == Some(TOP);
    CleanMemberIsRead("keys", "{}", "}");
    assert ReadObject("{\"keys\":{}}") == Some(map["keys" := "{}"]);
  }

  // A buffer starts with the quote of its first key, never with a comma.
  lemma BufferStartsWithQuote(es: seq<Entry>)
    requires es != []
    ensures Joined(es) != [] && Joined(es)[0] == '"'
  {
    JoinedFront(es[0], es[1..]);
    assert es == [es[0]] + es[1..];
  }

  lemma RootWeighs(buffer: string)
    ensures var root := ReadObject(FileText(buffer));
            root.Some? && "keys" in root.value ==> |root.value["keys"]| <= |buffer| + 2
  {
    var text, member := FileText(buffer), "\"keys\":{" + buffer + "}}";
    assert SkipSpaces(text[1..]) == member by {
      assert text[1..] == " " + member;
      assert (" " + member)[1..] == member;
    }
    hide ReadObject, FileText, TotalWeight;
    ObjectWeighs(text);
    var root := ReadObject(text);
    if root.Some? && "keys" in root.value {
      TotalWeightWithout(root.value, "keys");
    }
  }

  // However the buffer came about, what is read from its file weighs at most one more than it.
  lemma FileWeighs(buffer: string)
    requires ContentOf(FileText(buffer)).Keys?
    ensures var keys := ContentOf(FileText(buffer)).keys;
            && TotalWeight(keys) <= |buffer| + 1
            && (TotalWeight(keys) == |buffer| + 1 ==> AllClean(keys))
  {
    hide ReadObject, FileText, TotalWeight;
    RootWeighs(buffer);
    ObjectWeighs(ReadObject(FileText(buffer)).value["keys"]);
  }

  ghost function BufferWeight(chunks: seq<seq<Entry>>): nat {
    if chunks == [] then 0 else |Joined(chunks[0])| + 1 + BufferWeight(chunks[1..])
  }

  function FilesOf(chunks: seq<seq<Entry>>): (texts: seq<string>)
    ensures |texts| == |chunks|
  {
    seq(|chunks|, i requires 0 <= i < |chunks| => FileText(Joined(chunks[i])))
  }

  lemma FileLoadWeighs(l: Loaded, buffer: string)
    ensures var l' := LoadFile(l, FileText(buffer));
            && TotalWeight(l'.m) <= TotalWeight(l.m) + |buffer| + 1
            && (TotalWeight(l'.m) == TotalWeight(l.m) + |buffer| + 1 ==>
                  forall k :: k in l'.m ==> k in l.m || Clean(k))
  {
    hide ContentOf, FileText, TotalWeight, Clean;
    var content := ContentOf(FileText(buffer));
    if content.Keys? {
      FileWeighs(buffer);
      TotalWeightOverlaid(l.m, content.keys);
    }
  }

  lemma LoadFront(l: Loaded, chunks: seq<seq<Entry>>)
    requires chunks != []
    ensures var l' := LoadFile(l, FileText(Joined(chunks[0])));
            LoadFiles(l, FilesOf(chunks)) == if l'.st == LoadError then l' else LoadFiles(l', FilesOf(chunks[1..]))
  {
    hide LoadFile, FileText, Joined;
    assert FilesOf(chunks)[0] == FileText(Joined(chunks[0]));
    assert FilesOf(chunks)[1..] == FilesOf(chunks[1..]);
  }

  // Loading can add no more weight than the buffers had, and as much only with clean keys.
  lemma {:induction false} LoadWeighs(l: Loaded, chunks: seq<seq<Entry>>)
    ensures var end := LoadFiles(l, FilesOf(chunks));
            && TotalWeight(end.m) <= TotalWeight(l.m) + BufferWeight(chunks)
            && (TotalWeight(end.m) == TotalWeight(l.m) + BufferWeight(chunks) ==>
                  forall k :: k in end.m ==> k in l.m || Clean(k))
    decreases |chunks|
  {
    hide LoadFile, FileText, FilesOf, TotalWeight, Clean;
    if chunks == [] {
      assert |FilesOf(chunks)| == 0;
    } else {
      LoadFront(l, chunks);
      FileLoadWeighs(l, Joined(chunks[0]));
      LoadWeighs(LoadFile(l, FileText(Joined(chunks[0]))), chunks[1..]);
    }
  }
}
