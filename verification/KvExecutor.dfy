// Saving and loading of core/kv/KvExecutor.h. A directory maps file names to what is in the files.
module KvExecutor {
  import opened Common
  import opened CacheMap
  import opened JsonText

  const MAX_DATA_FILE_SIZE: nat := 10 * 1024 * 1024

  datatype Entry = Entry(key: string, value: string)

  type Directory = map<string, string>

  // A listing names every element once, in an order of its own: that of a hash map's iteration,
  // or that in which a directory lists its files.
  ghost predicate IsListing(order: seq<string>, names: set<string>) {
    && (forall n :: n in order <==> n in names)
    && forall i, j :: 0 <= i < j < |order| ==> order[i] != order[j]
  }

  function EntriesOf(m: map<string, string>, order: seq<string>): (es: seq<Entry>)
    requires forall k :: k in order ==> k in m
    ensures |es| == |order|
  {
    seq(|order|, i requires 0 <= i < |order| => Entry(order[i], m[order[i]]))
  }

  // A key goes between quotes as it is.
  function EntryText(e: Entry): string {
    "\"" + e.key + "\":" + e.value
  }

  function Joined(es: seq<Entry>): string {
    if es == [] then ""
    else if |es| == 1 then EntryText(es[0])
    else Joined(es[..|es| - 1]) + "," + EntryText(es[|es| - 1])
  }

  function FileText(buffer: string): string {
    "{ \"keys\":{" + buffer + "}}"
  }

  function Decimal(n: nat): string {
    if n < 10 then ["0123456789"[n]] else Decimal(n / 10) + ["0123456789"[n % 10]]
  }

  function Flat(chunks: seq<seq<Entry>>): seq<Entry> {
    if chunks == [] then [] else Flat(chunks[..|chunks| - 1]) + chunks[|chunks| - 1]
  }

  // A chunk is not empty and reaches the limit with its last entry at the earliest.
  predicate IsChunk(c: seq<Entry>) {
    c != [] && |Joined(c[..|c| - 1])| < MAX_DATA_FILE_SIZE
  }

  predicate IsFull(c: seq<Entry>) {
    |Joined(c)| >= MAX_DATA_FILE_SIZE
  }

  // How the entries are cut into files: nothing is lost, repeated or reordered, and only the last
  // chunk may stay below the limit.
  predicate IsChunking(chunks: seq<seq<Entry>>, es: seq<Entry>) {
    && Flat(chunks) == es
    && (forall i :: 0 <= i < |chunks| ==> IsChunk(chunks[i]))
    && (forall i :: 0 <= i < |chunks| - 1 ==> IsFull(chunks[i]))
  }

  // Chunk i is in the file that is named with the number i.
  function DirectoryOf(chunks: seq<seq<Entry>>): Directory {
    if chunks == [] then map[] else
      var last := |chunks| - 1;
      DirectoryOf(chunks[..last])[Decimal(last) := FileText(Joined(chunks[last]))]
  }

  method FlushKvBuffer(dir: Directory, name: string, buffer: string) returns (dir': Directory)
    ensures dir' == dir[name := FileText(buffer)]
  {
    dir' := dir[name := "{ \"keys\":{" + buffer + "}}"];
  }

  // The loop has cut es into full chunks and the entries c that are still in the buffer.
  ghost predicate Cut(chunks: seq<seq<Entry>>, c: seq<Entry>, es: seq<Entry>) {
    && Flat(chunks) + c == es
    && (c != [] ==> IsChunk(c) && !IsFull(c))
    && forall i :: 0 <= i < |chunks| ==> IsChunk(chunks[i]) && IsFull(chunks[i])
  }

  lemma NothingSavedYet()
    ensures Joined([]) == "" && Cut([], [], []) && DirectoryOf([]) == map[]
  {
  }

  lemma JoinedStep(c: seq<Entry>, e: Entry)
    ensures Joined(c + [e]) == (if c == [] then "" else Joined(c) + ",") + EntryText(e)
    ensures (c + [e])[..|c|] == c
  {
    assert (c + [e])[..|c|] == c;
  }

  lemma FlatStep(chunks: seq<seq<Entry>>, c: seq<Entry>)
    ensures Flat(chunks + [c]) == Flat(chunks) + c
  {
    assert (chunks + [c])[..|chunks|] == chunks;
  }

  lemma CutStep(chunks: seq<seq<Entry>>, c: seq<Entry>, es: seq<Entry>, e: Entry)
    requires Cut(chunks, c, es)
    ensures if IsFull(c + [e]) then Cut(chunks + [c + [e]], [], es + [e]) else Cut(chunks, c + [e], es + [e])
  {
    JoinedStep(c, e);
    FlatStep(chunks, c + [e]);
    assert Flat(chunks) + (c + [e]) == es + [e];
  }

  lemma JoinedIsEmpty(c: seq<Entry>)
    ensures c == [] <==> Joined(c) == ""
  {
  }

  lemma CutEnds(chunks: seq<seq<Entry>>, c: seq<Entry>, es: seq<Entry>)
    requires Cut(chunks, c, es)
    ensures c == [] <==> Joined(c) == ""
    ensures IsChunking(if c == [] then chunks else chunks + [c], es)
  {
    hide Joined, Flat;
    JoinedIsEmpty(c);
    FlatStep(chunks, c);
    if c == [] {
      assert Flat(chunks) + c == Flat(chunks);
    }
  }

  lemma ChunkDone(chunks: seq<seq<Entry>>, c: seq<Entry>)
    ensures DirectoryOf(chunks + [c]) == DirectoryOf(chunks)[Decimal(|chunks|) := FileText(Joined(c))]
  {
    assert (chunks + [c])[..|chunks|] == chunks;
  }

  // created is what creating the directory answered: false if it was there already.
  method SaveKv(cache: Cache, order: seq<string>, created: bool)
    returns (st: Status, dir: Directory, ghost chunks: seq<seq<Entry>>)
    requires IsListing(order, cache.m.Keys)
    ensures !created ==> st == SaveError && dir == map[]
    ensures created ==> st == SaveComplete && dir == DirectoryOf(chunks)
    ensures created ==> IsChunking(chunks, EntriesOf(cache.m, order))
  {
    dir, chunks := map[], [];
    if !created {
      st := SaveError;
      return;
    }
    hide Joined, DirectoryOf, Decimal, FileText, Cut, IsChunking;
    st := SaveComplete;
    ghost var es := EntriesOf(cache.m, order);
    ghost var c: seq<Entry> := [];
    var buffer, nFiles, first := "", 0, true;
    NothingSavedYet();
    for i := 0 to |order|
      invariant nFiles == |chunks| && dir == DirectoryOf(chunks)
      invariant buffer == Joined(c) && (first <==> c == [])
      invariant Cut(chunks, c, es[..i])
    {
      var k, v := order[i], cache.m[order[i]];
      if !first {
        buffer := buffer + ",";
      }
      first := false;
      buffer := buffer + ("\"" + k + "\":" + v);
      JoinedStep(c, es[i]);
      CutStep(chunks, c, es[..i], es[i]);
      assert es[..i] + [es[i]] == es[..i + 1];
      c := c + [es[i]];
      if |buffer| >= MAX_DATA_FILE_SIZE {
        dir := FlushKvBuffer(dir, Decimal(nFiles), buffer);
        nFiles := nFiles + 1;
        buffer, first := "", true;
        ChunkDone(chunks, c);
        chunks, c := chunks + [c], [];
      }
    }
    assert es[..|order|] == es;
    CutEnds(chunks, c, es);
    if |buffer| > 0 {
      dir := FlushKvBuffer(dir, Decimal(nFiles), buffer);
      ChunkDone(chunks, c);
      chunks := chunks + [c];
    }
  }

  // What parsing a file finds: no JSON, JSON without an object of keys, or the keys.
  datatype Content = Malformed | NoKeys | Keys(keys: map<string, string>)

  function KeysIn(s: string): Content {
    if s == [] || s[0] != '{' then NoKeys else
      var keys := ReadObject(s);
      if keys.None? then Malformed else Keys(keys.value)
  }

  function ContentOf(s: string): Content {
    if s == [] || s[0] != '{' then
      if IsValueText(s) then NoKeys else Malformed
    else
      var root := ReadObject(s);
      if root.None? then Malformed
      else if "keys" !in root.value then NoKeys
      else KeysIn(root.value["keys"])
  }

  datatype Loaded = Loaded(m: map<string, string>, nKeys: nat, st: Status)

  function LoadFile(l: Loaded, text: string): Loaded {
    match ContentOf(text)
    case Malformed => l.(st := LoadError)
    case NoKeys => l.(st := LoadComplete)
    case Keys(keys) => Loaded(l.m + keys, l.nKeys + |keys|, LoadComplete)
  }

  // Loading the files one after the other; a malformed one ends it.
  function LoadFiles(l: Loaded, texts: seq<string>): Loaded
    decreases |texts|
  {
    if texts == [] then l else
      var l' := LoadFile(l, texts[0]);
      if l'.st == LoadError then l' else LoadFiles(l', texts[1..])
  }

  function TextsOf(dir: Directory, listing: seq<string>): (texts: seq<string>)
    requires forall n :: n in listing ==> n in dir
    ensures |texts| == |listing|
  {
    seq(|listing|, i requires 0 <= i < |listing| => dir[listing[i]])
  }

  lemma KeyDone(m: map<string, string>, keys: map<string, string>, todo: set<string>, k: string)
    requires k in todo && todo <= keys.Keys
    ensures (m + (keys - todo))[k := keys[k]] == m + (keys - (todo - {k}))
  {
    var s, t := (m + (keys - todo))[k := keys[k]], m + (keys - (todo - {k}));
    assert s.Keys == t.Keys;
    assert forall x :: x in t ==> s[x] == t[x];
  }

  // The keys of one file, in the order in which the parser holds them.
  method SetKeys(cache: Cache, keys: map<string, string>, nKeys: nat) returns (n: nat)
    modifies cache
    ensures cache.m == old(cache.m) + keys && n == nKeys + |keys|
  {
    n := nKeys;
    var todo := keys.Keys;
    while todo != {}
      invariant todo <= keys.Keys
      invariant cache.m == old(cache.m) + (keys - todo)
      invariant n + |todo| == nKeys + |keys|
      decreases |todo|
    {
      var k :| k in todo;
      cache.Set(k, keys[k]);
      n := n + 1;
      KeyDone(old(cache.m), keys, todo, k);
      todo := todo - {k};
    }
    assert keys - todo == keys;
  }

  method ReadKvFile(cache: Cache, text: string, nKeys: nat) returns (st: Status, n: nat)
    modifies cache
    ensures Loaded(cache.m, n, st) == LoadFile(Loaded(old(cache.m), nKeys, Loading), text)
  {
    hide ContentOf;
    st, n := LoadComplete, nKeys;
    match ContentOf(text) {
      case Malformed => st := LoadError;
      case NoKeys =>
      case Keys(keys) => n := SetKeys(cache, keys, n);
    }
  }

  lemma LoadStep(l: Loaded, texts: seq<string>, i: nat)
    requires i < |texts|
    ensures var l' := LoadFile(l, texts[i]);
            LoadFiles(l, texts[i..]) == if l'.st == LoadError then l' else LoadFiles(l', texts[i + 1..])
    ensures forall st :: LoadFile(l.(st := st), texts[i]) == LoadFile(l, texts[i])
  {
    assert texts[i..][0] == texts[i] && texts[i..][1..] == texts[i + 1..];
  }

  method LoadKv(cache: Cache, dir: Directory, listing: seq<string>) returns (st: Status, nKeys: nat)
    requires IsListing(listing, dir.Keys)
    modifies cache
    ensures Loaded(cache.m, nKeys, st) == LoadFiles(Loaded(old(cache.m), 0, Loading), TextsOf(dir, listing))
  {
    st, nKeys := Loading, 0;
    ghost var texts := TextsOf(dir, listing);
    ghost var end := LoadFiles(Loaded(cache.m, 0, Loading), texts);
    assert texts[0..] == texts && texts[|texts|..] == [];
    for i := 0 to |listing|
      invariant LoadFiles(Loaded(cache.m, nKeys, st), texts[i..]) == end
    {
      hide LoadFile, LoadFiles;
      LoadStep(Loaded(cache.m, nKeys, st), texts, i);
      st, nKeys := ReadKvFile(cache, dir[listing[i]], nKeys);
      if st == LoadError {
        break;
      }
    }
  }

  function SetAll(m: map<string, string>, es: seq<Entry>): map<string, string>
    decreases |es|
  {
    if es == [] then m else SetAll(m[es[0].key := es[0].value], es[1..])
  }

  // Answers how many keys were cleared.
  method ClearSet(cache: Cache, es: seq<Entry>) returns (count: nat)
    modifies cache
    ensures count == |old(cache.m)|
    ensures cache.m == SetAll(map[], es)
  {
    count := cache.Clear();
    for i := 0 to |es|
      invariant SetAll(cache.m, es[i..]) == SetAll(map[], es)
    {
      assert es[i..][0] == es[i] && es[i..][1..] == es[i + 1..];
      cache.Set(es[i].key, es[i].value);
    }
  }
}
