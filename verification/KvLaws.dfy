// What saving and loading promise: the files hold the map, in whatever order they are listed.
module KvLaws {
  import opened Common
  import opened JsonText
  import opened KvExecutor
  import opened KvChunks
  import opened KvReadBack
  import opened KvListings

  ghost predicate AllValueTexts(m: map<string, string>) {
    forall k :: k in m ==> IsValueText(m[k])
  }

  lemma ReadableEntries(es: seq<Entry>, m: map<string, string>)
    requires Enumerates(es, m) && AllClean(m) && AllValueTexts(m)
    ensures Readable(es)
  {
    forall i | 0 <= i < |es|
      ensures Clean(es[i].key) && IsValueText(es[i].value)
    {
      assert es[i] in multiset(es);
      assert es[i] in ItemsOf(m);
    }
  }

  lemma EnumeratedNext(c: seq<Entry>, m: map<string, string>)
    requires c != [] && c[0].key !in m && Enumerates(c[1..], m)
    ensures Enumerates(c, m[c[0].key := c[0].value])
  {
    var k := c[0].key;
    assert c == [c[0]] + c[1..];
    assert m[k := c[0].value] - {k} == m;
    ItemsWithout(m[k := c[0].value], k);
  }

  // m1 and m2 are two parts of m without a key in common.
  ghost predicate IsSplit(m: map<string, string>, m1: map<string, string>, m2: map<string, string>) {
    && (forall k :: k in m ==> k in m1 || k in m2)
    && (forall k :: k in m1 ==> k in m && m[k] == m1[k] && k !in m2)
    && (forall k :: k in m2 ==> k in m && m[k] == m2[k])
  }

  lemma TakeKey(m: map<string, string>, m1: map<string, string>, m2: map<string, string>, k: string)
    requires k in m && IsSplit(m - {k}, m1, m2)
    ensures k !in m1 && IsSplit(m, m1[k := m[k]], m2)
  {
    assert k !in m - {k};
    forall x | x in m
      ensures x == k || x in m1 || x in m2
    {
      assert x == k || x in m - {k};
    }
  }

  lemma SplitSize(m: map<string, string>, m1: map<string, string>, m2: map<string, string>)
    requires IsSplit(m, m1, m2)
    ensures |m| == |m1| + |m2|
  {
    assert m.Keys == m1.Keys + m2.Keys;
    assert |m1.Keys + m2.Keys| == |m1.Keys| + |m2.Keys|;
  }

  lemma SplitIsReadable(m: map<string, string>, m1: map<string, string>, m2: map<string, string>)
    requires IsSplit(m, m1, m2) && AllClean(m) && AllValueTexts(m)
    ensures AllClean(m1) && AllValueTexts(m1) && AllClean(m2) && AllValueTexts(m2)
  {
    hide Clean, IsValueText;
  }

  lemma SplitOverlays(m0: map<string, string>, m: map<string, string>, m1: map<string, string>, m2: map<string, string>)
    requires IsSplit(m, m1, m2)
    ensures m0 + m1 + m2 == m0 + m
  {
    var t := m0 + m1 + m2;
    assert t.Keys == (m0 + m).Keys;
    assert forall k :: k in t ==> t[k] == (m0 + m)[k];
  }

  // An enumeration in two parts enumerates two parts of the map.
  lemma {:induction false} SplitEnumeration(c: seq<Entry>, d: seq<Entry>, m: map<string, string>)
    returns (m1: map<string, string>, m2: map<string, string>)
    requires Enumerates(c + d, m)
    ensures Enumerates(c, m1) && Enumerates(d, m2) && IsSplit(m, m1, m2)
    decreases |c|
  {
    if c == [] {
      m1, m2 := map[], m;
      assert c + d == d && ItemsOf(m1) == {};
    } else {
      hide Enumerates, IsSplit;
      var e := c[0];
      EnumeratedFirst(c + d, m);
      assert (c + d)[0] == e && (c + d)[1..] == c[1..] + d;
      m1, m2 := SplitEnumeration(c[1..], d, m - {e.key});
      TakeKey(m, m1, m2, e.key);
      EnumeratedNext(c, m1);
      m1 := m1[e.key := e.value];
    }
  }

  lemma FileHoldsMap(l: Loaded, c: seq<Entry>, m: map<string, string>)
    requires c != [] && Enumerates(c, m) && AllClean(m) && AllValueTexts(m)
    ensures LoadFile(l, FileText(Joined(c))) == Loaded(l.m + m, l.nKeys + |m|, LoadComplete)
  {
    ReadableEntries(c, m);
    EnumerationIsMap(c, m);
    FileIsRead(c);
  }

  lemma LoadNothing(l: Loaded, m: map<string, string>)
    requires Enumerates(Flat([]), m)
    ensures LoadFiles(l, FilesOf([])) == Loaded(l.m + m, l.nKeys + |m|, l.st)
  {
    EnumerationIsMap([], m);
    assert l.m + map[] == l.m;
  }

  // Files that hold the whole of m between them are loaded into just m, on top of what is there.
  lemma {:induction false} LoadHoldsMap(l: Loaded, chunks: seq<seq<Entry>>, m: map<string, string>)
    requires Enumerates(Flat(chunks), m) && AllClean(m) && AllValueTexts(m)
    requires forall i :: 0 <= i < |chunks| ==> chunks[i] != []
    ensures LoadFiles(l, FilesOf(chunks))
            == Loaded(l.m + m, l.nKeys + |m|, if chunks == [] then l.st else LoadComplete)
    decreases |chunks|
  {
    hide LoadFile, LoadFiles, FilesOf, FileText, Enumerates, Flat, AllClean, AllValueTexts, IsSplit;
    if chunks == [] {
      LoadNothing(l, m);
    } else {
      var c, rest := chunks[0], chunks[1..];
      assert chunks == [c] + rest;
      FlatFront(c, rest);
      var m1, m2 := SplitEnumeration(c, Flat(rest), m);
      SplitIsReadable(m, m1, m2);
      SplitSize(m, m1, m2);
      SplitOverlays(l.m, m, m1, m2);
      FileHoldsMap(l, c, m1);
      LoadFront(l, chunks);
      LoadHoldsMap(Loaded(l.m + m1, l.nKeys + |m1|, LoadComplete), rest, m2);
    }
  }

  // The files of a save, in the order of any listing, hold the whole map between them.
  lemma SavedFiles(m: map<string, string>, order: seq<string>, chunks: seq<seq<Entry>>, listing: seq<string>)
    returns (shuffled: seq<seq<Entry>>)
    requires IsListing(order, m.Keys) && IsChunking(chunks, EntriesOf(m, order))
    requires IsListing(listing, DirectoryOf(chunks).Keys)
    ensures TextsOf(DirectoryOf(chunks), listing) == FilesOf(shuffled)
    ensures Enumerates(Flat(shuffled), m)
    ensures forall i :: 0 <= i < |shuffled| ==> shuffled[i] != []
    ensures shuffled == [] <==> m == map[]
  {
    shuffled := ListedChunks(chunks, listing);
    ListingMultiset(order, m);
    FlatOfShuffled(shuffled, chunks);
    assert |shuffled| == |multiset(shuffled)| == |multiset(chunks)| == |chunks|;
    ChunksHaveEntries(chunks);
    EnumerationIsMap(EntriesOf(m, order), m);
    forall i | 0 <= i < |shuffled|
      ensures shuffled[i] != []
    {
      assert shuffled[i] in multiset(chunks);
    }
  }

  // Save and load: whatever the order in which the map was iterated and the files are listed,
  // loading puts the saved entries on top of what is in the map, and counts them. Only the files
  // of an empty map, which has none, leave the status at Loading.
  lemma SaveThenLoadOverlays(m: map<string, string>, order: seq<string>, chunks: seq<seq<Entry>>,
                             listing: seq<string>, m0: map<string, string>)
    requires AllClean(m) && AllValueTexts(m)
    requires IsListing(order, m.Keys) && IsChunking(chunks, EntriesOf(m, order))
    requires IsListing(listing, DirectoryOf(chunks).Keys)
    ensures LoadFiles(Loaded(m0, 0, Loading), TextsOf(DirectoryOf(chunks), listing))
            == Loaded(m0 + m, |m|, if m == map[] then Loading else LoadComplete)
  {
    var shuffled := SavedFiles(m, order, chunks, listing);
    LoadHoldsMap(Loaded(m0, 0, Loading), shuffled, m);
  }

  // Keys are written without escapes, so a map is restored exactly when none of its keys needs one.
  lemma SaveThenLoadRestoresExactlyCleanKeys(m: map<string, string>, order: seq<string>,
                                             chunks: seq<seq<Entry>>, listing: seq<string>)
    requires AllValueTexts(m)
    requires IsListing(order, m.Keys) && IsChunking(chunks, EntriesOf(m, order))
    requires IsListing(listing, DirectoryOf(chunks).Keys)
    ensures LoadFiles(Loaded(map[], 0, Loading), TextsOf(DirectoryOf(chunks), listing)).m == m <==> AllClean(m)
  {
    assert TotalWeight(map[]) == 0;
    hide LoadFiles, FilesOf, TextsOf, BufferWeight, TotalWeight, EntriesWeight;
    hide Enumerates, Flat, IsListing, IsChunking, Clean, DirectoryOf, EntriesOf, MapOf;
    var empty := Loaded(map[], 0, Loading);
    var shuffled := SavedFiles(m, order, chunks, listing);
    LoadWeighs(empty, shuffled);
    BuffersWeighTheirEntries(shuffled);
    EnumerationIsMap(Flat(shuffled), m);
    if AllClean(m) {
      SaveThenLoadOverlays(m, order, chunks, listing, map[]);
      assert map[] + m == m;
    }
  }

  lemma SameBuffer(a: string, u: string, b: string, v: string)
    ensures Joined([Entry(a + "\":" + u + ",\"" + b, v)]) == Joined([Entry(a, u), Entry(b, v)])
  {
    var key := a + "\":" + u + ",\"" + b;
    JoinedFront(Entry(a, u), [Entry(b, v)]);
    assert [Entry(a, u)] + [Entry(b, v)] == [Entry(a, u), Entry(b, v)];
    assert EntryText(Entry(key, v)) == EntryText(Entry(a, u)) + "," + EntryText(Entry(b, v));
  }

  lemma OneChunk(es: seq<Entry>)
    requires es != []
    ensures DirectoryOf([es]) == map[Decimal(0) := FileText(Joined(es))]
    ensures IsChunking([es], es) <==> |Joined(es[..|es| - 1])| < MAX_DATA_FILE_SIZE
  {
    FlatStep([], es);
    ChunkDone([], es);
    assert [] + [es] == [es];
    assert Flat([]) + es == es;
  }

  // What goes wrong otherwise: a quote in a key ends it, and the rest of the key is read as more
  // members. Two different maps, the second one iterated with a first, have the same directory when
  // each is written as one chunk. The first always is; the second is exactly if its first entry alone
  // stays below the limit. No loader could restore both.
  lemma QuotedKeyCollides(a: string, u: string, b: string, v: string)
    requires a != b
    ensures var key := a + "\":" + u + ",\"" + b;
            var m1, m2 := map[key := v], map[a := u, b := v];
            && !Clean(key) && m1 != m2
            && IsListing([key], m1.Keys) && IsListing([a, b], m2.Keys)
            && var es1, es2 := EntriesOf(m1, [key]), EntriesOf(m2, [a, b]);
            && DirectoryOf([es1]) == DirectoryOf([es2])
            && IsChunking([es1], es1)
            && (IsChunking([es2], es2) <==> |a| + |u| + 3 < MAX_DATA_FILE_SIZE)
  {
    var key := a + "\":" + u + ",\"" + b;
    var m1, m2 := map[key := v], map[a := u, b := v];
    assert key[|a|] == '"';
    assert a in m2 && |key| > |a|;
    var es1, es2 := [Entry(key, v)], [Entry(a, u), Entry(b, v)];
    assert EntriesOf(m1, [key]) == es1 && EntriesOf(m2, [a, b]) == es2;
    SameBuffer(a, u, b, v);
    OneChunk(es1);
    OneChunk(es2);
    assert es1[..0] == [] && es2[..1] == [Entry(a, u)];
  }

  // Loading answers Loading exactly when there was no file to load, whatever the files hold.
  lemma {:induction false} LoadingMeansNoFiles(l: Loaded, texts: seq<string>)
    ensures LoadFiles(l, texts).st == Loading <==> texts == [] && l.st == Loading
    decreases |texts|
  {
    if texts != [] {
      LoadingMeansNoFiles(LoadFile(l, texts[0]), texts[1..]);
    }
  }

  ghost predicate NoneMalformed(texts: seq<string>) {
    forall i :: 0 <= i < |texts| ==> !ContentOf(texts[i]).Malformed?
  }

  lemma {:induction false} StatusOfLoading(l: Loaded, texts: seq<string>)
    requires l.st != LoadError
    ensures LoadFiles(l, texts).st == LoadError <==> !NoneMalformed(texts)
    ensures texts != [] && NoneMalformed(texts) ==> LoadFiles(l, texts).st == LoadComplete
    decreases |texts|
  {
    if texts != [] {
      var l' := LoadFile(l, texts[0]);
      if l'.st != LoadError {
        StatusOfLoading(l', texts[1..]);
        assert NoneMalformed(texts) <==> NoneMalformed(texts[1..]);
      }
    }
  }

  lemma {:induction false} LoadingEndsAt(l: Loaded, texts: seq<string>, i: nat)
    requires i < |texts| && NoneMalformed(texts[..i]) && ContentOf(texts[i]).Malformed?
    ensures LoadFiles(l, texts) == LoadFiles(l, texts[..i]).(st := LoadError)
    decreases i
  {
    if i > 0 {
      assert !ContentOf(texts[..i][0]).Malformed?;
      assert texts[..i][1..] == texts[1..][..i - 1];
      LoadingEndsAt(LoadFile(l, texts[0]), texts[1..], i - 1);
    }
  }

  // Loading fails exactly if one of the files is malformed, whatever the others hold.
  lemma LoadErrorMeansMalformed(m0: map<string, string>, dir: Directory, listing: seq<string>)
    requires IsListing(listing, dir.Keys)
    ensures LoadFiles(Loaded(m0, 0, Loading), TextsOf(dir, listing)).st == LoadError
            <==> exists name :: name in dir && ContentOf(dir[name]).Malformed?
  {
    var texts := TextsOf(dir, listing);
    StatusOfLoading(Loaded(m0, 0, Loading), texts);
    if name :| name in dir && ContentOf(dir[name]).Malformed? {
      var i :| 0 <= i < |listing| && listing[i] == name;
      assert ContentOf(texts[i]).Malformed?;
    }
  }

  // It ends at the first malformed file that is listed: what was loaded before stays, and is counted,
  // and nothing else is loaded.
  lemma LoadErrorKeepsFilesBefore(m0: map<string, string>, dir: Directory, listing: seq<string>, i: nat)
    requires IsListing(listing, dir.Keys) && i < |listing| && ContentOf(dir[listing[i]]).Malformed?
    requires forall j :: 0 <= j < i ==> !ContentOf(dir[listing[j]]).Malformed?
    ensures LoadFiles(Loaded(m0, 0, Loading), TextsOf(dir, listing))
            == LoadFiles(Loaded(m0, 0, Loading), TextsOf(dir, listing[..i])).(st := LoadError)
  {
    var texts := TextsOf(dir, listing);
    assert texts[..i] == TextsOf(dir, listing[..i]);
    LoadingEndsAt(Loaded(m0, 0, Loading), texts, i);
  }

  ghost function KeysOf(text: string): map<string, string> {
    if ContentOf(text).Keys? then ContentOf(text).keys else map[]
  }

  ghost function CountOfKeys(texts: seq<string>): nat {
    if texts == [] then 0 else |KeysOf(texts[0])| + CountOfKeys(texts[1..])
  }

  lemma FirstFileLoaded(l: Loaded, texts: seq<string>)
    requires texts != [] && NoneMalformed(texts)
    ensures var l' := Loaded(l.m + KeysOf(texts[0]), l.nKeys + |KeysOf(texts[0])|, LoadComplete);
            LoadFiles(l, texts) == LoadFiles(l', texts[1..]) && NoneMalformed(texts[1..])
  {
    hide ContentOf;
    assert LoadFile(l, texts[0]) == Loaded(l.m + KeysOf(texts[0]), l.nKeys + |KeysOf(texts[0])|, LoadComplete) by {
      assert l.m + map[] == l.m;
    }
  }

  // Without a malformed file, all keys are counted, in whatever file and however often they are.
  lemma {:induction false} KeysAreCounted(l: Loaded, texts: seq<string>)
    requires NoneMalformed(texts)
    ensures LoadFiles(l, texts).nKeys == l.nKeys + CountOfKeys(texts)
    decreases |texts|
  {
    if texts != [] {
      var l' := Loaded(l.m + KeysOf(texts[0]), l.nKeys + |KeysOf(texts[0])|, LoadComplete);
      FirstFileLoaded(l, texts);
      KeysAreCounted(l', texts[1..]);
    }
  }

  lemma {:induction false} KeyOfNoFile(l: Loaded, texts: seq<string>, k: string)
    requires NoneMalformed(texts) && forall i :: 0 <= i < |texts| ==> k !in KeysOf(texts[i])
    ensures k in LoadFiles(l, texts).m <==> k in l.m
    ensures k in l.m ==> LoadFiles(l, texts).m[k] == l.m[k]
    decreases |texts|
  {
    hide KeysOf, NoneMalformed;
    if texts != [] {
      var l' := Loaded(l.m + KeysOf(texts[0]), l.nKeys + |KeysOf(texts[0])|, LoadComplete);
      FirstFileLoaded(l, texts);
      KeyOfNoFile(l', texts[1..], k);
    }
  }

  // Of the files that hold a key the last one counts; a key that is in no file stays as it was.
  lemma {:induction false} LastFileCounts(l: Loaded, texts: seq<string>, k: string, i: nat)
    requires NoneMalformed(texts) && i < |texts| && k in KeysOf(texts[i])
    requires forall j :: i < j < |texts| ==> k !in KeysOf(texts[j])
    ensures k in LoadFiles(l, texts).m && LoadFiles(l, texts).m[k] == KeysOf(texts[i])[k]
    decreases |texts|
  {
    hide KeysOf, NoneMalformed;
    var l' := Loaded(l.m + KeysOf(texts[0]), l.nKeys + |KeysOf(texts[0])|, LoadComplete);
    FirstFileLoaded(l, texts);
    if i == 0 {
      KeyOfNoFile(l', texts[1..], k);
    } else {
      LastFileCounts(l', texts[1..], k, i - 1);
    }
  }

  lemma {:induction false} EntryIsInFlat(chunks: seq<seq<Entry>>, i: nat, j: nat)
    requires i < |chunks| && j < |chunks[i]|
    ensures chunks[i][j] in Flat(chunks)
    decreases |chunks|
  {
    var last := |chunks| - 1;
    if i < last {
      EntryIsInFlat(chunks[..last], i, j);
    }
  }

  // If any file of a save has been cut short, anywhere, loading does not take it for complete, in
  // whatever order the files are listed.
  lemma CutShortSaveIsLoadError(m: map<string, string>, order: seq<string>, chunks: seq<seq<Entry>>,
                                i: nat, n: nat, listing: seq<string>, m0: map<string, string>)
    requires AllClean(m) && AllValueTexts(m)
    requires IsListing(order, m.Keys) && IsChunking(chunks, EntriesOf(m, order))
    requires i < |chunks| && n < |FileText(Joined(chunks[i]))|
    requires IsListing(listing, DirectoryOf(chunks).Keys)
    ensures var dir := DirectoryOf(chunks)[Decimal(i) := FileText(Joined(chunks[i]))[..n]];
            LoadFiles(Loaded(m0, 0, Loading), TextsOf(dir, listing)).st == LoadError
  {
    hide Joined, FileText, Decimal, ContentOf, LoadFiles, TextsOf, Clean, IsValueText;
    var dir := DirectoryOf(chunks)[Decimal(i) := FileText(Joined(chunks[i]))[..n]];
    DirectoryHoldsChunks(chunks);
    assert dir.Keys == DirectoryOf(chunks).Keys;
    ListingMultiset(order, m);
    ReadableEntries(EntriesOf(m, order), m);
    forall j | 0 <= j < |chunks[i]|
      ensures Clean(chunks[i][j].key) && IsValueText(chunks[i][j].value)
    {
      EntryIsInFlat(chunks, i, j);
    }
    CutShortIsMalformed(chunks[i], n);
    LoadErrorMeansMalformed(m0, dir, listing);
  }

  lemma {:induction false} BuffersAreFull(chunks: seq<seq<Entry>>)
    requires forall i :: 0 <= i < |chunks| - 1 ==> IsFull(chunks[i])
    ensures (|chunks| - 1) * 10_485_761 <= BufferWeight(chunks)
    decreases |chunks|
  {
    if |chunks| > 1 {
      BuffersAreFull(chunks[1..]);
    }
  }

  lemma OneMoreTimes(n: nat, bound: nat)
    ensures (n + 1) * bound == n * bound + bound
  {
  }

  lemma {:induction false} BuffersAreBounded(chunks: seq<seq<Entry>>, bound: nat)
    requires forall i :: 0 <= i < |chunks| ==> |Joined(chunks[i])| + 1 <= bound
    ensures BufferWeight(chunks) <= |chunks| * bound
    decreases |chunks|
  {
    if chunks != [] {
      hide Joined;
      BuffersAreBounded(chunks[1..], bound);
      OneMoreTimes(|chunks[1..]|, bound);
    }
  }

  // How many files a save writes: no more than files of 10 MiB could be filled with, and one for the
  // rest; and no fewer than it takes if each held as much as it may, with an entry of the longest
  // kind at its end.
  lemma NumberOfFiles(m: map<string, string>, order: seq<string>, chunks: seq<seq<Entry>>, most: nat)
    requires IsListing(order, m.Keys) && IsChunking(chunks, EntriesOf(m, order))
    requires forall k :: k in m ==> |k| + |m[k]| + 3 <= most
    ensures (|DirectoryOf(chunks)| - 1) * 10_485_761 <= TotalWeight(m)
    ensures TotalWeight(m) <= |DirectoryOf(chunks)| * (10_485_761 + most)
  {
    hide Joined, Flat, TotalWeight, BufferWeight, EntriesWeight, DirectoryOf, FileText, Decimal;
    DirectoryHoldsChunks(chunks);
    ListingMultiset(order, m);
    EnumerationIsMap(EntriesOf(m, order), m);
    BuffersWeighTheirEntries(chunks);
    BuffersAreFull(chunks);
    forall i | 0 <= i < |chunks|
      ensures |Joined(chunks[i])| + 1 <= 10_485_761 + most
    {
      EntryIsInFlat(chunks, i, |chunks[i]| - 1);
      ChunkExceedsByOneEntry(chunks[i]);
    }
    BuffersAreBounded(chunks, 10_485_761 + most);
  }

  // Setting the items of a request one by one, in any order, overlays the map with them; clear_set,
  // which starts from nothing, leaves exactly the request.
  lemma {:induction false} SetAllOverlays(m0: map<string, string>, es: seq<Entry>, m: map<string, string>)
    requires Enumerates(es, m)
    ensures SetAll(m0, es) == m0 + m
    decreases |es|
  {
    if es == [] {
      EnumerationIsMap(es, m);
      assert m0 + map[] == m0;
    } else {
      var k := es[0].key;
      EnumeratedFirst(es, m);
      SetAllOverlays(m0[k := m[k]], es[1..], m - {k});
      assert m0[k := m[k]] + (m - {k}) == m0 + m;
    }
  }
}
