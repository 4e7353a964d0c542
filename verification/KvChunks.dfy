// How a map is cut into files, and what the files are called.
module KvChunks {
  import opened KvExecutor

  // The number that digits are read as, the last one counting least.
  ghost function ValueOf(digits: string): int {
    if digits == [] then 0 else
      10 * ValueOf(digits[..|digits| - 1]) + (digits[|digits| - 1] as int - '0' as int)
  }

  // The numeral of a number is read as that number, has only digits and no leading zero.
  lemma {:induction false} DecimalIsNumeral(n: nat)
    ensures var d := Decimal(n);
            && ValueOf(d) == n && d != [] && (|d| > 1 ==> d[0] != '0')
            && forall i :: 0 <= i < |d| ==> '0' <= d[i] <= '9'
  {
    var digits := "0123456789";
    assert digits[n % 10] as int == '0' as int + n % 10;
    if n < 10 {
      assert Decimal(n)[..0] == [];
    } else {
      DecimalIsNumeral(n / 10);
      assert Decimal(n)[..|Decimal(n)| - 1] == Decimal(n / 10);
      assert ValueOf(Decimal(n / 10)) != 0;
      if |Decimal(n / 10)| == 1 {
        assert Decimal(n / 10)[..0] == [];
      }
    }
  }

  lemma DecimalIsInjective(a: nat, b: nat)
    requires Decimal(a) == Decimal(b)
    ensures a == b
  {
    DecimalIsNumeral(a);
    DecimalIsNumeral(b);
  }

  ghost predicate IsNumbered(name: string, count: nat) {
    exists i :: 0 <= i < count && name == Decimal(i)
  }

  // No earlier number is written like this one.
  lemma NameIsNew(dir: Directory, last: nat)
    requires forall n :: n in dir ==> IsNumbered(n, last)
    ensures Decimal(last) !in dir
  {
    forall i: nat | i < last
      ensures Decimal(i) != Decimal(last)
    {
      if Decimal(i) == Decimal(last) {
        DecimalIsInjective(i, last);
      }
    }
  }

  // Every chunk has a file of its own, named with its number, and there are no other files.
  lemma {:induction false} DirectoryHoldsChunks(chunks: seq<seq<Entry>>)
    ensures var dir := DirectoryOf(chunks);
            && (forall i :: 0 <= i < |chunks| ==>
                  Decimal(i) in dir && dir[Decimal(i)] == FileText(Joined(chunks[i])))
            && (forall n :: n in dir ==> IsNumbered(n, |chunks|))
            && |dir| == |chunks|
    decreases |chunks|
  {
    hide FileText, Joined, Decimal;
    if chunks != [] {
      var last := |chunks| - 1;
      var before := chunks[..last];
      DirectoryHoldsChunks(before);
      assert |before| == last;
      NameIsNew(DirectoryOf(before), last);
      forall i | 0 <= i < |chunks|
        ensures Decimal(i) in DirectoryOf(chunks)
        ensures DirectoryOf(chunks)[Decimal(i)] == FileText(Joined(chunks[i]))
      {
        if i < last {
          assert before[i] == chunks[i] && Decimal(i) in DirectoryOf(before);
        }
      }
      forall n | n in DirectoryOf(chunks)
        ensures IsNumbered(n, |chunks|)
      {
        assert n in DirectoryOf(before) || n == Decimal(last);
      }
    }
  }

  lemma {:induction false} JoinedGrows(c: seq<Entry>, n: nat)
    requires n <= |c|
    ensures |Joined(c[..n])| <= |Joined(c)|
    decreases |c|
  {
    if n < |c| {
      var front := c[..|c| - 1];
      assert front[..n] == c[..n];
      JoinedGrows(front, n);
    } else {
      assert c[..n] == c;
    }
  }

  lemma {:induction false} FlatFront(c: seq<Entry>, chunks: seq<seq<Entry>>)
    ensures Flat([c] + chunks) == c + Flat(chunks)
    decreases |chunks|
  {
    if chunks == [] {
      assert ([c] + chunks)[..0] == [];
    } else {
      var front := chunks[..|chunks| - 1];
      assert ([c] + chunks)[..|chunks|] == [c] + front;
      FlatFront(c, front);
    }
  }

  lemma FirstChunkIsPrefix(a: seq<seq<Entry>>, es: seq<Entry>)
    requires a != [] && Flat(a) == es
    ensures |a[0]| <= |es| && a[0] == es[..|a[0]|] && Flat(a[1..]) == es[|a[0]|..]
    ensures es == a[0] + Flat(a[1..])
  {
    hide Flat;
    assert a == [a[0]] + a[1..];
    FlatFront(a[0], a[1..]);
  }

  // What the first chunk of a chunking is, and that the others cut the rest.
  lemma TailIsChunking(a: seq<seq<Entry>>, es: seq<Entry>)
    requires a != [] && IsChunking(a, es)
    ensures IsChunk(a[0]) && (IsFull(a[0]) || a[0] == es)
    ensures |a[0]| <= |es| && a[0] == es[..|a[0]|]
    ensures IsChunking(a[1..], es[|a[0]|..])
  {
    FirstChunkIsPrefix(a, es);
    if |a| == 1 {
      assert a[1..] == [];
    }
  }

  // Of two chunks that start the same entries, the other one is no longer than a full one.
  lemma NoLongerThanFull(c: seq<Entry>, d: seq<Entry>, es: seq<Entry>)
    requires IsFull(c) && IsChunk(d)
    requires |c| <= |es| && c == es[..|c|] && |d| <= |es| && d == es[..|d|]
    ensures |d| <= |c|
  {
    if |c| < |d| {
      var front := d[..|d| - 1];
      assert front[..|c|] == c;
      JoinedGrows(front, |c|);
    }
  }

  lemma ChunksHaveEntries(chunks: seq<seq<Entry>>)
    requires forall i :: 0 <= i < |chunks| ==> IsChunk(chunks[i])
    ensures chunks == [] <==> Flat(chunks) == []
  {
    if chunks != [] {
      var last := |chunks| - 1;
      assert |Flat(chunks)| == |Flat(chunks[..last])| + |chunks[last]|;
    }
  }

  lemma FirstChunksAgree(c: seq<Entry>, d: seq<Entry>, es: seq<Entry>)
    requires IsChunk(c) && IsChunk(d) && (IsFull(c) || c == es) && (IsFull(d) || d == es)
    requires |c| <= |es| && c == es[..|c|] && |d| <= |es| && d == es[..|d|]
    ensures c == d
  {
    if IsFull(c) {
      NoLongerThanFull(c, d, es);
    }
    if IsFull(d) {
      NoLongerThanFull(d, c, es);
    }
  }

  // The limit decides how the entries are cut: there is one way only.
  lemma {:induction false} ChunkingIsUnique(a: seq<seq<Entry>>, b: seq<seq<Entry>>, es: seq<Entry>)
    requires IsChunking(a, es) && IsChunking(b, es)
    ensures a == b
    decreases |a|
  {
    ChunksHaveEntries(a);
    ChunksHaveEntries(b);
    hide IsChunking, IsChunk, IsFull;
    if a != [] {
      TailIsChunking(a, es);
      TailIsChunking(b, es);
      FirstChunksAgree(a[0], b[0], es);
      ChunkingIsUnique(a[1..], b[1..], es[|a[0]|..]);
      assert a == [a[0]] + a[1..] && b == [b[0]] + b[1..];
    }
  }

  // What is written for one entry, to the letter.
  lemma FileOfOneEntry(key: string, value: string)
    ensures DirectoryOf([[Entry(key, value)]]) == map["0" := "{ \"keys\":{\"" + key + "\":" + value + "}}"]
  {
    var c := [Entry(key, value)];
    ChunkDone([], c);
    assert [] + [c] == [c];
    assert FileText(Joined(c)) == "{ \"keys\":{\"" + key + "\":" + value + "}}";
  }

  // A buffer exceeds the limit by no more than the entry that reached it.
  lemma ChunkExceedsByOneEntry(c: seq<Entry>)
    requires IsChunk(c)
    ensures |Joined(c)| <= MAX_DATA_FILE_SIZE + |EntryText(c[|c| - 1])|
  {
    var front, last := c[..|c| - 1], c[|c| - 1];
    assert c == front + [last];
    JoinedStep(front, last);
  }
}
