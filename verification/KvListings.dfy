// The orders in which a map is iterated and a directory is listed do not matter.
module KvListings {
  import opened JsonText
  import opened KvExecutor
  import opened KvChunks
  import opened KvReadBack

  function ItemsOf(m: map<string, string>): set<Entry> {
    set k | k in m :: Entry(k, m[k])
  }

  // Entries that are exactly the items of m, each once, in some order.
  ghost predicate Enumerates(es: seq<Entry>, m: map<string, string>) {
    multiset(es) == multiset(ItemsOf(m))
  }

  lemma ItemsWithout(m: map<string, string>, k: string)
    requires k in m
    ensures multiset(ItemsOf(m)) == multiset{Entry(k, m[k])} + multiset(ItemsOf(m - {k}))
    ensures |ItemsOf(m)| == 1 + |ItemsOf(m - {k})|
  {
    var e, rest := Entry(k, m[k]), ItemsOf(m - {k});
    forall x
      ensures x in ItemsOf(m) <==> x in {e} + rest
    {
      if x in ItemsOf(m) && x != e {
        assert x.key in m - {k} && x == Entry(x.key, (m - {k})[x.key]);
      }
    }
    assert ItemsOf(m) == {e} + rest;
    assert e !in rest;
  }

  lemma {:induction false} ListingMultiset(order: seq<string>, m: map<string, string>)
    requires IsListing(order, m.Keys)
    ensures Enumerates(EntriesOf(m, order), m)
    decreases |order|
  {
    if order == [] {
      assert m.Keys == {};
      assert ItemsOf(m) == {};
    } else {
      var k, rest := order[0], order[1..];
      var m' := m - {k};
      assert IsListing(rest, m'.Keys);
      ListingMultiset(rest, m');
      assert EntriesOf(m, order) == [Entry(k, m[k])] + EntriesOf(m', rest);
      ItemsWithout(m, k);
    }
  }

  lemma {:induction false} ItemsCount(m: map<string, string>)
    ensures |ItemsOf(m)| == |m|
    decreases |m|
  {
    if m == map[] {
      assert ItemsOf(m) == {};
    } else {
      var k :| k in m;
      ItemsWithout(m, k);
      ItemsCount(m - {k});
    }
  }

  lemma EnumeratedFirst(es: seq<Entry>, m: map<string, string>)
    requires es != [] && Enumerates(es, m)
    ensures es[0].key in m && m[es[0].key] == es[0].value
    ensures Enumerates(es[1..], m - {es[0].key})
  {
    assert es == [es[0]] + es[1..];
    assert es[0] in multiset(es);
    assert es[0] in ItemsOf(m);
    ItemsWithout(m, es[0].key);
    assert multiset(es[1..]) == multiset(es) - multiset{es[0]};
  }

  ghost function EntriesWeight(es: seq<Entry>): nat {
    if es == [] then 0 else Weight(es[0].key, es[0].value) + EntriesWeight(es[1..])
  }

  // An enumeration has the size, the weight and the content of its map.
  lemma {:induction false} EnumerationIsMap(es: seq<Entry>, m: map<string, string>)
    requires Enumerates(es, m)
    ensures |es| == |m| && EntriesWeight(es) == TotalWeight(m) && MapOf(es) == m
    decreases |es|
  {
    assert |es| == |multiset(es)| == |ItemsOf(m)|;
    ItemsCount(m);
    if es != [] {
      var k := es[0].key;
      EnumeratedFirst(es, m);
      EnumerationIsMap(es[1..], m - {k});
      TotalWeightWithout(m, k);
      assert m == (m - {k})[k := m[k]];
    }
  }

  lemma {:induction false} JoinedWeighs(es: seq<Entry>)
    requires es != []
    ensures |Joined(es)| + 1 == EntriesWeight(es)
    decreases |es|
  {
    assert es == [es[0]] + es[1..];
    JoinedFront(es[0], es[1..]);
    if |es| > 1 {
      JoinedWeighs(es[1..]);
    }
  }

  lemma {:induction false} EntriesWeightConcat(a: seq<Entry>, b: seq<Entry>)
    ensures EntriesWeight(a + b) == EntriesWeight(a) + EntriesWeight(b)
  {
    if a == [] {
      assert a + b == b;
    } else {
      assert (a + b)[1..] == a[1..] + b;
      EntriesWeightConcat(a[1..], b);
    }
  }

  lemma {:induction false} BuffersWeighTheirEntries(chunks: seq<seq<Entry>>)
    requires forall i :: 0 <= i < |chunks| ==> chunks[i] != []
    ensures BufferWeight(chunks) == EntriesWeight(Flat(chunks))
    decreases |chunks|
  {
    if chunks != [] {
      assert chunks == [chunks[0]] + chunks[1..];
      FlatFront(chunks[0], chunks[1..]);
      JoinedWeighs(chunks[0]);
      EntriesWeightConcat(chunks[0], Flat(chunks[1..]));
      BuffersWeighTheirEntries(chunks[1..]);
    }
  }

  function Without<T>(s: seq<T>, j: nat): (r: seq<T>)
    requires j < |s|
    ensures |r| == |s| - 1
  {
    s[..j] + s[j + 1..]
  }

  lemma ListingWithout(listing: seq<string>, names: set<string>, j: nat)
    requires IsListing(listing, names) && j < |listing|
    ensures IsListing(Without(listing, j), names - {listing[j]})
  {
    var others := Without(listing, j);
    forall n
      ensures n in others <==> n in names - {listing[j]}
    {
      if n in names && n != listing[j] {
        var i :| 0 <= i < |listing| && listing[i] == n;
        assert others[if i < j then i else i - 1] == n;
      }
    }
  }

  lemma {:induction false} ListingCount(order: seq<string>, names: set<string>)
    requires IsListing(order, names)
    ensures |order| == |names|
    decreases |order|
  {
    if order == [] {
      assert names == {};
    } else {
      assert order[1..] == Without(order, 0);
      ListingWithout(order, names, 0);
      ListingCount(order[1..], names - {order[0]});
    }
  }

  lemma ShuffledMultiset(chunks: seq<seq<Entry>>, rest: seq<seq<Entry>>, j: nat)
    requires chunks != [] && j <= |rest| && multiset(rest) == multiset(chunks[..|chunks| - 1])
    ensures multiset(rest[..j] + [chunks[|chunks| - 1]] + rest[j..]) == multiset(chunks)
  {
    assert rest == rest[..j] + rest[j..];
    assert chunks == chunks[..|chunks| - 1] + [chunks[|chunks| - 1]];
  }

  lemma TextsWithOneMore(dir: Directory, name: string, text: string, listing: seq<string>, j: nat)
    requires j < |listing| && listing[j] == name && name !in dir
    requires IsListing(listing, dir.Keys + {name})
    requires forall n :: n in Without(listing, j) ==> n in dir
    ensures var texts := TextsOf(dir, Without(listing, j));
            TextsOf(dir[name := text], listing) == texts[..j] + [text] + texts[j..]
  {
    var others := Without(listing, j);
    forall i | 0 <= i < |listing| && i != j
      ensures listing[i] != name && listing[i] == others[if i < j then i else i - 1]
    {
    }
  }

  lemma FilesWithOneMore(chunks: seq<seq<Entry>>, c: seq<Entry>, j: nat)
    requires j <= |chunks|
    ensures var files := FilesOf(chunks);
            FilesOf(chunks[..j] + [c] + chunks[j..]) == files[..j] + [FileText(Joined(c))] + files[j..]
  {
    hide FileText, Joined;
  }

  // In whatever order the directory lists the files, they hold the same chunks.
  lemma {:induction false} ListedChunks(chunks: seq<seq<Entry>>, listing: seq<string>)
    returns (shuffled: seq<seq<Entry>>)
    requires IsListing(listing, DirectoryOf(chunks).Keys)
    ensures multiset(shuffled) == multiset(chunks)
    ensures TextsOf(DirectoryOf(chunks), listing) == FilesOf(shuffled)
    decreases |chunks|
  {
    hide FileText, Joined, Decimal;
    if chunks == [] {
      ListingCount(listing, {});
      shuffled := [];
    } else {
      var last := |chunks| - 1;
      var name, before := Decimal(last), DirectoryOf(chunks[..last]);
      assert name !in before by {
        DirectoryHoldsChunks(chunks[..last]);
        assert |chunks[..last]| == last;
        NameIsNew(before, last);
      }
      assert name in DirectoryOf(chunks) && name in listing;
      var j :| 0 <= j < |listing| && listing[j] == name;
      var others := Without(listing, j);
      ListingWithout(listing, DirectoryOf(chunks).Keys, j);
      assert before.Keys == DirectoryOf(chunks).Keys - {name};
      var rest := ListedChunks(chunks[..last], others);
      assert |rest| == |FilesOf(rest)| == |others|;
      shuffled := rest[..j] + [chunks[last]] + rest[j..];
      TextsWithOneMore(before, name, FileText(Joined(chunks[last])), listing, j);
      FilesWithOneMore(rest, chunks[last], j);
      ShuffledMultiset(chunks, rest, j);
    }
  }

  lemma RestIsShuffled<T>(a: seq<T>, b: seq<T>, j: nat)
    requires multiset(a) == multiset(b) && a != [] && j < |b| && b[j] == a[0]
    ensures multiset(a[1..]) == multiset(Without(b, j))
  {
    assert a == [a[0]] + a[1..] && b == b[..j] + [b[j]] + b[j + 1..];
    assert multiset(a[1..]) == multiset(a) - multiset{a[0]};
  }

  lemma {:induction false} FlatWithout(b: seq<seq<Entry>>, j: nat)
    requires j < |b|
    ensures multiset(Flat(b)) == multiset(b[j]) + multiset(Flat(Without(b, j)))
    decreases j
  {
    hide Flat;
    var first, rest := b[0], b[1..];
    assert b == [first] + rest;
    FlatFront(first, rest);
    if j == 0 {
      assert Without(b, 0) == rest;
    } else {
      FlatWithout(rest, j - 1);
      assert Without(b, j) == [first] + Without(rest, j - 1);
      FlatFront(first, Without(rest, j - 1));
    }
  }

  lemma {:induction false} FlatOfShuffled(a: seq<seq<Entry>>, b: seq<seq<Entry>>)
    requires multiset(a) == multiset(b)
    ensures multiset(Flat(a)) == multiset(Flat(b))
    decreases |a|
  {
    assert |a| == |multiset(a)| == |multiset(b)| == |b|;
    if a != [] {
      assert a[0] in multiset(b);
      var j :| 0 <= j < |b| && b[j] == a[0];
      RestIsShuffled(a, b, j);
      hide Flat, Without;
      FlatOfShuffled(a[1..], Without(b, j));
      assert a == [a[0]] + a[1..];
      FlatFront(a[0], a[1..]);
      FlatWithout(b, j);
    }
  }
}
