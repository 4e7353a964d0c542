// Multisets of parts of sequences.
module Slices {
  lemma SliceMultiset<T>(s: seq<T>, p: nat)
    requires p <= |s|
    ensures multiset(s) == multiset(s[..p]) + multiset(s[p..])
  {
    assert s == s[..p] + s[p..];
  }

  lemma WithoutHead<T>(s: seq<T>)
    requires s != []
    ensures multiset(s) == multiset{s[0]} + multiset(s[1..])
  {
    assert s == [s[0]] + s[1..];
  }

  lemma DeletedSliceMultiset<T>(s: seq<T>, p: nat, q: nat)
    requires p <= q <= |s|
    ensures multiset(s[..p] + s[q..]) + multiset(s[p..q]) == multiset(s)
  {
    assert s == s[..p] + s[p..q] + s[q..];
  }
}
