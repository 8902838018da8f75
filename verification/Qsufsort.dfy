// qsufsort: bucket sort, prefix doubling, inversion of V into I.
module Qsufsort {
  import opened Bytes
  import opened SuffixArrays
  import opened SplitState
  import opened Buckets
  import opened Doubling

  // Write the group numbers and mark the buckets of one suffix.
  method NumberBuckets(I: array<int>, V: array<int>, s: seq<byte>, buckets: array<int>) returns (ghost t: seq<int>)
    requires I != V && I != buckets && V != buckets
    requires I.Length == V.Length == |s| + 1 && buckets.Length == 256
    requires forall c :: 0 <= c < 256 ==> buckets[c] == LastSlot(s, c)
    requires forall j :: 0 <= j < |s| ==> 1 <= Slot(s, j) <= |s| && I[Slot(s, j)] == j
    modifies I, V
    ensures Doubled(s, Snapshot(V[..], t, I[..]), 1)
  {
    hide Slot, LastSlot, Alone, Doubled;
    I[0] := |s|;
    for i := 0 to |s|
      invariant I[..] == old(I[..])[0 := |s|] && buckets[..] == old(buckets[..])
      invariant forall j :: 0 <= j < i ==> V[j] == LastSlot(s, s[j])
    {
      V[i] := buckets[s[i]];
    }
    V[|s|] := 0;
    t := I[..];
    assert forall j :: 0 <= j < |s| ==> t[Slot(s, j)] == j;
    MarkAlone(I, s, buckets, t);
    I[0] := -1;
    BucketsStartDoubling(s, Snapshot(V[..], t, I[..]));
  }

  method MarkAlone(I: array<int>, s: seq<byte>, buckets: array<int>, ghost t: seq<int>)
    requires I != buckets && I.Length == |s| + 1 && buckets.Length == 256 && t == I[..]
    requires forall c :: 0 <= c < 256 ==> buckets[c] == LastSlot(s, c)
    modifies I
    ensures MarkedAlone(s, t, I[..])
  {
    hide LastSlot, Alone;
    for i := 1 to 256
      invariant MarkedAlone(s, t, I[..]) && buckets[..] == old(buckets[..])
    {
      if buckets[i] == buckets[i - 1] + 1 {
        BucketAlone(s, i);
        I[buckets[i]] := -1;
      }
    }
  }

  lemma BucketAlone(s: seq<byte>, c: nat)
    requires 1 <= c < 256 && LastSlot(s, c) == LastSlot(s, c - 1) + 1
    ensures 1 <= LastSlot(s, c) <= |s| && Alone(s, LastSlot(s, c))
  {
    UnderMonotone(s, |s|, c + 1, 256);
    UnderAll(s, |s|);
  }

  // The whole sort: I ends as the suffix array, the very one that insertion
  // sort by lexicographic order would build.
  method SortSuffixes(I: array<int>, V: array<int>, s: seq<byte>)
    requires I != V && I.Length == V.Length == |s| + 1
    modifies I, V
    ensures I[..] == SuffixArray(s)
  {
    hide Doubled, Slot, LastSlot, Under;
    var buckets := BucketStarts(s);
    FillBuckets(I, s, buckets);
    ghost var t := NumberBuckets(I, V, s, buckets);
    t := DoublePasses(I, V, s, t);
    Invert(I, V, t);
    SuffixArrayIsOne(s);
    SuffixArrayUnique(s, t, SuffixArray(s), |t|);
  }

  // V maps each suffix to its position; write the inverse to I.
  method Invert(I: array<int>, V: array<int>, ghost t: seq<int>)
    requires I != V && I.Length == V.Length == |t| && Permutation(t)
    requires forall k :: 0 <= k < |t| ==> V[t[k]] == k
    modifies I
    ensures I[..] == t
  {
    forall a | 0 <= a < |t|
      ensures 0 <= V[a] < |t| && t[V[a]] == a
    {
      var k := PositionOf(t, a);
    }
    for i := 0 to I.Length
      invariant V[..] == old(V[..])
      invariant forall a :: 0 <= a < i ==> I[V[a]] == a
    {
      I[V[i]] := i;
    }
    assert forall k :: 0 <= k < |t| ==> I[V[t[k]]] == t[k];
  }
}
