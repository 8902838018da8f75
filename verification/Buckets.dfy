// The counting sort by first byte with which qsufsort starts.
module Buckets {
  import opened Bytes
  import opened SuffixOrder
  import opened SuffixArrays
  import opened Refinement
  import opened SplitState
  import opened Doubling

  // How many of the first n bytes are c.
  ghost function Equal(s: seq<byte>, n: nat, c: int): (r: nat)
    requires n <= |s|
    ensures r <= n
  {
    if n == 0 then 0 else Equal(s, n - 1, c) + (if s[n - 1] == c then 1 else 0)
  }

  // How many of the first n bytes are below c.
  ghost function Under(s: seq<byte>, n: nat, c: nat): nat
    requires n <= |s|
  {
    if c == 0 then 0 else Under(s, n, c - 1) + Equal(s, n, c - 1)
  }

  // Where suffix j goes: after the empty suffix, the suffixes with a smaller
  // first byte and the earlier ones with the same first byte.
  ghost function Slot(s: seq<byte>, j: nat): nat
    requires j < |s|
  {
    Under(s, |s|, s[j]) + Equal(s, j + 1, s[j])
  }

  // The last position of the bucket of c.
  ghost function LastSlot(s: seq<byte>, c: nat): nat {
    Under(s, |s|, c + 1)
  }

  lemma {:induction false} UnderStep(s: seq<byte>, n: nat, c: nat)
    requires n < |s|
    ensures Under(s, n + 1, c) == Under(s, n, c) + (if s[n] < c then 1 else 0)
    decreases c
  {
    if c > 0 {
      UnderStep(s, n, c - 1);
    }
  }

  lemma {:induction false} UnderAll(s: seq<byte>, n: nat)
    requires n <= |s|
    ensures Under(s, n, 256) == n
  {
    if n > 0 {
      UnderStep(s, n - 1, 256);
      UnderAll(s, n - 1);
    } else {
      UnderNone(s, 256);
    }
  }

  lemma {:induction false} UnderNone(s: seq<byte>, c: nat)
    ensures Under(s, 0, c) == 0
  {
    if c > 0 {
      UnderNone(s, c - 1);
    }
  }

  lemma {:induction false} UnderMonotone(s: seq<byte>, n: nat, c: nat, d: nat)
    requires n <= |s| && c <= d
    ensures Under(s, n, c) <= Under(s, n, d)
    decreases d
  {
    if c < d {
      UnderMonotone(s, n, c, d - 1);
    }
  }

  lemma {:induction false} EqualMonotone(s: seq<byte>, m: nat, n: nat, c: int)
    requires m <= n <= |s|
    ensures Equal(s, m, c) <= Equal(s, n, c)
    decreases n
  {
    if m < n {
      EqualMonotone(s, m, n - 1, c);
    }
  }

  // Every suffix has a slot inside the bucket of its first byte.
  lemma SlotInBucket(s: seq<byte>, j: nat)
    requires j < |s|
    ensures Under(s, |s|, s[j]) < Slot(s, j) <= LastSlot(s, s[j]) <= |s|
  {
    EqualMonotone(s, j + 1, |s|, s[j]);
    var c: nat := s[j];
    UnderMonotone(s, |s|, c + 1, 256);
    UnderAll(s, |s|);
  }

  // Slots are ordered by first byte, then by position.
  lemma SlotOrder(s: seq<byte>, j: nat, k: nat)
    requires j < |s| && k < |s|
    ensures s[j] < s[k] ==> Slot(s, j) <= LastSlot(s, s[j]) < Slot(s, k)
    ensures s[j] == s[k] && j < k ==> Slot(s, j) < Slot(s, k)
  {
    SlotInBucket(s, j);
    SlotInBucket(s, k);
    if s[j] < s[k] {
      var c: nat := s[j];
      UnderMonotone(s, |s|, c + 1, s[k]);
    } else if s[j] == s[k] && j < k {
      EqualMonotone(s, j + 1, k, s[j]);
    }
  }

  // No slot stays empty.
  lemma SlotFilled(s: seq<byte>, p: nat) returns (j: nat)
    requires 1 <= p <= |s|
    ensures j < |s| && Slot(s, j) == p
  {
    forall j | 0 <= j < |s|
      ensures 1 <= Slot(s, j) <= |s|
    {
      SlotInBucket(s, j);
    }
    var t := seq(|s|, j requires 0 <= j < |s| => Slot(s, j) - 1);
    forall j, k | 0 <= j < k < |s|
      ensures t[j] != t[k]
    {
      SlotOrder(s, j, k);
      SlotOrder(s, k, j);
    }
    j := PositionOf(t, p - 1);
  }

  // ----- The state after the counting sort -----

  // t and v as the bucket sort leaves them.
  ghost predicate Bucketed(s: seq<byte>, v: seq<int>, t: seq<int>) {
    && |t| == |v| == |s| + 1
    && t[0] == |s| && v[|s|] == 0
    && (forall j :: 0 <= j < |s| ==> v[j] == LastSlot(s, s[j]))
    && (forall j :: 0 <= j < |s| ==> 1 <= Slot(s, j) <= |s| && t[Slot(s, j)] == j)
  }

  // The suffix in a slot past the first, and its group number.
  lemma BucketedAt(s: seq<byte>, v: seq<int>, t: seq<int>, p: nat)
    requires Bucketed(s, v, t) && 1 <= p <= |s|
    ensures 0 <= t[p] < |s| && Slot(s, t[p]) == p
    ensures p <= v[t[p]] == LastSlot(s, s[t[p]]) <= |s|
    ensures Under(s, |s|, s[t[p]]) < p
  {
    var j := SlotFilled(s, p);
    assert t[Slot(s, j)] == j;
    SlotInBucket(s, j);
  }

  lemma BucketedOrder(s: seq<byte>, v: seq<int>, t: seq<int>, j: nat, k: nat)
    requires Bucketed(s, v, t) && 1 <= j < k <= |s|
    ensures 0 <= t[j] < |s| && 0 <= t[k] < |s| && t[j] != t[k]
    ensures s[t[j]] <= s[t[k]]
    ensures k <= v[t[j]] <==> s[t[j]] == s[t[k]]
  {
    BucketedAt(s, v, t, j);
    BucketedAt(s, v, t, k);
    SlotOrder(s, t[j], t[k]);
    SlotOrder(s, t[k], t[j]);
  }

  lemma FirstByteDecides(s: seq<byte>, a: nat, b: nat)
    requires a <= |s| && b < |s|
    ensures a == |s| || s[a] < s[b] ==> Less(s, a, s, b)
    ensures a < |s| && s[a] == s[b] ==> Lcp(s, a, s, b) >= 1
  {
  }

  lemma BucketsAreGroups(s: seq<byte>, v: seq<int>, t: seq<int>)
    requires Bucketed(s, v, t)
    ensures Grouped(v, t)
  {
    forall k | 0 <= k < |t|
      ensures 0 <= t[k] < |t| && k <= v[t[k]] < |t|
      ensures k > 0 ==> t[k] != t[0]
    {
      if k > 0 {
        BucketedAt(s, v, t, k);
      }
    }
    forall j, k | 1 <= j < k < |t|
      ensures t[j] != t[k]
      ensures k <= v[t[j]] ==> v[t[k]] == v[t[j]]
    {
      BucketedOrder(s, v, t, j, k);
    }
  }

  lemma BucketsAreRefined(s: seq<byte>, v: seq<int>, t: seq<int>)
    requires Bucketed(s, v, t)
    ensures Refined(s, v, t, 1)
  {
    hide Less, Lcp, Slot;
    BucketsAreGroups(s, v, t);
    forall j, k | 0 <= j < k < |t|
      ensures v[t[j]] < k ==> Less(s, t[j], s, t[k])
      ensures k <= v[t[j]] ==> Lcp(s, t[j], s, t[k]) >= 1
    {
      if j > 0 {
        BucketedOrder(s, v, t, j, k);
      } else {
        BucketedAt(s, v, t, k);
      }
      FirstByteDecides(s, t[j], t[k]);
    }
  }

  // ----- The loops of qsufsort before the doubling -----

  lemma EqualNext(s: seq<byte>, i: nat)
    requires i < |s|
    ensures forall c :: Equal(s, i + 1, c) == Equal(s, i, c) + (if c == s[i] then 1 else 0)
  {
  }

  // A bucket ends where the next one starts.
  lemma LastSlotNext(s: seq<byte>, c: nat)
    ensures Under(s, |s|, 0) == 0 && Under(s, |s|, c + 1) == LastSlot(s, c)
    ensures LastSlot(s, c) == (if c == 0 then 0 else LastSlot(s, c - 1)) + Equal(s, |s|, c)
  {
  }

  // Counts, running sums, shifted by one: where each bucket starts.
  method BucketStarts(s: seq<byte>) returns (buckets: array<int>)
    ensures fresh(buckets) && buckets.Length == 256
    ensures forall c :: 0 <= c < 256 ==> buckets[c] == Under(s, |s|, c)
  {
    hide Equal, Under, LastSlot;
    buckets := new int[256](_ => 0);
    EqualEnds(s);
    for i := 0 to |s|
      invariant forall c :: 0 <= c < 256 ==> buckets[c] == Equal(s, i, c)
    {
      EqualNext(s, i);
      buckets[s[i]] := buckets[s[i]] + 1;
    }
    LastSlotNext(s, 0);
    for i := 1 to 256
      invariant forall c :: 0 <= c < i ==> buckets[c] == LastSlot(s, c)
      invariant forall c :: i <= c < 256 ==> buckets[c] == Equal(s, |s|, c)
    {
      LastSlotNext(s, i);
      buckets[i] := buckets[i] + buckets[i - 1];
    }
    var i := 255;
    while i > 0
      invariant 0 <= i < 256
      invariant forall c :: 0 <= c <= i ==> buckets[c] == LastSlot(s, c)
      invariant forall c :: i < c < 256 ==> buckets[c] == Under(s, |s|, c)
    {
      LastSlotNext(s, i - 1);
      buckets[i] := buckets[i - 1];
      i := i - 1;
    }
    buckets[0] := 0;
  }

  // Drop every suffix into the next slot of its bucket; each bucket's counter
  // ends at the bucket's last position.
  method FillBuckets(I: array<int>, s: seq<byte>, buckets: array<int>)
    requires I != buckets && I.Length == |s| + 1 && buckets.Length == 256
    requires forall c :: 0 <= c < 256 ==> buckets[c] == Under(s, |s|, c)
    modifies I, buckets
    ensures forall c :: 0 <= c < 256 ==> buckets[c] == LastSlot(s, c)
    ensures forall j :: 0 <= j < |s| ==> 1 <= Slot(s, j) <= |s| && I[Slot(s, j)] == j
  {
    hide Slot, Under, Equal, LastSlot;
    EqualEnds(s);
    for i := 0 to |s|
      invariant forall c :: 0 <= c < 256 ==> buckets[c] == Under(s, |s|, c) + Equal(s, i, c)
      invariant forall j :: 0 <= j < i ==> 1 <= Slot(s, j) <= |s| && I[Slot(s, j)] == j
    {
      SlotNext(s, i);
      buckets[s[i]] := buckets[s[i]] + 1;
      I[buckets[s[i]]] := i;
    }
  }

  lemma EqualEnds(s: seq<byte>)
    ensures forall c :: Equal(s, 0, c) == 0
    ensures forall c: nat :: LastSlot(s, c) == Under(s, |s|, c) + Equal(s, |s|, c)
  {
  }

  // The slot the i-th suffix takes is free.
  lemma SlotNext(s: seq<byte>, i: nat)
    requires i < |s|
    ensures Slot(s, i) == Under(s, |s|, s[i]) + Equal(s, i, s[i]) + 1
    ensures 1 <= Slot(s, i) <= |s|
    ensures forall j :: 0 <= j < i ==> Slot(s, j) != Slot(s, i)
    ensures forall c :: Equal(s, i + 1, c) == Equal(s, i, c) + (if s[i] == c then 1 else 0)
  {
    SlotInBucket(s, i);
    forall j | 0 <= j < i
      ensures Slot(s, j) != Slot(s, i)
    {
      SlotOrder(s, j, i);
      SlotOrder(s, i, j);
    }
  }

  // A bucket of one suffix is a sorted run; the code marks those of the bytes
  // from 1 on and the empty suffix.
  ghost predicate MarkedAlone(s: seq<byte>, t: seq<int>, i: seq<int>)
    requires |t| == |i| == |s| + 1
  {
    forall k :: 1 <= k <= |s| ==> i[k] == t[k] || (i[k] == -1 && Alone(s, k))
  }

  ghost predicate Alone(s: seq<byte>, k: nat) {
    exists c: nat :: 1 <= c < 256 && LastSlot(s, c) == k == LastSlot(s, c - 1) + 1
  }

  lemma AloneIsSingle(s: seq<byte>, v: seq<int>, t: seq<int>, k: nat)
    requires Bucketed(s, v, t) && Grouped(v, t) && 1 <= k <= |s| && Alone(s, k)
    ensures Single(v, t, k)
  {
    var c: nat :| 1 <= c < 256 && LastSlot(s, c) == k == LastSlot(s, c - 1) + 1;
    BucketedAt(s, v, t, k);
    var d: nat := s[t[k]];
    if d < c {
      UnderMonotone(s, |s|, d + 1, c);
    } else if c < d {
      UnderMonotone(s, |s|, c + 1, d);
    }
    if k > 1 {
      BucketedAt(s, v, t, k - 1);
      var e: nat := s[t[k - 1]];
      if c <= e {
        UnderMonotone(s, |s|, c, e);
      } else {
        UnderMonotone(s, |s|, e + 1, c);
      }
    }
  }

  lemma BucketsStartDoubling(s: seq<byte>, a: Snapshot)
    requires Bucketed(s, a.v, a.t) && |a.i| == |s| + 1
    requires a.i[0] == -1 && MarkedAlone(s, a.t, a.i)
    ensures Doubled(s, a, 1)
  {
    hide Less, Lcp, Alone, Slot;
    BucketsAreRefined(s, a.v, a.t);
    forall k | 0 <= k < |a.t|
      ensures k > 0 ==> 0 <= a.t[k] < |s|
      ensures a.i[k] < 0 ==> a.i[k] == -1 && Single(a.v, a.t, k)
    {
      if k > 0 {
        BucketedAt(s, a.v, a.t, k);
        if a.i[k] < 0 {
          AloneIsSingle(s, a.v, a.t, k);
        }
      }
    }
    assert forall k :: 0 <= k < |a.t| && a.i[k] < 0 ==> RunAt(a, k);
  }
}
