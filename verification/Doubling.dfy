// The prefix-doubling loop of qsufsort.  A sorted run is a block of positions
// whose suffixes are all alone in their groups; the entry at its first
// position holds minus its length, so that a pass can step over it.
module Doubling {
  import opened Bytes
  import opened SuffixOrder
  import opened SuffixArrays
  import opened Refinement
  import opened SplitState
  import opened SuffixSort

  // A negative entry at k announces a sorted run that starts there.
  ghost predicate RunAt(a: Snapshot, k: nat)
    requires Grouped(a.v, a.t) && |a.i| == |a.t| && k < |a.t| && a.i[k] < 0
  {
    && k - a.i[k] <= |a.t|
    && (forall m :: k <= m < k - a.i[k] ==> Single(a.v, a.t, m) && a.i[m] < 0)
  }

  ghost predicate Runs(a: Snapshot) {
    && Grouped(a.v, a.t) && |a.i| == |a.t|
    && (forall k :: 0 <= k < |a.t| && a.i[k] < 0 ==> RunAt(a, k))
  }

  // The entries from lo on that are not negative are those of the list, and
  // their sort keys exist.
  ghost predicate Listed(s: seq<byte>, a: Snapshot, h: nat, lo: nat)
    requires |a.i| == |a.t|
  {
    forall k :: lo <= k < |a.t| && a.i[k] >= 0 ==> a.i[k] == a.t[k] && a.t[k] + h <= |s|
  }

  // Between two passes.
  ghost predicate Doubled(s: seq<byte>, a: Snapshot, h: nat) {
    Refined(s, a.v, a.t, h) && Runs(a) && Listed(s, a, h, 0)
  }

  // A pass has come to position p and the len positions before it form a
  // sorted run whose length is not written down yet.
  ghost predicate Passing(s: seq<byte>, a: Snapshot, h: nat, p: nat, len: nat) {
    && Refined(s, a.v, a.t, h) && Runs(a) && Listed(s, a, h, p)
    && len <= p <= |a.t|
    && (p > 0 ==> a.v[a.t[p - 1]] == p - 1)
    && AgreeWithin(s, a.v, a.t, 2 * h, 0, p)
    && (forall k :: p - len <= k < p ==> Single(a.v, a.t, k))
    && (forall k :: 0 <= k < p && a.i[k] >= 0 ==> a.i[k] == a.t[k] && !Single(a.v, a.t, k))
  }

  lemma PassStarts(s: seq<byte>, a: Snapshot, h: nat)
    requires Doubled(s, a, h)
    ensures Passing(s, a, h, 0, 0) && |a.t| == |a.i| == |s| + 1
  {
  }

  // Stepping over a sorted run.
  lemma PassSkipsRun(s: seq<byte>, a: Snapshot, h: nat, p: nat, len: nat)
    requires Passing(s, a, h, p, len) && p < |a.t| && a.i[p] < 0
    ensures Passing(s, a, h, p - a.i[p], len - a.i[p])
  {
    hide Less, Lcp, Ordered, Permutation;
    assert RunAt(a, p);
    var q := p - a.i[p];
    assert forall k :: p <= k < q ==> Single(a.v, a.t, k);
  }

  // Writing down the length of the run that ends at p.
  lemma PassClosesRun(s: seq<byte>, a: Snapshot, b: Snapshot, h: nat, p: nat, len: nat)
    requires Passing(s, a, h, p, len) && len > 0
    requires b.v == a.v && b.t == a.t && |b.i| == |a.i| && b.i[p - len] + len == 0
    requires forall k :: 0 <= k < |a.i| && k != p - len ==> b.i[k] == a.i[k]
    ensures Passing(s, b, h, p, len)
  {
    hide Less, Lcp, Refined, Grouped, AgreeWithin, Single, RunAt;
    forall k | 0 <= k < |b.t| && b.i[k] < 0
      ensures RunAt(b, k)
    {
      ClosedRun(s, a, b, h, p, len, k);
    }
  }

  lemma ClosedRun(s: seq<byte>, a: Snapshot, b: Snapshot, h: nat, p: nat, len: nat, k: nat)
    requires Passing(s, a, h, p, len) && len > 0
    requires b.v == a.v && b.t == a.t && |b.i| == |a.i| && b.i[p - len] + len == 0
    requires forall k :: 0 <= k < |a.i| && k != p - len ==> b.i[k] == a.i[k]
    requires k < |b.t| && b.i[k] < 0
    ensures RunAt(b, k)
  {
    hide Less, Lcp, Refined, Grouped, AgreeWithin, Single;
    assert k != p - len ==> RunAt(a, k);
  }

  // An entry that is not negative heads a group that split may refine.
  lemma PassFindsGroup(s: seq<byte>, a: Snapshot, h: nat, p: nat, len: nat)
    requires Passing(s, a, h, p, len) && p < |a.t| && a.i[p] >= 0
    ensures 0 <= a.i[p] < |a.v| && p <= a.v[a.i[p]] < |a.t|
    ensures Ready(s, a, h, p, a.v[a.i[p]] + 1)
    ensures a.i[p] + h <= |s| && |a.t| == |a.i| && a.i[p] == a.t[p]
  {
    hide Less, Lcp, Ordered, AgreeWithin, Permutation;
    var hi := a.v[a.i[p]] + 1;
    assert forall k :: p <= k < hi ==> a.i[k] >= 0;
  }

  lemma PassSplitsGroup(s: seq<byte>, a: Snapshot, b: Snapshot, h: nat, p: nat, len: nat, hi: nat)
    requires Passing(s, a, h, p, len) && p < |a.t| && a.i[p] >= 0 && hi == a.v[a.t[p]] + 1
    requires HasSplit(s, a, b, h, p, hi)
    ensures Passing(s, b, h, hi, 0)
  {
    hide Less, Lcp, Ordered, Permutation, Shuffled, Runs, AgreeWithin;
    RunsKept(s, a, b, h, p, hi);
    AgreeExtends(s, a, b, h, p, hi);
    SinglesKept(s, a, b, h, p, hi);
  }

  lemma SinglesKept(s: seq<byte>, a: Snapshot, b: Snapshot, h: nat, p: nat, hi: nat)
    requires HasSplit(s, a, b, h, p, hi) && (p > 0 ==> a.v[a.t[p - 1]] == p - 1) && hi == a.v[a.t[p]] + 1
    ensures forall m :: 0 <= m < |a.t| && !(p <= m < hi) ==> Single(b.v, b.t, m) == Single(a.v, a.t, m)
  {
    hide Less, Lcp, Ordered, AgreeWithin, Permutation, Shuffled;
  }

  lemma RunsKept(s: seq<byte>, a: Snapshot, b: Snapshot, h: nat, p: nat, hi: nat)
    requires HasSplit(s, a, b, h, p, hi) && (p > 0 ==> a.v[a.t[p - 1]] == p - 1) && hi == a.v[a.t[p]] + 1
    requires Runs(a) && a.i[p] >= 0
    ensures Runs(b)
  {
    hide Less, Lcp, Ordered, AgreeWithin, Permutation, Shuffled;
    SinglesKept(s, a, b, h, p, hi);
    forall k | 0 <= k < |b.i| && b.i[k] < 0
      ensures RunAt(b, k)
    {
      RunKept(s, a, b, h, p, hi, k);
    }
  }

  lemma RunKept(s: seq<byte>, a: Snapshot, b: Snapshot, h: nat, p: nat, hi: nat, k: nat)
    requires HasSplit(s, a, b, h, p, hi) && hi == a.v[a.t[p]] + 1
    requires forall m :: 0 <= m < |a.t| && !(p <= m < hi) ==> Single(b.v, b.t, m) == Single(a.v, a.t, m)
    requires Runs(a) && a.i[p] >= 0 && k < |b.i| && b.i[k] < 0
    ensures RunAt(b, k)
  {
    hide Less, Lcp, Ordered, AgreeWithin, Shuffled;
    assert !(p <= k < hi) ==> RunAt(a, k);
    assert k < p ==> k - a.i[k] <= p;
  }

  lemma AgreeExtends(s: seq<byte>, a: Snapshot, b: Snapshot, h: nat, p: nat, hi: nat)
    requires HasSplit(s, a, b, h, p, hi) && (p > 0 ==> a.v[a.t[p - 1]] == p - 1)
    requires Refined(s, a.v, a.t, h) && AgreeWithin(s, a.v, a.t, 2 * h, 0, p)
    ensures AgreeWithin(s, b.v, b.t, 2 * h, 0, hi)
  {
    hide Less, Lcp, Ordered, Permutation, Shuffled;
  }

  // A complete pass has doubled the agreement within every group.
  lemma PassEnds(s: seq<byte>, a: Snapshot, h: nat, len: nat)
    requires Passing(s, a, h, |a.t|, len)
    ensures Doubled(s, a, 2 * h)
  {
    hide Less, RunAt;
    forall k | 0 <= k < |a.t| && a.i[k] >= 0
      ensures a.i[k] == a.t[k] && a.t[k] + 2 * h <= |s|
    {
      MemberIsLong(s, a, h, k);
    }
  }

  // A suffix that shares its group is at least as long as the agreement.
  lemma MemberIsLong(s: seq<byte>, a: Snapshot, h: nat, k: nat)
    requires |a.t| == |s| + 1 && Grouped(a.v, a.t) && AgreeWithin(s, a.v, a.t, 2 * h, 0, |a.t|)
    requires k < |a.t| && !Single(a.v, a.t, k)
    ensures a.t[k] + 2 * h <= |s|
  {
    hide Less;
    if k > 0 && a.v[a.t[k - 1]] >= k {
      assert Lcp(s, a.t[k - 1], s, a.t[k]) >= 2 * h;
    } else {
      assert Lcp(s, a.t[k], s, a.t[k + 1]) >= 2 * h;
    }
  }

  // One pass of the doubling loop over all groups.
  method Pass(I: array<int>, V: array<int>, ghost s: seq<byte>, ghost t: seq<int>, h: nat)
    returns (ghost u: seq<int>, ghost found: bool)
    requires I != V && h > 0 && I.Length == |s| + 1
    requires Doubled(s, Snapshot(V[..], t, I[..]), h)
    modifies I, V
    ensures Doubled(s, Snapshot(V[..], u, I[..]), 2 * h)
    ensures if found then h <= |s| else I[0] == -I.Length
  {
    hide Doubled, Passing;
    u, found := t, false;
    PassStarts(s, Snapshot(V[..], t, I[..]), h);
    var i, len := 0, 0;
    while i < I.Length
      invariant 0 <= len <= i <= I.Length && |u| == I.Length
      invariant Passing(s, Snapshot(V[..], u, I[..]), h, i, len)
      invariant if found then h <= |s| else len == i
    {
      if I[i] < 0 {
        PassSkipsRun(s, Snapshot(V[..], u, I[..]), h, i, len);
        PassBounds(s, Snapshot(V[..], u, I[..]), h, i - I[i], len - I[i]);
        len := len - I[i];
        i := i - I[i];
      } else {
        found := true;
        i, u := SplitGroupAt(I, V, s, u, h, i, len);
        len := 0;
      }
    }
    if len > 0 {
      WriteRun(I, V, s, u, h, i, len);
    }
    PassEnds(s, Snapshot(V[..], u, I[..]), h, len);
  }

  lemma PassBounds(s: seq<byte>, a: Snapshot, h: nat, p: int, len: int)
    requires p >= 0 && len >= 0 && Passing(s, a, h, p, len)
    ensures len <= p <= |a.t| == |a.i|
  {
  }

  // Write down the length of the sorted run that ends at p.
  method WriteRun(I: array<int>, V: array<int>, ghost s: seq<byte>, ghost t: seq<int>, ghost h: nat, p: nat, len: int)
    requires I != V && 0 < len <= p <= I.Length
    requires Passing(s, Snapshot(V[..], t, I[..]), h, p, len)
    modifies I
    ensures Passing(s, Snapshot(V[..], t, I[..]), h, p, len)
    ensures forall k :: p <= k < I.Length ==> I[k] == old(I[k])
    ensures I[p - len] == -len
  {
    hide Passing;
    ghost var a := Snapshot(V[..], t, I[..]);
    I[p - len] := -len;
    PassClosesRun(s, a, Snapshot(V[..], t, I[..]), h, p, len);
  }

  // Close the pending run, then split the group that starts at p.
  method SplitGroupAt(I: array<int>, V: array<int>, ghost s: seq<byte>, ghost t: seq<int>, h: nat, p: nat, len: nat)
    returns (q: nat, ghost u: seq<int>)
    requires I != V && h > 0 && len <= p < I.Length == |s| + 1 && I[p] >= 0
    requires Passing(s, Snapshot(V[..], t, I[..]), h, p, len)
    modifies I, V
    ensures p < q <= I.Length && |u| == I.Length && h <= |s|
    ensures Passing(s, Snapshot(V[..], u, I[..]), h, q, 0)
  {
    hide Passing, HasSplit, Ready;
    if len > 0 {
      WriteRun(I, V, s, t, h, p, len);
    }
    ghost var a := Snapshot(V[..], t, I[..]);
    PassBounds(s, a, h, p, len);
    PassFindsGroup(s, a, h, p, len);
    var size := V[I[p]] + 1 - p;
    u := Split(I, V, s, t, p, size, h);
    PassSplitsGroup(s, a, Snapshot(V[..], u, I[..]), h, p, len, p + size);
    PassBounds(s, Snapshot(V[..], u, I[..]), h, p + size, 0);
    q := p + size;
  }

  // The doubling loop: it ends when one run covers the whole array.
  method DoublePasses(I: array<int>, V: array<int>, ghost s: seq<byte>, ghost t: seq<int>) returns (ghost u: seq<int>)
    requires I != V && I.Length == |s| + 1
    requires Doubled(s, Snapshot(V[..], t, I[..]), 1)
    modifies I, V
    ensures IsSuffixArray(s, u) && V.Length == |u|
    ensures forall k :: 0 <= k < |u| ==> V[u[k]] == k
  {
    hide Doubled, Less, Lcp;
    u := t;
    var h := 1;
    while I[0] != -I.Length
      invariant h > 0 && Doubled(s, Snapshot(V[..], u, I[..]), h)
      decreases I[0] != -I.Length, |s| + 1 - h
    {
      ghost var found;
      u, found := Pass(I, V, s, u, h);
      h := h + h;
    }
    OneRunIsSorted(s, Snapshot(V[..], u, I[..]), h);
  }

  lemma OneRunIsSorted(s: seq<byte>, a: Snapshot, h: nat)
    requires Doubled(s, a, h) && a.i[0] == -|a.i|
    ensures IsSuffixArray(s, a.t) && |a.v| == |a.t|
    ensures forall k :: 0 <= k < |a.t| ==> a.v[a.t[k]] == k
  {
    hide Less, Lcp;
    assert RunAt(a, 0);
  }
}
