// The in-place suffix sort: split and qsufsort over the arrays I and V.
// Every method carries the ghost list t of suffixes by position, which I
// itself loses as it marks groups of one.
module SuffixSort {
  import opened Bytes
  import opened SuffixOrder
  import opened Refinement
  import opened Partition
  import opened SplitState

  // Write the group number hi - 1 for every suffix listed in lo..hi.
  method Renumber(I: array<int>, V: array<int>, lo: nat, hi: nat)
    requires I != V && lo < hi <= I.Length
    requires forall k :: lo <= k < hi ==> 0 <= I[k] < V.Length
    modifies V
    ensures forall k :: lo <= k < hi ==> V[I[k]] == hi - 1
    ensures forall a :: 0 <= a < V.Length && a !in I[lo..hi] ==> V[a] == old(V[a])
  {
    for i := 0 to hi - lo
      invariant I[..] == old(I[..])
      invariant forall k :: lo <= k < lo + i ==> V[I[k]] == hi - 1
      invariant forall a :: 0 <= a < V.Length && a !in I[lo..hi] ==> V[a] == old(V[a])
    {
      V[I[lo + i]] := hi - 1;
    }
  }

  // Give positions lo..hi their own group number and mark a group of one.
  method CloseGroup(I: array<int>, V: array<int>, ghost s: seq<byte>, ghost t: seq<int>, ghost h: nat, lo: nat, hi: nat)
    requires I != V && Ready(s, Snapshot(V[..], t, I[..]), h, lo, hi)
    requires forall j, k :: lo <= j < k < hi ==> Lcp(s, t[j], s, t[k]) >= 2 * h
    modifies I, V
    ensures HasSplit(s, old(Snapshot(V[..], t, I[..])), Snapshot(V[..], t, I[..]), h, lo, hi)
  {
    hide Less, Lcp, Ready, HasSplit, Grouped;
    ghost var a := Snapshot(V[..], t, I[..]);
    ReadyEntries(s, a, h, lo, hi);
    Renumber(I, V, lo, hi);
    RenumberedByPosition(a.v, V[..], t, a.i, lo, hi);
    if lo == hi - 1 {
      I[lo] := -1;
    }
    GroupIsClosed(s, a, Snapshot(V[..], t, I[..]), h, lo, hi);
  }

  // ----- The two ways split rearranges a segment -----

  // The list of suffixes after the entries of I in lo..hi were rearranged.
  ghost function Relisted(t: seq<int>, i: seq<int>, lo: nat, hi: nat): (u: seq<int>)
    requires lo <= hi <= |t| == |i|
    ensures |u| == |t| && forall k :: 0 <= k < |t| ==> u[k] == if lo <= k < hi then i[k] else t[k]
  {
    t[..lo] + i[lo..hi] + t[hi..]
  }

  lemma StretchHasKeys(s: seq<byte>, a: Snapshot, h: nat, lo: nat, hi: nat)
    requires Stretch(s, a, h, lo, hi)
    ensures KeysExist(a.i, a.v, h, lo, hi)
  {
    hide Less, Lcp;
  }

  lemma RelistedIsShuffled(t: seq<int>, i: seq<int>, j: seq<int>, lo: nat, hi: nat)
    requires |t| == |i| && Shuffled(i, j, lo, hi)
    requires forall k :: lo <= k < hi ==> i[k] == t[k]
    ensures Shuffled(t, Relisted(t, j, lo, hi), lo, hi)
  {
    assert t[lo..hi] == i[lo..hi];
  }

  lemma RelistedStretch(s: seq<byte>, a: Snapshot, b: Snapshot, h: nat, lo: nat, hi: nat)
    requires Stretch(s, a, h, lo, hi) && Shuffled(a.i, b.i, lo, hi) && b.v == a.v
    requires |b.i| == |a.i| && b.t == Relisted(a.t, b.i, lo, hi)
    ensures Shuffled(a.t, b.t, lo, hi)
    ensures Stretch(s, b, h, lo, hi)
  {
    hide Less, Lcp, Shuffled, Below, Refined, Relisted;
    RelistedIsShuffled(a.t, a.i, b.i, lo, hi);
    StretchShuffled(s, a, b, h, lo, hi);
  }

  // After a selection the first j entries are one stretch with equal keys and
  // the others are a stretch after it.
  lemma SelectionCuts(s: seq<byte>, b: Snapshot, h: nat, x: int, lo: nat, j: nat, hi: nat)
    requires h > 0 && Stretch(s, b, h, lo, hi)
    requires Selected(b.i, b.v, h, x, lo, j, hi - lo) && 1 <= j
    ensures Stretch(s, b, h, lo, lo + j) && (lo + j < hi ==> Stretch(s, b, h, lo + j, hi))
    ensures forall p, q :: lo <= p < q < lo + j ==> Lcp(s, b.t[p], s, b.t[q]) >= 2 * h
  {
    hide Less, Lcp, Refined, Below;
    StretchCut(s, b, h, lo, lo + j, hi);
    EqualKeysAgree(s, b, h, lo, lo + j);
  }

  // After a partition the three parts are stretches; the middle one has equal
  // keys.
  lemma PartitionCuts(s: seq<byte>, b: Snapshot, h: nat, x: int, lo: nat, jj: nat, kk: nat, hi: nat)
    requires h > 0 && Stretch(s, b, h, lo, hi)
    requires Parted(b.i, b.v, h, x, lo, jj, kk, hi) && jj < kk
    ensures lo < jj ==> Stretch(s, b, h, lo, jj)
    ensures Stretch(s, b, h, jj, hi) && Stretch(s, b, h, jj, kk)
    ensures kk < hi ==> Stretch(s, b, h, kk, hi)
    ensures forall p, q :: jj <= p < q < kk ==> Lcp(s, b.t[p], s, b.t[q]) >= 2 * h
  {
    hide Less, Lcp, Refined, Below;
    StretchCut(s, b, h, lo, jj, hi);
    StretchCut(s, b, h, jj, kk, hi);
    EqualKeysAgree(s, b, h, jj, kk);
  }

  // ----- split -----

  // One round of the short split: bring the smallest keys of k..hi to the
  // front and close them as a group.
  method SplitFront(I: array<int>, V: array<int>, ghost s: seq<byte>, ghost t: seq<int>, ghost a: Snapshot,
                    ghost start: nat, k: nat, hi: nat, h: nat)
    returns (j: nat, ghost u: seq<int>)
    requires I != V && h > 0 && k < hi <= I.Length
    requires Splitting(s, a, Snapshot(V[..], t, I[..]), h, start, k, hi)
    modifies I, V
    ensures 1 <= j <= hi - k
    ensures Splitting(s, a, Snapshot(V[..], u, I[..]), h, start, k + j, hi)
  {
    hide Splitting, HasSplit, Stretch, Shuffled, Selected, KeysExist, Less, Lcp;
    ghost var b := Snapshot(V[..], t, I[..]);
    FrontIsReady(s, a, b, h, start, k, hi);
    ghost var x;
    j, x := SelectSmallest(I, V, k, hi, h);
    u := Relisted(t, I[..], k, hi);
    ghost var c := Snapshot(V[..], u, I[..]);
    RelistedStretch(s, b, c, h, k, hi);
    SelectionCuts(s, c, h, x, k, j, hi);
    FrontShuffled(s, a, b, c, h, start, k, hi, k + j);
    CloseGroup(I, V, s, u, h, k, k + j);
    SplittingAdvances(s, a, c, Snapshot(V[..], u, I[..]), h, start, k, k + j, hi);
  }

  lemma FrontIsReady(s: seq<byte>, a: Snapshot, b: Snapshot, h: nat, lo: nat, mid: nat, hi: nat)
    requires Splitting(s, a, b, h, lo, mid, hi) && mid < hi
    ensures Stretch(s, b, h, mid, hi) && KeysExist(b.i, b.v, h, mid, hi)
    ensures |b.t| == |b.i|
  {
    StretchHasKeys(s, b, h, mid, hi);
    hide Less, Lcp;
  }

  lemma FrontShuffled(s: seq<byte>, a: Snapshot, b: Snapshot, c: Snapshot, h: nat, lo: nat, mid: nat, hi: nat, to: nat)
    requires Splitting(s, a, b, h, lo, mid, hi) && mid < to <= hi
    requires c.v == b.v && |c.i| == |b.i| && Shuffled(b.t, c.t, mid, hi)
    requires Shuffled(b.i, c.i, mid, hi) && c.t == Relisted(b.t, c.i, mid, hi)
    requires Stretch(s, c, h, mid, to)
    ensures Splitting(s, a, c, h, lo, mid, hi)
    ensures Ready(s, c, h, mid, to)
  {
    hide Less, Lcp, Refined, Below, Closed;
    SplittingShuffled(s, a, b, c, h, lo, mid, hi);
  }

  // split for segments shorter than 16: a selection sort by key.
  method SplitShort(I: array<int>, V: array<int>, ghost s: seq<byte>, ghost t: seq<int>, start: nat, len: nat, h: nat)
    returns (ghost u: seq<int>)
    requires I != V && h > 0 && len > 0 && start + len <= I.Length
    requires Ready(s, Snapshot(V[..], t, I[..]), h, start, start + len)
    modifies I, V
    ensures HasSplit(s, old(Snapshot(V[..], t, I[..])), Snapshot(V[..], u, I[..]), h, start, start + len)
  {
    hide Stretch, Closed, Confined;
    ghost var a := Snapshot(V[..], t, I[..]);
    SplittingStart(s, a, h, start, start + len);
    u := t;
    var k := start;
    while k < start + len
      invariant start <= k <= start + len
      invariant Splitting(s, a, Snapshot(V[..], u, I[..]), h, start, k, start + len)
    {
      var j;
      j, u := SplitFront(I, V, s, u, a, start, k, start + len, h);
      k := k + j;
    }
  }

  // What the long split has still to do after its partition: close the middle
  // part jj..kk and split kk..hi.
  ghost predicate Pending(s: seq<byte>, a: Snapshot, h: nat, jj: nat, kk: nat, hi: nat) {
    && Stretch(s, a, h, jj, kk) && Stretch(s, a, h, jj, hi)
    && (kk < hi ==> Stretch(s, a, h, kk, hi))
    && (forall p, q :: jj <= p < q < kk ==> Lcp(s, a.t[p], s, a.t[q]) >= 2 * h)
  }

  lemma PendingKept(s: seq<byte>, a: Snapshot, b: Snapshot, h: nat, lo: nat, jj: nat, kk: nat, hi: nat)
    requires Pending(s, a, h, jj, kk, hi) && HasSplit(s, a, b, h, lo, jj)
    ensures Pending(s, b, h, jj, kk, hi)
  {
    StretchKept(s, a, b, h, lo, jj, jj, kk);
    StretchKept(s, a, b, h, lo, jj, jj, hi);
    if kk < hi {
      StretchKept(s, a, b, h, lo, jj, kk, hi);
    }
    hide Less, Lcp, Closed, Refined;
  }

  // The pivot partition of a segment, as a first step of splitting it.
  method SplitAround(I: array<int>, V: array<int>, ghost s: seq<byte>, ghost t: seq<int>, start: nat, len: nat, h: nat)
    returns (jj: nat, kk: nat, ghost u: seq<int>)
    requires I != V && h > 0 && len > 0 && start + len <= I.Length
    requires Ready(s, Snapshot(V[..], t, I[..]), h, start, start + len)
    modifies I
    ensures start <= jj < kk <= start + len
    ensures Splitting(s, old(Snapshot(V[..], t, I[..])), Snapshot(V[..], u, I[..]), h, start, start, start + len)
    ensures start < jj ==> Ready(s, Snapshot(V[..], u, I[..]), h, start, jj)
    ensures Pending(s, Snapshot(V[..], u, I[..]), h, jj, kk, start + len)
  {
    hide Splitting, Ready, Pending, Stretch, Shuffled, Parted, KeysExist, Less, Lcp;
    ghost var a := Snapshot(V[..], t, I[..]);
    SegmentHasKeys(s, a, h, start, start + len);
    ghost var x;
    jj, kk, x := PartitionAround(I, V, start, start + len, h, start + len / 2);
    u := Relisted(t, I[..], start, start + len);
    PartitionPending(s, a, Snapshot(V[..], u, I[..]), h, x, start, jj, kk, start + len);
  }

  lemma SegmentHasKeys(s: seq<byte>, a: Snapshot, h: nat, lo: nat, hi: nat)
    requires Ready(s, a, h, lo, hi)
    ensures |a.t| == |a.i| && KeysExist(a.i, a.v, h, lo, hi)
  {
    hide Less, Lcp, Refined, Below;
    StretchHasKeys(s, a, h, lo, hi);
  }

  lemma PartitionPending(s: seq<byte>, a: Snapshot, b: Snapshot, h: nat, x: int, lo: nat, jj: nat, kk: nat, hi: nat)
    requires h > 0 && Ready(s, a, h, lo, hi) && Shuffled(a.i, b.i, lo, hi) && b.v == a.v
    requires |a.t| == |b.i| == |a.i| && lo <= hi <= |a.t| && b.t == Relisted(a.t, b.i, lo, hi)
    requires Parted(b.i, b.v, h, x, lo, jj, kk, hi) && jj < kk
    ensures lo <= jj <= kk <= hi
    ensures Splitting(s, a, b, h, lo, lo, hi)
    ensures lo < jj ==> Ready(s, b, h, lo, jj)
    ensures Pending(s, b, h, jj, kk, hi)
  {
    hide Less, Lcp, Refined, Below, Stretch, Splitting, Shuffled, KeysExist, Relisted;
    SplittingStart(s, a, h, lo, hi);
    RelistedStretch(s, a, b, h, lo, hi);
    PartitionCuts(s, b, h, x, lo, jj, kk, hi);
    FrontShuffled(s, a, a, b, h, lo, lo, hi, hi);
  }

  // split: refine the stretch start..start + len by the keys V[I[k] + h].
  method Split(I: array<int>, V: array<int>, ghost s: seq<byte>, ghost t: seq<int>, start: nat, len: nat, h: nat)
    returns (ghost u: seq<int>)
    requires I != V && h > 0 && len > 0 && start + len <= I.Length
    requires Ready(s, Snapshot(V[..], t, I[..]), h, start, start + len)
    modifies I, V
    ensures HasSplit(s, old(Snapshot(V[..], t, I[..])), Snapshot(V[..], u, I[..]), h, start, start + len)
    decreases len
  {
    hide Splitting, HasSplit, Pending, Stretch, Ready, Less, Lcp;
    if len < 16 {
      u := SplitShort(I, V, s, t, start, len, h);
      return;
    }
    ghost var a := Snapshot(V[..], t, I[..]);
    var jj, kk;
    jj, kk, u := SplitAround(I, V, s, t, start, len, h);
    ghost var b := Snapshot(V[..], u, I[..]);
    if jj > start {
      u := Split(I, V, s, u, start, jj - start, h);
      ghost var c := Snapshot(V[..], u, I[..]);
      FirstPartSplit(s, a, b, c, h, start, jj, kk, start + len);
    }
    ghost var c := Snapshot(V[..], u, I[..]);
    MiddlePartReady(s, a, c, h, start, jj, kk, start + len);
    CloseGroup(I, V, s, u, h, jj, kk);
    ghost var d := Snapshot(V[..], u, I[..]);
    MiddlePartClosed(s, a, c, d, h, start, jj, kk, start + len);
    if start + len > kk {
      u := Split(I, V, s, u, kk, start + len - kk, h);
      SplittingAdvances(s, a, d, Snapshot(V[..], u, I[..]), h, start, kk, start + len, start + len);
    }
    SplittingDone(s, a, Snapshot(V[..], u, I[..]), h, start, start + len);
  }

  lemma FirstPartSplit(s: seq<byte>, a: Snapshot, b: Snapshot, c: Snapshot, h: nat, lo: nat, jj: nat, kk: nat, hi: nat)
    requires Splitting(s, a, b, h, lo, lo, hi) && lo < jj < kk <= hi
    requires Pending(s, b, h, jj, kk, hi) && HasSplit(s, b, c, h, lo, jj)
    ensures Splitting(s, a, c, h, lo, jj, hi) && Pending(s, c, h, jj, kk, hi)
  {
    hide Splitting, HasSplit, Stretch;
    SplittingAdvances(s, a, b, c, h, lo, lo, jj, hi);
    PendingKept(s, b, c, h, lo, jj, kk, hi);
  }

  lemma MiddlePartReady(s: seq<byte>, a: Snapshot, b: Snapshot, h: nat, lo: nat, jj: nat, kk: nat, hi: nat)
    requires Splitting(s, a, b, h, lo, jj, hi) && jj < kk <= hi && Pending(s, b, h, jj, kk, hi)
    ensures Ready(s, b, h, jj, kk)
    ensures |b.t| == |s| + 1 && kk <= |b.t|
    ensures forall p :: jj <= p < kk ==> 0 <= b.t[p] <= |s|
    ensures forall p, q :: jj <= p < q < kk ==> Lcp(s, b.t[p], s, b.t[q]) >= 2 * h
  {
    hide Less, Lcp, Ordered, AgreeWithin, Closed, Confined;
  }

  lemma MiddlePartClosed(s: seq<byte>, a: Snapshot, b: Snapshot, c: Snapshot, h: nat, lo: nat, jj: nat,
                         kk: nat, hi: nat)
    requires Splitting(s, a, b, h, lo, jj, hi) && jj < kk <= hi
    requires Pending(s, b, h, jj, kk, hi) && HasSplit(s, b, c, h, jj, kk)
    ensures Splitting(s, a, c, h, lo, kk, hi)
    ensures kk < hi ==> Ready(s, c, h, kk, hi) && Stretch(s, c, h, kk, hi)
  {
    hide HasSplit, Stretch, Closed, Confined;
    SplittingAdvances(s, a, b, c, h, lo, jj, kk, hi);
  }

  lemma SplittingDone(s: seq<byte>, a: Snapshot, b: Snapshot, h: nat, lo: nat, hi: nat)
    requires Splitting(s, a, b, h, lo, hi, hi) && lo < hi
    ensures HasSplit(s, a, b, h, lo, hi)
  {
  }
}
