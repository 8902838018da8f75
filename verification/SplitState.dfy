// What split may assume of its segment and what it leaves behind, stated on
// snapshots of the two arrays, with the lemmas that chain its steps.
module SplitState {
  import opened Bytes
  import opened SuffixOrder
  import opened SuffixArrays
  import opened Refinement

  // A snapshot: the arrays V and I, and the list t of suffixes by position.
  // I lists the same suffixes, except that a position whose suffix is alone in
  // its group may hold a negative number instead.
  datatype Snapshot = Snapshot(v: seq<int>, t: seq<int>, i: seq<int>)

  // Positions lo..hi lie in one group and are smaller than the rest of it;
  // every entry of I is still there and every sort key V[I[k] + h] exists.
  ghost predicate Stretch(s: seq<byte>, a: Snapshot, h: nat, lo: nat, hi: nat) {
    && Refined(s, a.v, a.t, h) && |a.i| == |a.t|
    && lo < hi <= |a.t| && hi <= a.v[a.t[lo]] + 1
    && (forall k :: lo <= k < hi ==> a.i[k] == a.t[k] && a.t[k] + h <= |s|)
    && Below(s, a.t, lo, hi, a.v[a.t[lo]] + 1)
  }

  // A stretch at the front of its group.
  ghost predicate Ready(s: seq<byte>, a: Snapshot, h: nat, lo: nat, hi: nat) {
    && Stretch(s, a, h, lo, hi)
    && (lo > 0 ==> a.v[a.t[lo - 1]] < lo)
  }

  // Positions lo..hi are whole groups whose members agree on 2h bytes, and
  // the groups of one are marked in I.
  ghost predicate Closed(s: seq<byte>, a: Snapshot, h: nat, lo: nat, hi: nat) {
    && Refined(s, a.v, a.t, h) && |a.i| == |a.t|
    && lo < hi <= |a.t|
    && a.v[a.t[hi - 1]] == hi - 1
    && AgreeWithin(s, a.v, a.t, 2 * h, lo, hi)
    && (forall k :: lo <= k < hi ==> a.i[k] == if Single(a.v, a.t, k) then -1 else a.t[k])
  }

  // From a to b, positions lo..hi were rearranged at most and the entries of
  // the two arrays that belong to other positions did not change.
  ghost predicate Confined(a: Snapshot, b: Snapshot, lo: nat, hi: nat) {
    && Grouped(a.v, a.t) && |b.v| == |a.v| && |b.i| == |a.i| == |a.t|
    && Shuffled(a.t, b.t, lo, hi)
    && (forall k :: 0 <= k < |a.t| && !(lo <= k < hi) ==>
          b.t[k] == a.t[k] && b.v[a.t[k]] == a.v[a.t[k]] && b.i[k] == a.i[k])
  }

  // The contract of split.
  ghost predicate HasSplit(s: seq<byte>, a: Snapshot, b: Snapshot, h: nat, lo: nat, hi: nat) {
    Confined(a, b, lo, hi) && Closed(s, b, h, lo, hi)
  }

  // Split has come as far as position mid.
  ghost predicate Splitting(s: seq<byte>, a: Snapshot, b: Snapshot, h: nat, lo: nat, mid: nat, hi: nat) {
    && lo <= mid <= hi
    && Confined(a, b, lo, hi)
    && (lo < mid ==> Closed(s, b, h, lo, mid))
    && (mid < hi ==> Ready(s, b, h, mid, hi))
  }

  // After a split the segment's group numbers lie inside it, and the groups are
  // whole: none reaches across either end.
  lemma SplitNumbersInside(s: seq<byte>, a: Snapshot, b: Snapshot, h: nat, lo: nat, hi: nat, k: nat)
    requires HasSplit(s, a, b, h, lo, hi) && lo <= k < hi
    ensures k <= b.v[b.t[k]] < hi
    ensures exists p :: lo <= p < hi && b.t[k] == a.t[p]
  {
    hide Less, Lcp, Ordered, AgreeWithin;
    var p := SourceOf(a.t, b.t, lo, hi, k);
  }

  // ----- Closing a group -----

  // The entries of a segment that is ready are suffixes and still in I.
  lemma ReadyEntries(s: seq<byte>, a: Snapshot, h: nat, lo: nat, hi: nat)
    requires Ready(s, a, h, lo, hi)
    ensures Grouped(a.v, a.t) && Permutation(a.t) && |a.v| == |a.t| == |a.i| && lo < hi <= |a.t|
    ensures forall k :: lo <= k < hi ==> 0 <= a.i[k] < |a.v| && a.i[k] == a.t[k]
  {
    hide Less, Lcp, Ordered, AgreeWithin, Below;
  }

  lemma RenumberedByPosition(v: seq<int>, w: seq<int>, t: seq<int>, i: seq<int>, lo: nat, hi: nat)
    requires Permutation(t) && |v| == |w| == |t| == |i| && lo < hi <= |t|
    requires forall k :: lo <= k < hi ==> i[k] == t[k] && w[i[k]] == hi - 1
    requires forall x :: 0 <= x < |v| && x !in i[lo..hi] ==> w[x] == v[x]
    ensures forall k :: 0 <= k < |t| ==> w[t[k]] == if lo <= k < hi then hi - 1 else v[t[k]]
  {
  }

  // b is a with positions lo..hi numbered as one group and, if that is a
  // group of one, its entry marked.
  ghost predicate ClosesGroup(a: Snapshot, b: Snapshot, lo: nat, hi: nat)
    requires Grouped(a.v, a.t)
  {
    && b.t == a.t && |b.v| == |a.v| && lo < hi <= |a.i| == |a.t|
    && (forall k :: 0 <= k < |a.t| ==> b.v[a.t[k]] == if lo <= k < hi then hi - 1 else a.v[a.t[k]])
    && b.i == if lo == hi - 1 then a.i[lo := -1] else a.i
  }

  lemma GroupIsClosed(s: seq<byte>, a: Snapshot, b: Snapshot, h: nat, lo: nat, hi: nat)
    requires Ready(s, a, h, lo, hi) && ClosesGroup(a, b, lo, hi)
    requires forall j, k :: lo <= j < k < hi ==> Lcp(s, a.t[j], s, a.t[k]) >= 2 * h
    ensures HasSplit(s, a, b, h, lo, hi)
  {
    hide Less, Lcp, Closed, Confined, Ready, ClosesGroup;
    ClosedIsRefined(s, a, b, h, lo, hi);
    ClosedAgrees(s, a, b, h, lo, hi);
    MarkedGroup(s, a, b, h, lo, hi);
    ClosedFromParts(s, b, h, lo, hi);
    ConfinedFromParts(s, a, b, h, lo, hi);
  }

  lemma ClosedIsRefined(s: seq<byte>, a: Snapshot, b: Snapshot, h: nat, lo: nat, hi: nat)
    requires Ready(s, a, h, lo, hi) && ClosesGroup(a, b, lo, hi)
    ensures Refined(s, b.v, b.t, h)
  {
    hide Less, Lcp, Refined, Grouped, Permutation, Below;
    CloseKeepsRefined(s, a.v, b.v, a.t, h, lo, hi);
  }

  lemma ClosedAgrees(s: seq<byte>, a: Snapshot, b: Snapshot, h: nat, lo: nat, hi: nat)
    requires Ready(s, a, h, lo, hi) && ClosesGroup(a, b, lo, hi) && Refined(s, b.v, b.t, h)
    requires forall j, k :: lo <= j < k < hi ==> Lcp(s, a.t[j], s, a.t[k]) >= 2 * h
    ensures AgreeWithin(s, b.v, b.t, 2 * h, lo, hi)
  {
    hide Less, Lcp, Ordered, AgreeWithin, Below;
    ClosedGroupAgrees(s, b.v, b.t, 2 * h, lo, hi);
  }

  // A new group of one, and no other, has its entry overwritten.
  lemma MarkedGroup(s: seq<byte>, a: Snapshot, b: Snapshot, h: nat, lo: nat, hi: nat)
    requires Ready(s, a, h, lo, hi) && ClosesGroup(a, b, lo, hi) && Refined(s, b.v, b.t, h)
    ensures lo < hi <= |b.t| == |b.i| && b.v[b.t[hi - 1]] == hi - 1
    ensures forall k :: lo <= k < hi ==> b.i[k] == if Single(b.v, b.t, k) then -1 else b.t[k]
  {
    hide Less, Lcp, Ordered, AgreeWithin, Below;
    assert forall k :: lo <= k < hi ==> Single(b.v, b.t, k) == (lo == hi - 1);
  }

  lemma ClosedFromParts(s: seq<byte>, b: Snapshot, h: nat, lo: nat, hi: nat)
    requires Refined(s, b.v, b.t, h) && |b.i| == |b.t| && lo < hi <= |b.t| && b.v[b.t[hi - 1]] == hi - 1
    requires AgreeWithin(s, b.v, b.t, 2 * h, lo, hi)
    requires forall k :: lo <= k < hi ==> b.i[k] == if Single(b.v, b.t, k) then -1 else b.t[k]
    ensures Closed(s, b, h, lo, hi)
  {
  }

  lemma ConfinedFromParts(s: seq<byte>, a: Snapshot, b: Snapshot, h: nat, lo: nat, hi: nat)
    requires Ready(s, a, h, lo, hi) && ClosesGroup(a, b, lo, hi)
    ensures Confined(a, b, lo, hi)
  {
    hide Less, Lcp, Ordered, AgreeWithin, Below;
    ShuffledReflexive(a.t, lo, hi);
  }

  // ----- Stretches -----

  // A stretch stays one when it is rearranged.
  lemma StretchShuffled(s: seq<byte>, a: Snapshot, b: Snapshot, h: nat, lo: nat, hi: nat)
    requires Stretch(s, a, h, lo, hi) && Shuffled(a.t, b.t, lo, hi)
    requires b.v == a.v && |b.i| == |a.i| && forall k :: lo <= k < hi ==> b.i[k] == b.t[k]
    ensures Stretch(s, b, h, lo, hi) && Refined(s, b.v, b.t, h) && |b.t| == |a.t|
    ensures forall k :: 0 <= k < |a.t| ==> b.v[b.t[k]] == a.v[a.t[k]]
  {
    hide Less, Lcp, Ordered, AgreeWithin, Below, Shuffled;
    ShuffleKeepsRefined(s, a.v, a.t, b.t, h, lo, hi);
    BelowShuffled(s, a.t, b.t, h, lo, hi, a.v[a.t[lo]] + 1);
  }

  lemma BelowShuffled(s: seq<byte>, t: seq<int>, u: seq<int>, h: nat, lo: nat, hi: nat, top: nat)
    requires hi <= top <= |t| && forall k :: 0 <= k < |t| ==> 0 <= t[k] <= |s|
    requires forall k :: lo <= k < hi ==> t[k] + h <= |s|
    requires Below(s, t, lo, hi, top) && Shuffled(t, u, lo, hi)
    ensures forall k :: 0 <= k < |u| ==> 0 <= u[k] <= |s|
    ensures forall k :: lo <= k < hi ==> u[k] + h <= |s|
    ensures Below(s, u, lo, hi, top)
  {
    hide Less, Lcp;
    forall j | 0 <= j < |u|
      ensures 0 <= u[j] <= |s|
      ensures lo <= j < hi ==> u[j] + h <= |s|
      ensures lo <= j < hi ==> forall k :: hi <= k < top ==> Less(s, u[j], s, t[k])
    {
      var p := SourceOf(t, u, lo, hi, j);
    }
  }

  // Separating a stretch by key makes two stretches of it.
  lemma StretchCut(s: seq<byte>, a: Snapshot, h: nat, lo: nat, mid: nat, hi: nat)
    requires h > 0 && Stretch(s, a, h, lo, hi) && lo <= mid <= hi
    requires forall j, k :: lo <= j < mid <= k < hi ==> a.v[a.t[j] + h] < a.v[a.t[k] + h]
    ensures lo < mid ==> Stretch(s, a, h, lo, mid)
    ensures mid < hi ==> Stretch(s, a, h, mid, hi)
  {
    hide Less, Lcp, Ordered, AgreeWithin;
    forall j, k | lo <= j < mid <= k < hi
      ensures Less(s, a.t[j], s, a.t[k])
    {
      KeyOrdersPositions(s, a.v, a.t, h, j, k);
    }
  }

  // Equal keys throughout a stretch: its suffixes agree on 2h bytes.
  lemma EqualKeysAgree(s: seq<byte>, a: Snapshot, h: nat, lo: nat, hi: nat)
    requires h > 0 && Stretch(s, a, h, lo, hi)
    requires forall j, k :: lo <= j < k < hi ==> a.v[a.t[j] + h] == a.v[a.t[k] + h]
    ensures forall j, k :: lo <= j < k < hi ==> Lcp(s, a.t[j], s, a.t[k]) >= 2 * h
  {
    hide Less, Lcp, Ordered, AgreeWithin;
    forall j, k | lo <= j < k < hi
      ensures Lcp(s, a.t[j], s, a.t[k]) >= 2 * h
    {
      KeyOrdersPositions(s, a.v, a.t, h, j, k);
    }
  }

  // Splitting what precedes a stretch does not touch it.
  lemma StretchKept(s: seq<byte>, a: Snapshot, b: Snapshot, h: nat, lo: nat, mid: nat, from: nat, to: nat)
    requires Stretch(s, a, h, from, to) && mid <= from
    requires HasSplit(s, a, b, h, lo, mid)
    ensures Stretch(s, b, h, from, to)
    ensures from == mid ==> Ready(s, b, h, from, to)
  {
    hide Less, Lcp, Ordered, AgreeWithin, Permutation, Shuffled;
  }

  // ----- Progress of a split -----

  lemma SplittingStart(s: seq<byte>, a: Snapshot, h: nat, lo: nat, hi: nat)
    requires Ready(s, a, h, lo, hi)
    ensures Splitting(s, a, a, h, lo, lo, hi)
  {
    hide Less, Lcp, Ordered, AgreeWithin;
    ShuffledReflexive(a.t, lo, hi);
  }

  lemma ConfinedTransitive(a: Snapshot, b: Snapshot, c: Snapshot, lo: nat, hi: nat, from: nat, to: nat)
    requires Confined(a, b, lo, hi) && Confined(b, c, from, to) && lo <= from <= to <= hi
    ensures Confined(a, c, lo, hi)
  {
    hide Shuffled, Grouped;
    ShuffledTransitive(a.t, b.t, c.t, lo, hi, from, to);
  }

  // The part still to be split may be rearranged.
  lemma SplittingShuffled(s: seq<byte>, a: Snapshot, b: Snapshot, c: Snapshot, h: nat, lo: nat, mid: nat, hi: nat)
    requires Splitting(s, a, b, h, lo, mid, hi) && mid < hi
    requires c.v == b.v && Shuffled(b.t, c.t, mid, hi)
    requires |c.i| == |b.i| && forall k :: 0 <= k < |b.i| ==> c.i[k] == if mid <= k < hi then c.t[k] else b.i[k]
    ensures Splitting(s, a, c, h, lo, mid, hi)
  {
    hide Less, Lcp, Refined, Confined, Closed, Shuffled, Below;
    StretchShuffled(s, b, c, h, mid, hi);
    ShuffleConfined(s, b, c, h, mid, hi);
    ConfinedTransitive(a, b, c, lo, hi, mid, hi);
    if lo < mid {
      ClosedKept(s, b, c, h, lo, mid, mid, hi);
    }
  }

  lemma ShuffleConfined(s: seq<byte>, b: Snapshot, c: Snapshot, h: nat, mid: nat, hi: nat)
    requires Stretch(s, b, h, mid, hi)
    requires c.v == b.v && Shuffled(b.t, c.t, mid, hi)
    requires |c.i| == |b.i| && forall k :: 0 <= k < |b.i| ==> c.i[k] == if mid <= k < hi then c.t[k] else b.i[k]
    ensures Confined(b, c, mid, hi)
  {
    hide Less, Lcp, Ordered, AgreeWithin, Below;
  }

  // What is closed stays closed while later positions change.
  lemma ClosedKept(s: seq<byte>, a: Snapshot, b: Snapshot, h: nat, lo: nat, hi: nat, from: nat, to: nat)
    requires Closed(s, a, h, lo, hi) && hi <= from
    requires Confined(a, b, from, to) && Refined(s, b.v, b.t, h)
    ensures Closed(s, b, h, lo, hi)
  {
    hide Less, Lcp, Ordered, Permutation, Shuffled;
  }

  lemma SplittingAdvances(s: seq<byte>, a: Snapshot, b: Snapshot, c: Snapshot, h: nat, lo: nat, mid: nat,
                          to: nat, hi: nat)
    requires Splitting(s, a, b, h, lo, mid, hi) && mid < to <= hi
    requires HasSplit(s, b, c, h, mid, to)
    requires to < hi ==> Stretch(s, b, h, to, hi)
    ensures Splitting(s, a, c, h, lo, to, hi)
  {
    hide Less, Lcp, Confined, Refined;
    ConfinedTransitive(a, b, c, lo, hi, mid, to);
    if lo < mid {
      ClosedKept(s, b, c, h, lo, mid, mid, to);
      ClosedUnion(s, c, h, lo, mid, to);
    }
    if to < hi {
      StretchKept(s, b, c, h, mid, to, to, hi);
    }
  }

  lemma ClosedUnion(s: seq<byte>, a: Snapshot, h: nat, lo: nat, mid: nat, hi: nat)
    requires Closed(s, a, h, lo, mid) && Closed(s, a, h, mid, hi)
    ensures Closed(s, a, h, lo, hi)
  {
    hide Less, Lcp, Ordered;
  }
}
