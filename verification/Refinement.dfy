// The invariant of prefix doubling.  t lists the suffixes in their current
// order and v[a] is the number of the group of suffix a, which is the last
// position of that group.  Groups are in their final order already; members
// of one group are only known to agree on h bytes.
module Refinement {
  import opened Bytes
  import opened SuffixOrder
  import opened SuffixArrays

  ghost predicate Grouped(v: seq<int>, t: seq<int>) {
    && |v| == |t| && Permutation(t)
    && (forall k :: 0 <= k < |t| ==> k <= v[t[k]] < |t|)
    && (forall j, k :: 0 <= j <= k < |t| && k <= v[t[j]] ==> v[t[k]] == v[t[j]])
  }

  // Suffixes of different groups are in lexicographic order.
  ghost predicate Ordered(s: seq<byte>, v: seq<int>, t: seq<int>)
    requires |t| == |s| + 1 && Grouped(v, t)
  {
    forall j, k :: 0 <= j < k < |t| && v[t[j]] < k ==> Less(s, t[j], s, t[k])
  }

  // Suffixes between positions lo and hi that share a group agree on h bytes.
  ghost predicate AgreeWithin(s: seq<byte>, v: seq<int>, t: seq<int>, h: nat, lo: nat, hi: nat)
    requires |t| == |s| + 1 && Grouped(v, t)
  {
    forall j, k :: lo <= j < k < hi <= |t| && k <= v[t[j]] ==> Lcp(s, t[j], s, t[k]) >= h
  }

  ghost predicate Refined(s: seq<byte>, v: seq<int>, t: seq<int>, h: nat) {
    && |t| == |s| + 1 && Grouped(v, t)
    && Ordered(s, v, t)
    && AgreeWithin(s, v, t, h, 0, |t|)
  }

  // Position k is a group of its own.
  ghost predicate Single(v: seq<int>, t: seq<int>, k: nat)
    requires Grouped(v, t) && k < |t|
  {
    v[t[k]] == k && (k > 0 ==> v[t[k - 1]] < k)
  }

  // The suffixes of positions lo..hi are all smaller than those of hi..top.
  ghost predicate Below(s: seq<byte>, t: seq<int>, lo: nat, hi: nat, top: nat)
    requires top <= |t| && forall k :: 0 <= k < |t| ==> 0 <= t[k] <= |s|
  {
    forall j, k :: lo <= j < hi <= k < top ==> Less(s, t[j], s, t[k])
  }

  // The sort key of a group member, V[a + h], orders the members of one group
  // as their suffixes are ordered, and members with equal keys agree on 2h.
  lemma KeyOrdersGroup(s: seq<byte>, v: seq<int>, t: seq<int>, h: nat, a: nat, b: nat)
    requires Refined(s, v, t, h) && h > 0
    requires a + h <= |s| && b + h <= |s| && a != b
    requires Lcp(s, a, s, b) >= h
    ensures v[a + h] < v[b + h] ==> Less(s, a, s, b)
    ensures v[a + h] == v[b + h] ==> Lcp(s, a, s, b) >= 2 * h
  {
    hide Lcp, Less, Ordered, AgreeWithin;
    var j := PositionOf(t, a + h);
    var k := PositionOf(t, b + h);
    NumbersOrder(s, v, t, h, j, k);
    LcpShift(s, a, s, b, h);
  }

  lemma KeyOrdersPositions(s: seq<byte>, v: seq<int>, t: seq<int>, h: nat, j: nat, k: nat)
    requires Refined(s, v, t, h) && h > 0
    requires j < |t| && k < |t| && j != k && v[t[j]] == v[t[k]]
    requires t[j] + h <= |s| && t[k] + h <= |s|
    ensures v[t[j] + h] < v[t[k] + h] ==> Less(s, t[j], s, t[k])
    ensures v[t[j] + h] == v[t[k] + h] ==> Lcp(s, t[j], s, t[k]) >= 2 * h
  {
    hide Less, Lcp, Ordered, AgreeWithin;
    NumbersOrder(s, v, t, h, j, k);
    KeyOrdersGroup(s, v, t, h, t[j], t[k]);
  }

  // ----- Rearranging a stretch of one group -----

  // b is a with the stretch lo..hi rearranged.
  ghost predicate Shuffled(a: seq<int>, b: seq<int>, lo: nat, hi: nat) {
    && |a| == |b| && lo <= hi <= |a|
    && (forall k :: 0 <= k < |a| && !(lo <= k < hi) ==> b[k] == a[k])
    && (forall k :: lo <= k < hi ==> b[k] in a[lo..hi])
    && (forall j, k :: lo <= j < k < hi ==> b[j] != b[k])
  }

  // Where the element at position k came from.
  lemma SourceOf(a: seq<int>, b: seq<int>, lo: nat, hi: nat, k: nat) returns (p: nat)
    requires Shuffled(a, b, lo, hi) && k < |a|
    ensures p < |a| && b[k] == a[p]
    ensures if lo <= k < hi then lo <= p < hi else p == k
  {
    if lo <= k < hi {
      var q :| 0 <= q < hi - lo && a[lo..hi][q] == b[k];
      p := lo + q;
    } else {
      p := k;
    }
  }

  lemma ShuffledReflexive(a: seq<int>, lo: nat, hi: nat)
    requires lo <= hi <= |a| && forall j, k :: lo <= j < k < hi ==> a[j] != a[k]
    ensures Shuffled(a, a, lo, hi)
  {
    forall k | lo <= k < hi
      ensures a[k] in a[lo..hi]
    {
      assert a[lo..hi][k - lo] == a[k];
    }
  }

  lemma ShuffledTransitive(a: seq<int>, b: seq<int>, c: seq<int>, lo: nat, hi: nat, from: nat, to: nat)
    requires lo <= from <= to <= hi
    requires Shuffled(a, b, lo, hi) && Shuffled(b, c, from, to)
    ensures Shuffled(a, c, lo, hi)
  {
    forall k | lo <= k < hi
      ensures c[k] in a[lo..hi]
    {
      var p := SourceOf(b, c, from, to, k);
    }
    forall j, k | lo <= j < k < hi
      ensures c[j] != c[k]
    {
      var p := SourceOf(b, c, from, to, j);
      var q := SourceOf(b, c, from, to, k);
    }
  }

  ghost function Swapped(a: seq<int>, p: nat, q: nat): (b: seq<int>)
    requires p < |a| && q < |a|
    ensures |b| == |a|
  {
    a[p := a[q]][q := a[p]]
  }

  lemma SwapShuffles(a: seq<int>, lo: nat, hi: nat, p: nat, q: nat)
    requires lo <= p < hi <= |a| && lo <= q < hi
    requires forall j, k :: lo <= j < k < hi ==> a[j] != a[k]
    ensures Shuffled(a, Swapped(a, p, q), lo, hi)
  {
    var b := Swapped(a, p, q);
    forall k | lo <= k < hi
      ensures b[k] in a[lo..hi]
    {
      var r := if k == p then q else if k == q then p else k;
      assert b[k] == a[lo..hi][r - lo];
    }
  }

  // Members of one group may be rearranged freely: the group numbers by
  // position, the order between groups and the agreement within them stay.
  lemma ShuffleKeepsNumbers(v: seq<int>, t: seq<int>, u: seq<int>, lo: nat, hi: nat)
    requires Grouped(v, t)
    requires Shuffled(t, u, lo, hi) && lo < hi <= v[t[lo]] + 1
    ensures Grouped(v, u)
    ensures forall k :: 0 <= k < |t| ==> v[u[k]] == v[t[k]]
  {
    assert |u| == |t|;
    hide Shuffled;
    forall k | 0 <= k < |u|
      ensures 0 <= u[k] < |u| && v[u[k]] == v[t[k]]
    {
      var p := SourceOf(t, u, lo, hi, k);
    }
    forall j, k | 0 <= j < k < |u|
      ensures u[j] != u[k]
    {
      DistinctSources(t, u, lo, hi, j, k);
    }
  }

  lemma DistinctSources(t: seq<int>, u: seq<int>, lo: nat, hi: nat, j: nat, k: nat)
    requires Permutation(t) && Shuffled(t, u, lo, hi) && j < k < |u|
    ensures u[j] != u[k]
  {
    if !(lo <= j && k < hi) {
      var p := SourceOf(t, u, lo, hi, j);
      var q := SourceOf(t, u, lo, hi, k);
    }
  }

  lemma ShuffleKeepsRefined(s: seq<byte>, v: seq<int>, t: seq<int>, u: seq<int>, h: nat, lo: nat, hi: nat)
    requires Refined(s, v, t, h)
    requires Shuffled(t, u, lo, hi) && lo < hi <= v[t[lo]] + 1
    ensures Refined(s, v, u, h)
    ensures forall k :: 0 <= k < |t| ==> v[u[k]] == v[t[k]]
  {
    ShuffleKeepsNumbers(v, t, u, lo, hi);
    forall j, k | 0 <= j < k < |u|
      ensures v[u[j]] < k ==> Less(s, u[j], s, u[k])
      ensures k <= v[u[j]] ==> Lcp(s, u[j], s, u[k]) >= h
    {
      ShuffledPair(s, v, t, u, h, lo, hi, j, k);
    }
  }

  lemma ShuffledPair(s: seq<byte>, v: seq<int>, t: seq<int>, u: seq<int>, h: nat, lo: nat, hi: nat, j: nat, k: nat)
    requires Refined(s, v, t, h) && Grouped(v, u)
    requires Shuffled(t, u, lo, hi) && lo < hi <= v[t[lo]] + 1
    requires j < k < |u|
    ensures v[u[j]] < k ==> Less(s, u[j], s, u[k])
    ensures k <= v[u[j]] ==> Lcp(s, u[j], s, u[k]) >= h
  {
    var p := SourceOf(t, u, lo, hi, j);
    var q := SourceOf(t, u, lo, hi, k);
    assert v[u[j]] < k ==> v[u[j]] < v[u[k]];
    assert k <= v[u[j]] ==> v[u[j]] == v[u[k]];
    assert p != q by { DistinctSources(t, u, lo, hi, j, k); }
    NumbersOrder(s, v, t, h, p, q);
  }

  // Group numbers order suffixes; equal numbers mean agreement on h bytes.
  lemma NumbersOrder(s: seq<byte>, v: seq<int>, t: seq<int>, h: nat, j: nat, k: nat)
    requires Refined(s, v, t, h)
    requires j < |t| && k < |t| && j != k
    ensures v[t[j]] < v[t[k]] ==> Less(s, t[j], s, t[k])
    ensures v[t[j]] == v[t[k]] ==> Lcp(s, t[j], s, t[k]) >= h
  {
    hide Less, Lcp;
    LcpSymmetric(s, t[j], s, t[k]);
  }

  // ----- Splitting the front off a group -----

  // The front lo..hi of a group becomes a group of its own, when it is
  // smaller than what remains.
  lemma CloseKeepsRefined(s: seq<byte>, v: seq<int>, w: seq<int>, t: seq<int>, h: nat, lo: nat, hi: nat)
    requires Refined(s, v, t, h)
    requires lo < |t| && lo < hi <= v[t[lo]] + 1 && (lo > 0 ==> v[t[lo - 1]] < lo)
    requires Below(s, t, lo, hi, v[t[lo]] + 1)
    requires |w| == |v|
    requires forall k :: 0 <= k < |t| ==> w[t[k]] == if lo <= k < hi then hi - 1 else v[t[k]]
    ensures Refined(s, w, t, h)
  {
    hide Less, Lcp;
  }

  lemma ClosedGroupAgrees(s: seq<byte>, w: seq<int>, t: seq<int>, h: nat, lo: nat, hi: nat)
    requires |t| == |s| + 1 && Grouped(w, t) && lo < hi <= |t|
    requires forall j, k :: lo <= j < k < hi ==> Lcp(s, t[j], s, t[k]) >= h
    ensures AgreeWithin(s, w, t, h, lo, hi)
  {
    hide Less, Lcp;
  }
}
