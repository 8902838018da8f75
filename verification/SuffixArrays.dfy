// What a suffix array is, a simple sort that builds it, and the proof that
// there is only one.  The prefix-doubling sort is proved equal to this one.
module SuffixArrays {
  import opened Bytes
  import opened SuffixOrder

  // A sequence of the numbers below its length, each at most once.
  ghost predicate Permutation(t: seq<int>) {
    && (forall k :: 0 <= k < |t| ==> 0 <= t[k] < |t|)
    && (forall j, k :: 0 <= j < k < |t| ==> t[j] != t[k])
  }

  // All suffixes of s, the empty one included, in strictly ascending order.
  ghost predicate IsSuffixArray(s: seq<byte>, t: seq<int>) {
    && |t| == |s| + 1
    && Permutation(t)
    && (forall j, k :: 0 <= j < k < |t| ==> Less(s, t[j], s, t[k]))
  }

  ghost function Elements(t: seq<int>): set<int> {
    set k | 0 <= k < |t| :: t[k]
  }

  lemma {:induction false} DistinctCardinality(t: seq<int>)
    requires forall j, k :: 0 <= j < k < |t| ==> t[j] != t[k]
    ensures |Elements(t)| == |t|
  {
    if t != [] {
      var last := |t| - 1;
      DistinctCardinality(t[..last]);
      assert Elements(t) == Elements(t[..last]) + {t[last]};
    }
  }

  ghost function UpTo(n: nat): (r: set<int>)
    ensures |r| == n && forall k :: k in r <==> 0 <= k < n
  {
    if n == 0 then {} else UpTo(n - 1) + {n - 1}
  }

  lemma SubsetOfEqualSize(a: set<int>, b: set<int>)
    requires a <= b && |a| == |b|
    ensures a == b
  {
    assert b == a + (b - a);
  }

  // A permutation misses no number: every suffix has a position.
  lemma PositionOf(t: seq<int>, a: int) returns (k: nat)
    requires Permutation(t) && 0 <= a < |t|
    ensures k < |t| && t[k] == a
  {
    DistinctCardinality(t);
    SubsetOfEqualSize(Elements(t), UpTo(|t|));
    assert a in Elements(t);
    k :| 0 <= k < |t| && t[k] == a;
  }

  // ----- The reference sort: insertion of one suffix at a time -----

  function Insert(s: seq<byte>, a: nat, t: seq<int>): (r: seq<int>)
    requires a <= |s| && forall k :: 0 <= k < |t| ==> 0 <= t[k] <= |s|
    ensures |r| == |t| + 1 && forall k :: 0 <= k < |r| ==> 0 <= r[k] <= |s|
  {
    if t == [] || Less(s, a, s, t[0]) then [a] + t
    else [t[0]] + Insert(s, a, t[1..])
  }

  function SortFrom(s: seq<byte>, a: nat): (r: seq<int>)
    requires a <= |s|
    ensures |r| == |s| + 1 - a && forall k :: 0 <= k < |r| ==> 0 <= r[k] <= |s|
    decreases |s| - a
  {
    if a == |s| then [a] else Insert(s, a, SortFrom(s, a + 1))
  }

  function SuffixArray(s: seq<byte>): (r: seq<int>)
    ensures |r| == |s| + 1 && forall k :: 0 <= k < |r| ==> 0 <= r[k] <= |s|
  {
    SortFrom(s, 0)
  }

  ghost predicate Ascending(s: seq<byte>, t: seq<int>) {
    && (forall k :: 0 <= k < |t| ==> 0 <= t[k] <= |s|)
    && (forall j, k :: 0 <= j < k < |t| ==> Less(s, t[j], s, t[k]))
  }

  // Insertion adds a and nothing else, so it keeps lower bounds.
  lemma {:induction false} InsertKeepsBounds(s: seq<byte>, a: nat, t: seq<int>, b: nat, low: int)
    requires a <= |s| && b <= |s| && forall k :: 0 <= k < |t| ==> 0 <= t[k] <= |s|
    requires Less(s, b, s, a) && low <= a
    requires forall k :: 0 <= k < |t| ==> Less(s, b, s, t[k]) && low <= t[k]
    ensures forall k :: 0 <= k < |t| + 1 ==> Less(s, b, s, Insert(s, a, t)[k]) && low <= Insert(s, a, t)[k]
  {
    hide Less, Lcp;
    if t != [] && !Less(s, a, s, t[0]) {
      InsertKeepsBounds(s, a, t[1..], b, low);
    }
  }

  lemma {:induction false} InsertAscends(s: seq<byte>, a: nat, t: seq<int>)
    requires a <= |s| && Ascending(s, t)
    requires forall k :: 0 <= k < |t| ==> a < t[k]
    ensures Ascending(s, Insert(s, a, t))
    ensures forall k :: 0 <= k < |t| + 1 ==> a <= Insert(s, a, t)[k]
  {
    hide Less, Lcp;
    if t == [] {
    } else if Less(s, a, s, t[0]) {
      forall k | 0 < k < |t|
        ensures Less(s, a, s, t[k])
      {
        LessTransitive(s, a, s, t[0], s, t[k]);
      }
    } else {
      InsertAscends(s, a, t[1..]);
      SuffixesComparable(s, a, t[0]);
      InsertKeepsBounds(s, a, t[1..], t[0], a);
    }
  }

  lemma {:induction false} SortFromAscends(s: seq<byte>, a: nat)
    requires a <= |s|
    ensures Ascending(s, SortFrom(s, a))
    ensures forall k :: 0 <= k < |SortFrom(s, a)| ==> a <= SortFrom(s, a)[k]
    decreases |s| - a
  {
    hide Less, Lcp;
    if a < |s| {
      SortFromAscends(s, a + 1);
      InsertAscends(s, a, SortFrom(s, a + 1));
    }
  }

  // The reference sort does build a suffix array.
  lemma SuffixArrayIsOne(s: seq<byte>)
    ensures IsSuffixArray(s, SuffixArray(s))
  {
    SortFromAscends(s, 0);
    var t := SuffixArray(s);
    forall j, k | 0 <= j < k < |t|
      ensures t[j] != t[k]
    {
      LessAsymmetric(s, t[j], s, t[k]);
    }
  }

  // A string has one suffix array only, so any correct sort returns this one.
  lemma {:induction false} SuffixArrayUnique(s: seq<byte>, t: seq<int>, u: seq<int>, k: nat)
    requires IsSuffixArray(s, t) && IsSuffixArray(s, u) && k <= |t|
    ensures t[..k] == u[..k]
    ensures k == |t| ==> t == u
  {
    hide Less, Lcp;
    if k > 0 {
      SuffixArrayUnique(s, t, u, k - 1);
      if t[k - 1] != u[k - 1] {
        forall i | 0 <= i < k - 1
          ensures t[i] == u[i]
        {
          assert t[i] == t[..k - 1][i] == u[..k - 1][i];
        }
        FirstDifference(s, t, u, k - 1);
        FirstDifference(s, u, t, k - 1);
        LessAsymmetric(s, t[k - 1], s, u[k - 1]);
      }
      assert t[..k] == t[..k - 1] + [t[k - 1]];
      assert u[..k] == u[..k - 1] + [u[k - 1]];
    }
  }

  lemma FirstDifference(s: seq<byte>, t: seq<int>, u: seq<int>, k: nat)
    requires IsSuffixArray(s, t) && IsSuffixArray(s, u) && k < |t|
    requires (forall i :: 0 <= i < k ==> t[i] == u[i]) && t[k] != u[k]
    ensures Less(s, u[k], s, t[k])
  {
    hide Less, Lcp;
    var m := PositionOf(u, t[k]);
    assert m > k;
  }
}
