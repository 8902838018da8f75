// matchlen and search: a binary search of the suffix array for the query
// dst[scan..], by memcmp truncated to the shorter of the two strings.
module Search {
  import opened Bytes
  import opened SuffixOrder
  import opened SuffixArrays

  datatype Match = Match(len: nat, pos: nat)

  // memcmp over the common length is negative: the suffix differs from the
  // query within both, and is smaller there.
  predicate ComparesBelow(src: seq<byte>, a: nat, dst: seq<byte>, scan: nat)
    requires a <= |src| && scan <= |dst|
  {
    var k := Lcp(src, a, dst, scan);
    a + k < |src| && scan + k < |dst| && src[a + k] < dst[scan + k]
  }

  method MatchLength(src: seq<byte>, a: nat, dst: seq<byte>, scan: nat) returns (i: nat)
    requires a <= |src| && scan <= |dst|
    ensures i == Lcp(src, a, dst, scan)
  {
    hide IsLcp, Lcp;
    i := 0;
    while i < |src| - a && i < |dst| - scan
      invariant a + i <= |src| && scan + i <= |dst|
      invariant Lcp(src, a, dst, scan) == i + Lcp(src, a + i, dst, scan + i)
    {
      LcpNext(src, a + i, dst, scan + i);
      if src[a + i] != dst[scan + i] {
        break;
      }
      i := i + 1;
    }
    LcpNext(src, a + i, dst, scan + i);
  }

  lemma LcpNext(src: seq<byte>, a: nat, dst: seq<byte>, scan: nat)
    requires a <= |src| && scan <= |dst|
    ensures Lcp(src, a, dst, scan) ==
      if a < |src| && scan < |dst| && src[a] == dst[scan] then 1 + Lcp(src, a + 1, dst, scan + 1) else 0
  {
  }

  ghost predicate Indices(t: seq<int>, src: seq<byte>) {
    |t| == |src| + 1 && forall k :: 0 <= k < |t| ==> 0 <= t[k] <= |src|
  }

  // What search returns between the positions st and en of the suffix array.
  ghost function Find(t: seq<int>, src: seq<byte>, dst: seq<byte>, scan: nat, st: nat, en: nat): (m: Match)
    requires Indices(t, src) && scan <= |dst| && st <= en < |t|
    ensures m.pos <= |src| && m.len == Lcp(src, m.pos, dst, scan)
    decreases en - st
  {
    if en - st < 2 then
      var x, y := Lcp(src, t[st], dst, scan), Lcp(src, t[en], dst, scan);
      if x > y then Match(x, t[st]) else Match(y, t[en])
    else
      var mid := st + (en - st) / 2;
      if ComparesBelow(src, t[mid], dst, scan) then Find(t, src, dst, scan, mid, en)
      else Find(t, src, dst, scan, st, mid)
  }

  // The number of probes is at most the binary logarithm of the distance,
  // rounded up.
  method BinarySearch(I: array<int>, src: seq<byte>, dst: seq<byte>, scan: nat, st: nat, en: nat)
    returns (len: nat, pos: nat, ghost probes: nat)
    requires Indices(I[..], src) && scan <= |dst| && st <= en < I.Length
    ensures Match(len, pos) == Find(I[..], src, dst, scan, st, en)
    ensures probes > 0 ==> Pow(2, probes - 1) < en - st
    decreases en - st
  {
    hide Lcp, IsLcp, ComparesBelow;
    if en - st < 2 {
      var x := MatchLength(src, I[st], dst, scan);
      var y := MatchLength(src, I[en], dst, scan);
      if x > y {
        return x, I[st], 0;
      } else {
        return y, I[en], 0;
      }
    }
    var x := st + (en - st) / 2;
    if ComparesBelow(src, I[x], dst, scan) {
      len, pos, probes := BinarySearch(I, src, dst, scan, x, en);
    } else {
      len, pos, probes := BinarySearch(I, src, dst, scan, st, x);
    }
    probes := probes + 1;
  }

  // ----- Where the search ends -----

  // Positions k and k + 1 of the array are such that the search went right at k
  // and left at k + 1, unless k is the first or k + 1 the last position.
  ghost predicate Between(t: seq<int>, src: seq<byte>, dst: seq<byte>, scan: nat, k: nat)
    requires Indices(t, src) && scan <= |dst| && k < |src|
  {
    && (k > 0 ==> ComparesBelow(src, t[k], dst, scan))
    && (k + 1 < |src| ==> !ComparesBelow(src, t[k + 1], dst, scan))
  }

  lemma FindStep(t: seq<int>, src: seq<byte>, dst: seq<byte>, scan: nat, st: nat, en: nat)
    requires Indices(t, src) && scan <= |dst| && st < en < |t|
    ensures var mid, m := st + (en - st) / 2, Find(t, src, dst, scan, st, en);
      if en == st + 1 then
        var x, y := Lcp(src, t[st], dst, scan), Lcp(src, t[en], dst, scan);
        m == if x > y then Match(x, t[st]) else Match(y, t[en])
      else if ComparesBelow(src, t[mid], dst, scan) then m == Find(t, src, dst, scan, mid, en)
      else m == Find(t, src, dst, scan, st, mid)
  {
    hide Lcp, IsLcp, ComparesBelow;
  }

  // The search ends with two neighbours between which it puts the query, and
  // returns the one that agrees further, the right one if they agree as far.
  lemma {:induction false} FindEndsBetween(t: seq<int>, src: seq<byte>, dst: seq<byte>, scan: nat, st: nat, en: nat)
    returns (k: nat)
    requires Indices(t, src) && scan <= |dst| && st < en < |t|
    requires st > 0 ==> ComparesBelow(src, t[st], dst, scan)
    requires en < |src| ==> !ComparesBelow(src, t[en], dst, scan)
    ensures st <= k < en && Between(t, src, dst, scan, k)
    ensures Find(t, src, dst, scan, st, en) ==
      var x, y := Lcp(src, t[k], dst, scan), Lcp(src, t[k + 1], dst, scan);
      if x > y then Match(x, t[k]) else Match(y, t[k + 1])
    decreases en - st
  {
    hide Lcp, IsLcp, ComparesBelow, Find;
    FindStep(t, src, dst, scan, st, en);
    if en - st < 2 {
      k := st;
    } else {
      var mid := st + (en - st) / 2;
      if ComparesBelow(src, t[mid], dst, scan) {
        k := FindEndsBetween(t, src, dst, scan, mid, en);
      } else {
        k := FindEndsBetween(t, src, dst, scan, st, mid);
      }
    }
  }

  // ----- How far the query agrees with its neighbours in the array -----

  // Agreement with the query falls off on both sides of where it belongs.
  lemma AgreementFallsOff(t: seq<int>, src: seq<byte>, dst: seq<byte>, scan: nat, j: nat, k: nat)
    requires IsSuffixArray(src, t) && scan <= |dst| && j < k < |t|
    ensures Less(src, t[k], dst, scan) ==>
      Less(src, t[j], dst, scan) && Lcp(src, t[j], dst, scan) <= Lcp(src, t[k], dst, scan)
    ensures !Less(src, t[j], dst, scan) ==> Lcp(src, t[k], dst, scan) <= Lcp(src, t[j], dst, scan)
  {
    hide Less, Lcp;
    if Less(src, t[k], dst, scan) {
      LessTransitive(src, t[j], src, t[k], dst, scan);
    }
    if !Less(src, t[j], dst, scan) {
      AboveFallsOff(src, t[j], t[k], dst, scan);
    }
  }

  lemma AboveFallsOff(src: seq<byte>, a: nat, b: nat, dst: seq<byte>, scan: nat)
    requires a <= |src| && b <= |src| && scan <= |dst|
    requires Less(src, a, src, b) && !Less(src, a, dst, scan)
    ensures Lcp(src, b, dst, scan) <= Lcp(src, a, dst, scan)
  {
    hide Lcp;
    LcpSymmetric(src, a, dst, scan);
    LcpSymmetric(src, b, dst, scan);
    if Less(dst, scan, src, a) {
      LessTransitive(dst, scan, src, a, src, b);
    }
  }

  // The truncated comparison is the true one, except for a suffix that ends
  // before the query does and agrees with it that far.
  lemma ComparesBelowOrEnds(src: seq<byte>, a: nat, dst: seq<byte>, scan: nat)
    requires a <= |src| && scan <= |dst|
    ensures Less(src, a, dst, scan) <==>
      ComparesBelow(src, a, dst, scan) || EndsInside(src, a, dst, scan)
    ensures !(ComparesBelow(src, a, dst, scan) && EndsInside(src, a, dst, scan))
  {
    hide Lcp;
  }

  // src[a..] is a proper prefix of the query.
  predicate EndsInside(src: seq<byte>, a: nat, dst: seq<byte>, scan: nat)
    requires a <= |src| && scan <= |dst|
  {
    var k := Lcp(src, a, dst, scan);
    a + k == |src| && scan + k < |dst|
  }

  // ----- When the match found is the longest one -----

  ghost predicate IsLongest(src: seq<byte>, dst: seq<byte>, scan: nat, len: nat)
    requires scan <= |dst|
  {
    forall a :: 0 <= a <= |src| ==> Lcp(src, a, dst, scan) <= len
  }

  // The query's first len + 1 bytes occur somewhere in src.
  ghost predicate OccursBeyond(src: seq<byte>, dst: seq<byte>, scan: nat, len: nat)
    requires scan <= |dst|
  {
    exists a :: 0 <= a <= |src| && Lcp(src, a, dst, scan) > len
  }

  // On its way the search compares the query with a suffix that ends inside it
  // although src has a longer match: such a suffix is smaller than the query
  // but compares equal, and the search turns left.
  ghost predicate Misled(t: seq<int>, src: seq<byte>, dst: seq<byte>, scan: nat, st: nat, en: nat)
    requires Indices(t, src) && scan <= |dst| && st <= en < |t|
    decreases en - st
  {
    en - st >= 2 &&
    var mid := st + (en - st) / 2;
    if ComparesBelow(src, t[mid], dst, scan) then Misled(t, src, dst, scan, mid, en)
    else
      || (EndsInside(src, t[mid], dst, scan) && OccursBeyond(src, dst, scan, |src| - t[mid]))
      || Misled(t, src, dst, scan, st, mid)
  }

  // The match returned is one of those between st and en.
  lemma {:induction false} FindBounded(t: seq<int>, src: seq<byte>, dst: seq<byte>, scan: nat, st: nat,
                                       en: nat, bound: nat)
    requires Indices(t, src) && scan <= |dst| && st <= en < |t|
    requires forall k :: st <= k <= en ==> Lcp(src, t[k], dst, scan) <= bound
    ensures Find(t, src, dst, scan, st, en).len <= bound
    decreases en - st
  {
    hide Lcp, IsLcp, ComparesBelow;
    if en - st >= 2 {
      var mid := st + (en - st) / 2;
      if ComparesBelow(src, t[mid], dst, scan) {
        FindBounded(t, src, dst, scan, mid, en, bound);
      } else {
        FindBounded(t, src, dst, scan, st, mid, bound);
      }
    }
  }

  // As long as a longest match lies between st and en, the search finds one
  // exactly if it is not misled.
  lemma {:induction false} FindLongestFrom(t: seq<int>, src: seq<byte>, dst: seq<byte>, scan: nat, st: nat,
                                           en: nat, best: nat)
    requires IsSuffixArray(src, t) && Indices(t, src) && scan <= |dst| && st <= best <= en < |t|
    requires IsLongest(src, dst, scan, Lcp(src, t[best], dst, scan))
    ensures IsLongest(src, dst, scan, Find(t, src, dst, scan, st, en).len) <==> !Misled(t, src, dst, scan, st, en)
    decreases en - st
  {
    hide Lcp, IsLcp, Less, ComparesBelow, EndsInside, IsSuffixArray;
    if en - st >= 2 {
      var mid := st + (en - st) / 2;
      var longest := Lcp(src, t[best], dst, scan);
      ComparesBelowOrEnds(src, t[mid], dst, scan);
      if mid < best {
        AgreementFallsOff(t, src, dst, scan, mid, best);
      } else if best < mid {
        AgreementFallsOff(t, src, dst, scan, best, mid);
      }
      if ComparesBelow(src, t[mid], dst, scan) {
        FindLongestFrom(t, src, dst, scan, mid, en, if best < mid then mid else best);
      } else if EndsInside(src, t[mid], dst, scan) && OccursBeyond(src, dst, scan, |src| - t[mid]) {
        EndsShort(t, src, dst, scan, st, mid);
      } else {
        EndsLong(src, t[mid], dst, scan);
        FindLongestFrom(t, src, dst, scan, st, mid, if best > mid then mid else best);
      }
    }
  }

  // Left of a suffix that ends inside the query nothing agrees further.
  lemma EndsShort(t: seq<int>, src: seq<byte>, dst: seq<byte>, scan: nat, st: nat, mid: nat)
    requires IsSuffixArray(src, t) && Indices(t, src) && scan <= |dst| && st <= mid < |t|
    requires EndsInside(src, t[mid], dst, scan) && OccursBeyond(src, dst, scan, |src| - t[mid])
    ensures !IsLongest(src, dst, scan, Find(t, src, dst, scan, st, mid).len)
  {
    hide Lcp, IsLcp, Less, ComparesBelow, IsSuffixArray;
    ComparesBelowOrEnds(src, t[mid], dst, scan);
    forall k | st <= k <= mid
      ensures Lcp(src, t[k], dst, scan) <= |src| - t[mid]
    {
      if k < mid {
        AgreementFallsOff(t, src, dst, scan, k, mid);
      }
    }
    FindBounded(t, src, dst, scan, st, mid, |src| - t[mid]);
  }

  // If nothing goes beyond it, a suffix that ends inside the query is itself
  // a longest match.
  lemma EndsLong(src: seq<byte>, a: nat, dst: seq<byte>, scan: nat)
    requires a <= |src| && scan <= |dst|
    ensures EndsInside(src, a, dst, scan) && !OccursBeyond(src, dst, scan, |src| - a) ==>
      IsLongest(src, dst, scan, Lcp(src, a, dst, scan))
  {
    hide Lcp;
  }

  // The call the diff scan makes: the whole array.
  ghost function FindMatch(src: seq<byte>, dst: seq<byte>, scan: nat): (m: Match)
    requires scan <= |dst|
    ensures m.pos <= |src| && m.len == Lcp(src, m.pos, dst, scan) && scan + m.len <= |dst|
  {
    Find(SuffixArray(src), src, dst, scan, 0, |src|)
  }

  // So the match comes from the two neighbours in the suffix array between
  // which the search puts the query.
  lemma FindsNeighbour(src: seq<byte>, dst: seq<byte>, scan: nat) returns (k: nat)
    requires scan <= |dst| && src != []
    ensures var t := SuffixArray(src);
      && k < |src| && Indices(t, src) && Between(t, src, dst, scan, k)
      && var x, y := Lcp(src, t[k], dst, scan), Lcp(src, t[k + 1], dst, scan);
         FindMatch(src, dst, scan) == if x > y then Match(x, t[k]) else Match(y, t[k + 1])
  {
    hide Lcp, IsLcp, Find, Between;
    k := FindEndsBetween(SuffixArray(src), src, dst, scan, 0, |src|);
  }

  // A tie goes to the right: if the suffix returned compares below the query,
  // its right neighbour in the suffix array agrees less far.
  lemma TieGoesRight(src: seq<byte>, dst: seq<byte>, scan: nat, k: nat)
    requires scan <= |dst| && k < |src|
    requires var t := SuffixArray(src);
      t[k] == FindMatch(src, dst, scan).pos && ComparesBelow(src, t[k], dst, scan)
    ensures Lcp(src, SuffixArray(src)[k + 1], dst, scan) < FindMatch(src, dst, scan).len
  {
    hide Lcp, IsLcp, Less, FindMatch, ComparesBelow;
    SuffixArrayIsOne(src);
    var t := SuffixArray(src);
    var j := FindsNeighbour(src, dst, scan);
    assert k == j;
  }

  lemma BestPosition(t: seq<int>, src: seq<byte>, dst: seq<byte>, scan: nat, k: nat) returns (best: nat)
    requires IsSuffixArray(src, t) && Indices(t, src) && scan <= |dst| && k < |t|
    ensures best <= k && forall j :: 0 <= j <= k ==> Lcp(src, t[j], dst, scan) <= Lcp(src, t[best], dst, scan)
  {
    hide Lcp, IsLcp, Less;
    best := 0;
    for i := 1 to k + 1
      invariant best < i <= k + 1
      invariant forall j :: 0 <= j < i ==> Lcp(src, t[j], dst, scan) <= Lcp(src, t[best], dst, scan)
    {
      if Lcp(src, t[i], dst, scan) > Lcp(src, t[best], dst, scan) {
        best := i;
      }
    }
  }

  // The search returns a longest match if and only if it is not misled.
  lemma FindsLongestUnlessMisled(src: seq<byte>, dst: seq<byte>, scan: nat)
    requires scan <= |dst|
    ensures IsLongest(src, dst, scan, FindMatch(src, dst, scan).len)
       <==> !Misled(SuffixArray(src), src, dst, scan, 0, |src|)
  {
    hide Lcp, IsLcp, Less, Misled, Find;
    SuffixArrayIsOne(src);
    var t := SuffixArray(src);
    var best := BestPosition(t, src, dst, scan, |src|);
    forall a | 0 <= a <= |src|
      ensures Lcp(src, a, dst, scan) <= Lcp(src, t[best], dst, scan)
    {
      var k := PositionOf(t, a);
    }
    FindLongestFrom(t, src, dst, scan, 0, |src|, best);
  }

  // Only the empty suffix can be at position 0, which is never compared, so
  // the search is not misled if no other suffix ends inside the query.
  lemma {:induction false} NotMisled(t: seq<int>, src: seq<byte>, dst: seq<byte>, scan: nat, st: nat, en: nat)
    requires IsSuffixArray(src, t) && Indices(t, src) && scan <= |dst| && st <= en < |t|
    requires forall a :: 0 <= a < |src| ==> !EndsInside(src, a, dst, scan)
    ensures !Misled(t, src, dst, scan, st, en)
    decreases en - st
  {
    hide Lcp, IsLcp, Less, EndsInside, ComparesBelow, OccursBeyond;
    if en - st >= 2 {
      var mid := st + (en - st) / 2;
      NotEmptyInside(src, t, mid);
      if ComparesBelow(src, t[mid], dst, scan) {
        NotMisled(t, src, dst, scan, mid, en);
      } else {
        NotMisled(t, src, dst, scan, st, mid);
      }
    }
  }

  lemma NotEmptyInside(src: seq<byte>, t: seq<int>, k: nat)
    requires IsSuffixArray(src, t) && 0 < k < |t|
    ensures t[k] < |src|
  {
    assert Less(src, t[0], src, t[k]);
  }

  // If no non-empty suffix of the old file is a proper prefix of the query,
  // the match is the longest common prefix with any suffix.
  lemma FindsLongest(src: seq<byte>, dst: seq<byte>, scan: nat)
    requires scan <= |dst|
    requires forall a :: 0 <= a < |src| ==> !EndsInside(src, a, dst, scan)
    ensures IsLongest(src, dst, scan, FindMatch(src, dst, scan).len)
  {
    hide Lcp, IsLcp, Less, Misled, Find, EndsInside;
    SuffixArrayIsOne(src);
    NotMisled(SuffixArray(src), src, dst, scan, 0, |src|);
    FindsLongestUnlessMisled(src, dst, scan);
  }

  lemma AbaSorted()
    ensures var src: seq<byte> := [97, 98, 97]; SuffixArray(src) == [3, 2, 0, 1]
  {
    var src: seq<byte> := [97, 98, 97];
    assert SortFrom(src, 3) == [3];
    assert SortFrom(src, 2) == [3, 2];
    assert SortFrom(src, 1) == [3, 2, 1];
  }

  lemma AbaAgrees()
    ensures var src: seq<byte>, dst: seq<byte> := [97, 98, 97], [97, 98, 120];
      && Lcp(src, 3, dst, 0) == Lcp(src, 1, dst, 0) == 0
      && Lcp(src, 2, dst, 0) == 1 && Lcp(src, 0, dst, 0) == 2
  {
    hide Lcp;
    var src: seq<byte>, dst: seq<byte> := [97, 98, 97], [97, 98, 120];
    LcpUnique(src, 3, dst, 0, 0);
    LcpUnique(src, 1, dst, 0, 0);
    LcpUnique(src, 2, dst, 0, 1);
    LcpUnique(src, 0, dst, 0, 2);
  }

  // A query for which the search is misled: "aba" against "abx".
  lemma SearchCanMissTheLongest()
    ensures var src: seq<byte>, dst: seq<byte> := [97, 98, 97], [97, 98, 120];
      FindMatch(src, dst, 0).len == 1 && Lcp(src, 0, dst, 0) == 2
  {
    hide SuffixArray, Lcp, IsLcp;
    AbaSorted();
    AbaAgrees();
  }

  // ----- When nothing is found -----

  // Some suffix between st and en starts with the first byte of the query.
  ghost predicate StartsBetween(t: seq<int>, src: seq<byte>, dst: seq<byte>, scan: nat, st: nat, en: nat)
    requires Indices(t, src) && scan <= |dst| && en < |t|
  {
    exists k :: st <= k <= en && Lcp(src, t[k], dst, scan) > 0
  }

  lemma {:induction false} FindNonZeroFrom(t: seq<int>, src: seq<byte>, dst: seq<byte>, scan: nat, st: nat, en: nat)
    requires IsSuffixArray(src, t) && Indices(t, src) && scan <= |dst| && st <= en < |t|
    requires StartsBetween(t, src, dst, scan, st, en)
    ensures Find(t, src, dst, scan, st, en).len > 0
    decreases en - st
  {
    hide Lcp, IsLcp, Less, ComparesBelow, EndsInside, IsSuffixArray;
    if en - st >= 2 {
      var mid := st + (en - st) / 2;
      var k :| st <= k <= en && Lcp(src, t[k], dst, scan) > 0;
      EmptyOnlyFirst(src, t, mid);
      ComparesBelowOrEnds(src, t[mid], dst, scan);
      NonEmptyEnds(src, t[mid], dst, scan);
      if mid < k {
        AgreementFallsOff(t, src, dst, scan, mid, k);
      } else if k < mid {
        AgreementFallsOff(t, src, dst, scan, k, mid);
      }
      if ComparesBelow(src, t[mid], dst, scan) {
        assert StartsBetween(t, src, dst, scan, mid, en);
        FindNonZeroFrom(t, src, dst, scan, mid, en);
      } else {
        assert StartsBetween(t, src, dst, scan, st, mid);
        FindNonZeroFrom(t, src, dst, scan, st, mid);
      }
    }
  }

  lemma EmptyOnlyFirst(src: seq<byte>, t: seq<int>, k: nat)
    requires IsSuffixArray(src, t)
    ensures 0 < k < |t| ==> t[k] < |src|
  {
    if 0 < k < |t| {
      NotEmptyInside(src, t, k);
    }
  }

  lemma NonEmptyEnds(src: seq<byte>, a: nat, dst: seq<byte>, scan: nat)
    requires a < |src| && scan <= |dst|
    ensures EndsInside(src, a, dst, scan) ==> Lcp(src, a, dst, scan) > 0
  {
    hide Lcp;
  }

  // The search returns 0 for a query exactly if the query's first byte does
  // not occur in the old file.
  lemma FindsNothing(src: seq<byte>, dst: seq<byte>, scan: nat)
    requires scan < |dst|
    ensures FindMatch(src, dst, scan).len == 0 <==> forall a :: 0 <= a < |src| ==> src[a] != dst[scan]
  {
    hide IsLcp, Less, Find;
    SuffixArrayIsOne(src);
    var t := SuffixArray(src);
    if a :| 0 <= a < |src| && src[a] == dst[scan] {
      var k := PositionOf(t, a);
      assert Lcp(src, t[k], dst, scan) > 0;
      FindNonZeroFrom(t, src, dst, scan, 0, |src|);
    } else {
      var pos := FindMatch(src, dst, scan).pos;
      assert Lcp(src, pos, dst, scan) == 0;
    }
  }
}
