// The scan for the next worthwhile match: the inner loop of bsdiff_internal.
module Scan {
  import opened Bytes
  import opened SuffixOrder
  import opened SuffixArrays
  import opened Search

  // The old file shifted by off agrees with the new one at position m.
  predicate Hits(src: seq<byte>, dst: seq<byte>, off: int, m: nat)
    requires m < |dst|
  {
    0 <= m + off < |src| && src[m + off] == dst[m]
  }

  // How often it does so from position lo up to hi.
  ghost function Score(src: seq<byte>, dst: seq<byte>, off: int, lo: nat, hi: nat): (n: nat)
    requires hi <= |dst|
    ensures lo <= hi ==> n <= hi - lo
    decreases hi
  {
    if hi <= lo then 0 else Score(src, dst, off, lo, hi - 1) + (if Hits(src, dst, off, hi - 1) then 1 else 0)
  }

  lemma {:induction false} ScoreFromFront(src: seq<byte>, dst: seq<byte>, off: int, lo: nat, hi: nat)
    requires lo < hi <= |dst|
    ensures Score(src, dst, off, lo, hi)
         == Score(src, dst, off, lo + 1, hi) + (if Hits(src, dst, off, lo) then 1 else 0)
    decreases hi
  {
    if lo + 1 < hi {
      ScoreFromFront(src, dst, off, lo, hi - 1);
    }
  }

  // The positions from lo up to hi at which the shifted old file agrees.
  ghost function HitSet(src: seq<byte>, dst: seq<byte>, off: int, lo: nat, hi: nat): (hits: set<int>)
    requires hi <= |dst|
    ensures forall m :: m in hits <==> lo <= m < hi && 0 <= m + off < |src| && src[m + off] == dst[m]
  {
    set m | lo <= m < hi && Hits(src, dst, off, m)
  }

  // The score is the number of agreeing positions.
  lemma {:induction false} ScoreIsCardinality(src: seq<byte>, dst: seq<byte>, off: int, lo: nat, hi: nat)
    requires hi <= |dst|
    ensures Score(src, dst, off, lo, hi) == |HitSet(src, dst, off, lo, hi)|
    decreases hi
  {
    if lo < hi {
      ScoreIsCardinality(src, dst, off, lo, hi - 1);
      var before, last := HitSet(src, dst, off, lo, hi - 1), {hi - 1};
      if Hits(src, dst, off, hi - 1) {
        assert HitSet(src, dst, off, lo, hi) == before + last;
      } else {
        assert HitSet(src, dst, off, lo, hi) == before;
      }
    } else {
      assert HitSet(src, dst, off, lo, hi) == {};
    }
  }

  // The farthest end of the matches found from start up to p.
  ghost function Reach(src: seq<byte>, dst: seq<byte>, start: nat, p: nat): (r: nat)
    requires start <= p < |dst|
    ensures p <= r <= |dst| && p + FindMatch(src, dst, p).len <= r
    decreases p
  {
    var end := p + FindMatch(src, dst, p).len;
    if p == start then end
    else var before := Reach(src, dst, start, p - 1); if before < end then end else before
  }

  lemma ReachNext(src: seq<byte>, dst: seq<byte>, start: nat, p: nat)
    requires start <= p < |dst|
    ensures Reach(src, dst, start, p) ==
      var end := p + FindMatch(src, dst, p).len;
      if p > start && Reach(src, dst, start, p - 1) >= end then Reach(src, dst, start, p - 1) else end
  {
    hide FindMatch, Lcp, IsLcp;
  }

  // No match found from start up to p ends beyond end, and one of them ends
  // there.
  ghost predicate IsFarthestEnd(src: seq<byte>, dst: seq<byte>, start: nat, p: nat, end: nat)
    requires start <= p < |dst|
  {
    && (forall q :: start <= q <= p ==> q + FindMatch(src, dst, q).len <= end)
    && (exists q :: start <= q <= p && q + FindMatch(src, dst, q).len == end)
  }

  lemma {:induction false} ReachIsFarthest(src: seq<byte>, dst: seq<byte>, start: nat, p: nat)
    requires start <= p < |dst|
    ensures IsFarthestEnd(src, dst, start, p, Reach(src, dst, start, p))
    decreases p
  {
    hide FindMatch, Reach, Lcp, IsLcp;
    ReachNext(src, dst, start, p);
    if p > start {
      ReachIsFarthest(src, dst, start, p - 1);
    }
  }

  // What extending the previous offset would have matched there.
  ghost function OldScore(src: seq<byte>, dst: seq<byte>, off: int, start: nat, p: nat): nat
    requires start <= p < |dst|
  {
    Score(src, dst, off, p, Reach(src, dst, start, p))
  }

  // The scan stops where the match is as good as the previous offset, or much
  // better.
  ghost predicate Stops(src: seq<byte>, dst: seq<byte>, off: int, start: nat, p: nat)
    requires start <= p < |dst|
  {
    var len, score := FindMatch(src, dst, p).len, OldScore(src, dst, off, start, p);
    (len == score && len != 0) || len > score + 8
  }

  // The break condition in terms of the files: end is the farthest end of the
  // matches found so far, score the number of positions up to there at which the
  // old file, shifted by off, agrees.
  lemma StopsExactly(src: seq<byte>, dst: seq<byte>, off: int, start: nat, p: nat, end: nat)
    requires start <= p < |dst| && IsFarthestEnd(src, dst, start, p, end)
    ensures var len, score := FindMatch(src, dst, p).len,
                              |set m | p <= m < end && 0 <= m + off < |src| && src[m + off] == dst[m]|;
      && OldScore(src, dst, off, start, p) == score
      && (Stops(src, dst, off, start, p) <==> (len == score && len > 0) || len > score + 8)
  {
    hide FindMatch, Reach, Score, Lcp, IsLcp;
    ReachIsFarthest(src, dst, start, p);
    ScoreIsCardinality(src, dst, off, p, end);
    assert HitSet(src, dst, off, p, end)
        == set m | p <= m < end && 0 <= m + off < |src| && src[m + off] == dst[m];
  }

  // The first position from p on at which a scan that began at start stops.
  ghost function StopFrom(src: seq<byte>, dst: seq<byte>, off: int, start: nat, p: nat): (q: nat)
    requires start <= p <= |dst|
    ensures p <= q <= |dst|
    ensures q < |dst| ==> Stops(src, dst, off, start, q)
    ensures forall k :: p <= k < q ==> !Stops(src, dst, off, start, k)
    decreases |dst| - p
  {
    if p == |dst| || Stops(src, dst, off, start, p) then p else StopFrom(src, dst, off, start, p + 1)
  }

  // The state of the counters before the search at scan: everything up to scsc
  // has been counted, and what lies before scan has been taken off again.
  ghost predicate Counted(src: seq<byte>, dst: seq<byte>, off: int, start: nat, scan: nat, scsc: nat, oldscore: int) {
    && start <= scan <= |dst| && scsc <= |dst|
    && (scan == start ==> scsc == start)
    && (scan > start ==> scsc == Reach(src, dst, start, scan - 1))
    && (scsc < scan ==> scan == scsc + 1 && !Hits(src, dst, off, scsc))
    && oldscore == Score(src, dst, off, scan, scsc)
  }

  // Counting up to the end of the match at scan takes scsc to the farthest end
  // of the matches found so far.
  lemma CountingDone(src: seq<byte>, dst: seq<byte>, off: int, start: nat, scan: nat, scsc: nat, oldscore: int)
    requires scan < |dst| && Counted(src, dst, off, start, scan, scsc, oldscore)
    ensures var end := scan + FindMatch(src, dst, scan).len;
      var counted := if scsc < end then end else scsc;
      counted == Reach(src, dst, start, scan) && IsFarthestEnd(src, dst, start, scan, counted)
  {
    hide FindMatch, Lcp, IsLcp, IsFarthestEnd;
    ReachIsFarthest(src, dst, start, scan);
  }

  // Taking position scan off the count.
  lemma CountedNext(src: seq<byte>, dst: seq<byte>, off: int, start: nat, scan: nat)
    requires start <= scan < |dst|
    ensures var scsc := Reach(src, dst, start, scan); var score := OldScore(src, dst, off, start, scan);
      && (Hits(src, dst, off, scan) ==> score > 0)
      && Counted(src, dst, off, start, scan + 1, scsc, if Hits(src, dst, off, scan) then score - 1 else score)
  {
    hide Reach, FindMatch;
    FindsNothing(src, dst, scan);
    var scsc := Reach(src, dst, start, scan);
    if scan < scsc {
      ScoreFromFront(src, dst, off, scan, scsc);
    }
  }

  // The inner scan loop from start on.  It returns where it stopped, the match
  // there and the old score; if it ran off the end, the last match searched.
  method ScanAhead(I: array<int>, src: seq<byte>, dst: seq<byte>, lastoffset: int, start: nat, len0: nat, pos0: nat)
    returns (scan: nat, len: nat, pos: nat, oldscore: int)
    requires I[..] == SuffixArray(src) && start <= |dst| && 0 <= start + lastoffset
    ensures scan == StopFrom(src, dst, lastoffset, start, start)
    ensures scan < |dst| ==>
      && Match(len, pos) == FindMatch(src, dst, scan)
      && oldscore == OldScore(src, dst, lastoffset, start, scan)
    ensures scan == |dst| ==>
      Match(len, pos) == if start < |dst| then FindMatch(src, dst, |dst| - 1) else Match(len0, pos0)
  {
    hide FindMatch, Reach, Score, Stops, IsFarthestEnd, Lcp, IsLcp;
    scan, len, pos, oldscore := start, len0, pos0, 0;
    var scsc := start;
    NothingCounted(src, dst, lastoffset, start);
    while scan < |dst|
      invariant Counted(src, dst, lastoffset, start, scan, scsc, oldscore)
      invariant StopFrom(src, dst, lastoffset, start, start) == StopFrom(src, dst, lastoffset, start, scan)
      invariant Match(len, pos) == if start < scan then FindMatch(src, dst, scan - 1) else Match(len0, pos0)
    {
      len, pos := SearchAt(I, src, dst, scan);
      CountingDone(src, dst, lastoffset, start, scan, scsc, oldscore);
      scsc, oldscore := CountHits(src, dst, lastoffset, scan, scsc, scan + len, oldscore);
      assert oldscore == OldScore(src, dst, lastoffset, start, scan);
      StopsMeans(src, dst, lastoffset, start, scan);
      if (len == oldscore && len != 0) || len > oldscore + 8 {
        break;
      }
      CountedNext(src, dst, lastoffset, start, scan);
      if scan + lastoffset < |src| && src[scan + lastoffset] == dst[scan] {
        oldscore := oldscore - 1;
      }
      scan := scan + 1;
    }
  }

  lemma NothingCounted(src: seq<byte>, dst: seq<byte>, off: int, start: nat)
    requires start <= |dst|
    ensures Counted(src, dst, off, start, start, start, 0)
  {
  }

  lemma StopsMeans(src: seq<byte>, dst: seq<byte>, off: int, start: nat, p: nat)
    requires start <= p < |dst|
    ensures Stops(src, dst, off, start, p) <==>
      var len, score := FindMatch(src, dst, p).len, OldScore(src, dst, off, start, p);
      (len == score && len != 0) || len > score + 8
  {
    hide FindMatch, OldScore;
  }

  method SearchAt(I: array<int>, src: seq<byte>, dst: seq<byte>, scan: nat) returns (len: nat, pos: nat)
    requires I[..] == SuffixArray(src) && scan <= |dst|
    ensures Match(len, pos) == FindMatch(src, dst, scan) && scan + len <= |dst|
  {
    hide Find, Lcp, IsLcp, SuffixArray;
    ghost var probes;
    len, pos, probes := BinarySearch(I, src, dst, scan, 0, |src|);
  }

  // Count the agreements at the shifted offset up to end.
  method CountHits(src: seq<byte>, dst: seq<byte>, off: int, ghost scan: nat, scsc0: nat, end: nat, oldscore0: int)
    returns (scsc: nat, oldscore: int)
    requires end <= |dst| && scsc0 <= |dst| && 0 <= scsc0 + off
    requires scsc0 < scan ==> scsc0 < |dst| && scan == scsc0 + 1 && !Hits(src, dst, off, scsc0)
    requires oldscore0 == Score(src, dst, off, scan, scsc0)
    ensures scsc == if scsc0 < end then end else scsc0
    ensures oldscore == Score(src, dst, off, scan, scsc)
  {
    scsc, oldscore := scsc0, oldscore0;
    while scsc < end
      invariant scsc0 <= scsc && (scsc <= end || scsc == scsc0)
      invariant oldscore == Score(src, dst, off, scan, scsc)
    {
      if scsc + off < |src| && src[scsc + off] == dst[scsc] {
        oldscore := oldscore + 1;
      }
      scsc := scsc + 1;
    }
  }
}
