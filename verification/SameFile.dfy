// A file compared with itself: one record of zero differences, whatever the
// file and however its search goes.
module SameFile {
  import opened Bytes
  import opened SuffixOrder
  import opened Search
  import opened Scan
  import opened Extension
  import opened Records

  function Zeros(n: nat): (z: seq<byte>)
    ensures |z| == n
  {
    seq<byte>(n, i => 0)
  }

  lemma {:induction false} SelfScore(s: seq<byte>, lo: nat, hi: nat)
    requires lo <= hi <= |s|
    ensures Score(s, s, 0, lo, hi) == hi - lo
    decreases hi
  {
    if lo < hi {
      SelfScore(s, lo, hi - 1);
    }
  }

  lemma {:induction false} SelfMatches(s: seq<byte>, len: nat)
    requires len <= |s|
    ensures Matches(s, 0, s, 0, len) == len
  {
    if len > 0 {
      SelfMatches(s, len - 1);
    }
  }

  // Every search finds something, and offset 0 agrees just as far.
  lemma StopsAtOnce(s: seq<byte>, p: nat)
    requires p < |s|
    ensures Stops(s, s, 0, p, p) && FindMatch(s, s, p).len == OldScore(s, s, 0, p, p)
  {
    hide FindMatch, Score, Lcp, IsLcp;
    var b := s[p];
    FindsNothing(s, s, p);
    assert s[p] == b;
    SelfScore(s, p, p + FindMatch(s, s, p).len);
  }

  // The whole file is taken forward.
  lemma TakesAll(s: seq<byte>)
    ensures ForwardLen(s, s, 0, 0, |s|) == |s|
  {
    hide ForwardLen, Matches;
    ForwardIsBest(s, s, 0, 0, |s|, |s|);
    SelfMatches(s, |s|);
    SelfMatches(s, ForwardLen(s, s, 0, 0, |s|));
  }

  lemma NoDifference(s: seq<byte>)
    ensures Difference(s, s, 0, 0, |s|) == Zeros(|s|)
  {
    hide Subtract;
    var d := Difference(s, s, 0, 0, |s|);
    DifferenceRoundTrip(s, s, 0, 0, |s|);
    forall i | 0 <= i < |s|
      ensures d[i] == 0
    {
      SubtractBorrows(s[i], s[i]);
    }
  }

  // Nothing has been written yet, so the offset is still 0.
  ghost predicate AtFront(s: seq<byte>, c: Cursor) {
    Valid(s, s, c) && c.scan < |s| && c.lastscan == c.lastpos == c.lastoffset == 0
  }

  // Until the end the scan stops where it starts and no record is due.
  lemma StaysAtFront(s: seq<byte>, c: Cursor)
    requires AtFront(s, c) && c.scan + c.len < |s|
    ensures Emitted(s, s, c) == [] && AtFront(s, Next(s, s, c))
  {
    hide Stops, FindMatch, OldScore, ExtentsAt, RecordAt, Lcp;
    StopsAtOnce(s, c.scan + c.len);
  }

  // There the one record is written.
  lemma EndsWithAll(s: seq<byte>, c: Cursor)
    requires AtFront(s, c) && c.scan + c.len == |s|
    ensures var recs := Emitted(s, s, c);
      |recs| == 1 && recs[0].diff == Zeros(|s|) && recs[0].extra == [] && Next(s, s, c).scan == |s|
  {
    hide Stops, FindMatch, OldScore, ForwardLen, Difference, Zeros, Lcp;
    TakesAll(s);
    NoDifference(s);
  }

  lemma {:induction false} OneRecordFrom(s: seq<byte>, c: Cursor)
    requires AtFront(s, c)
    ensures var recs := RecordsFrom(s, s, c);
      |recs| == 1 && recs[0].diff == Zeros(|s|) && recs[0].extra == []
    decreases Remaining(s, c)
  {
    hide Next, Emitted, Zeros;
    if c.scan + c.len < |s| {
      StaysAtFront(s, c);
      OneRecordFrom(s, Next(s, s, c));
    } else {
      EndsWithAll(s, c);
    }
  }

  lemma OneRecordOfZeros(s: seq<byte>)
    requires s != []
    ensures var recs := AllRecords(s, s);
      |recs| == 1 && recs[0].diff == Zeros(|s|) && recs[0].extra == []
  {
    OneRecordFrom(s, START);
  }
}
