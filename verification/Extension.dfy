// Extending a match forward and backward and resolving the overlap of the two
// extensions: the choices bsdiff_internal makes before it writes a record.
module Extension {
  import opened Bytes

  // The first position of a largest element.
  function FirstMax(f: seq<int>): (r: nat)
    requires |f| > 0
    ensures IsFirstMax(f, r)
  {
    if |f| == 1 then 0
    else
      var last := |f| - 1;
      var r := FirstMax(f[..last]);
      if f[last] > f[r] then last else r
  }

  predicate IsFirstMax(f: seq<int>, r: nat) {
    && r < |f|
    && (forall j :: 0 <= j < |f| ==> f[j] <= f[r])
    && (forall j :: 0 <= j < r ==> f[j] < f[r])
  }

  lemma FirstMaxUnique(f: seq<int>, r: nat)
    requires |f| > 0 && IsFirstMax(f, r)
    ensures r == FirstMax(f)
  {
  }

  // One more element, kept only if it is strictly larger.
  lemma FirstMaxNext(f: seq<int>, i: nat, r: nat)
    requires i < |f| && IsFirstMax(f[..i], r)
    ensures IsFirstMax(f[..i + 1], if f[i] > f[r] then i else r)
  {
    var g := f[..i + 1];
    assert forall j :: 0 <= j < i ==> f[..i][j] == g[j];
  }

  // ----- Forward -----

  // How many bytes can be taken forward from (lastpos, lastscan) up to scan.
  function ForwardBound(src: seq<byte>, lastscan: nat, lastpos: nat, scan: nat): (n: nat)
    requires lastscan <= scan && lastpos <= |src|
  {
    Min(scan - lastscan, |src| - lastpos)
  }

  // Twice the matching bytes less the length, for every length i.
  function ForwardScores(src: seq<byte>, dst: seq<byte>, lastscan: nat, lastpos: nat, scan: nat): (f: seq<int>)
    requires lastscan <= scan <= |dst| && lastpos <= |src|
    ensures |f| == ForwardBound(src, lastscan, lastpos, scan) + 1
    ensures forall i :: 0 <= i < |f| ==> f[i] == 2 * Matches(src, lastpos, dst, lastscan, i) - i
  {
    seq(ForwardBound(src, lastscan, lastpos, scan) + 1,
        i requires 0 <= i <= ForwardBound(src, lastscan, lastpos, scan) =>
          2 * Matches(src, lastpos, dst, lastscan, i) - i)
  }

  function ForwardLen(src: seq<byte>, dst: seq<byte>, lastscan: nat, lastpos: nat, scan: nat): (lenf: nat)
    requires lastscan <= scan <= |dst| && lastpos <= |src|
    ensures lastscan + lenf <= scan && lastpos + lenf <= |src|
  {
    FirstMax(ForwardScores(src, dst, lastscan, lastpos, scan))
  }

  // The forward extension is the shortest that maximises twice the matching
  // bytes less the length.
  lemma ForwardIsBest(src: seq<byte>, dst: seq<byte>, lastscan: nat, lastpos: nat, scan: nat, i: nat)
    requires lastscan + i <= scan <= |dst| && lastpos + i <= |src|
    ensures var lenf := ForwardLen(src, dst, lastscan, lastpos, scan);
      var gain, best := 2 * Matches(src, lastpos, dst, lastscan, i) - i,
                        2 * Matches(src, lastpos, dst, lastscan, lenf) - lenf;
      gain <= best && (i < lenf ==> gain < best)
  {
    hide FirstMax, ForwardScores;
    var f := ForwardScores(src, dst, lastscan, lastpos, scan);
    assert f[i] <= f[FirstMax(f)];
  }

  method ExtendForward(src: seq<byte>, dst: seq<byte>, lastscan: nat, lastpos: nat, scan: nat) returns (lenf: nat)
    requires lastscan <= scan <= |dst| && lastpos <= |src|
    ensures lenf == ForwardLen(src, dst, lastscan, lastpos, scan)
  {
    hide FirstMax, IsFirstMax, ForwardScores;
    ghost var f := ForwardScores(src, dst, lastscan, lastpos, scan);
    var s, best, i := 0, 0, 0;
    lenf := 0;
    FirstMaxStart(f);
    while lastscan + i < scan && lastpos + i < |src|
      invariant lenf <= i < |f|
      invariant s == Matches(src, lastpos, dst, lastscan, i) && best == Matches(src, lastpos, dst, lastscan, lenf)
      invariant IsFirstMax(f[..i + 1], lenf)
    {
      if src[lastpos + i] == dst[lastscan + i] {
        s := s + 1;
      }
      i := i + 1;
      FirstMaxNext(f, i, lenf);
      if s * 2 - i > best * 2 - lenf {
        best := s;
        lenf := i;
      }
    }
    assert f[..i + 1] == f;
    FirstMaxUnique(f, lenf);
  }

  lemma FirstMaxStart(f: seq<int>)
    requires |f| > 0
    ensures IsFirstMax(f[..1], 0)
  {
  }

  // ----- Backward -----

  function BackwardBound(lastscan: nat, pos: nat, scan: nat): (n: nat)
    requires lastscan <= scan
  {
    Min(scan - lastscan, pos)
  }

  function BackwardScores(src: seq<byte>, dst: seq<byte>, lastscan: nat, pos: nat, scan: nat): (f: seq<int>)
    requires lastscan <= scan <= |dst| && pos <= |src|
    ensures |f| == BackwardBound(lastscan, pos, scan) + 1
    ensures forall i :: 0 <= i < |f| ==> f[i] == 2 * Matches(src, pos - i, dst, scan - i, i) - i
  {
    seq(BackwardBound(lastscan, pos, scan) + 1,
        i requires 0 <= i <= BackwardBound(lastscan, pos, scan) =>
          2 * Matches(src, pos - i, dst, scan - i, i) - i)
  }

  function BackwardLen(src: seq<byte>, dst: seq<byte>, lastscan: nat, pos: nat, scan: nat): (lenb: nat)
    requires lastscan <= scan <= |dst| && pos <= |src|
    ensures lastscan + lenb <= scan && lenb <= pos
  {
    FirstMax(BackwardScores(src, dst, lastscan, pos, scan))
  }

  lemma BackwardIsBest(src: seq<byte>, dst: seq<byte>, lastscan: nat, pos: nat, scan: nat, i: nat)
    requires lastscan + i <= scan <= |dst| && i <= pos <= |src|
    ensures var lenb := BackwardLen(src, dst, lastscan, pos, scan);
      var gain, best := 2 * Matches(src, pos - i, dst, scan - i, i) - i,
                        2 * Matches(src, pos - lenb, dst, scan - lenb, lenb) - lenb;
      gain <= best && (i < lenb ==> gain < best)
  {
    hide FirstMax, BackwardScores;
    var f := BackwardScores(src, dst, lastscan, pos, scan);
    assert f[i] <= f[FirstMax(f)];
  }

  // One byte more at the front.
  lemma MatchesBack(src: seq<byte>, dst: seq<byte>, pos: nat, scan: nat, i: nat)
    requires 0 < i <= pos <= |src| && i <= scan <= |dst|
    ensures Matches(src, pos - i, dst, scan - i, i)
         == Matches(src, pos - (i - 1), dst, scan - (i - 1), i - 1) + (if src[pos - i] == dst[scan - i] then 1 else 0)
  {
    MatchesSplit(src, pos - i, dst, scan - i, 1, i);
  }

  method ExtendBackward(src: seq<byte>, dst: seq<byte>, lastscan: nat, pos: nat, scan: nat) returns (lenb: nat)
    requires lastscan <= scan <= |dst| && pos <= |src|
    ensures lenb == BackwardLen(src, dst, lastscan, pos, scan)
  {
    hide FirstMax, IsFirstMax, BackwardScores, Matches;
    ghost var f := BackwardScores(src, dst, lastscan, pos, scan);
    var s, best, i := 0, 0, 1;
    lenb := 0;
    FirstMaxStart(f);
    while scan >= lastscan + i && pos >= i
      invariant lenb < i <= |f|
      invariant s == Matches(src, pos - (i - 1), dst, scan - (i - 1), i - 1)
      invariant best == Matches(src, pos - lenb, dst, scan - lenb, lenb)
      invariant IsFirstMax(f[..i], lenb)
    {
      MatchesBack(src, dst, pos, scan, i);
      if src[pos - i] == dst[scan - i] {
        s := s + 1;
      }
      FirstMaxNext(f, i, lenb);
      if s * 2 - i > best * 2 - lenb {
        best := s;
        lenb := i;
      }
      i := i + 1;
    }
    assert f[..i] == f;
    FirstMaxUnique(f, lenb);
  }

  // ----- Overlap -----

  // Splitting the overlap after i bytes: the matches of the forward extension
  // before the split and of the backward extension after it.
  function SplitMatches(src: seq<byte>, dst: seq<byte>, at: nat, front: nat, back: nat, overlap: nat): (f: seq<int>)
    requires at + overlap <= |dst| && front + overlap <= |src| && back + overlap <= |src|
    ensures |f| == overlap + 1
    ensures forall i :: 0 <= i <= overlap ==>
      f[i] == Matches(src, front, dst, at, i) + Matches(src, back + i, dst, at + i, overlap - i)
  {
    seq(overlap + 1, i requires 0 <= i <= overlap =>
      Matches(src, front, dst, at, i) + Matches(src, back + i, dst, at + i, overlap - i))
  }

  // Moving the split on by one byte changes the number of matching bytes by
  // the two comparisons the loop makes.
  lemma SplitMatchesStep(src: seq<byte>, dst: seq<byte>, at: nat, front: nat, back: nat, overlap: nat, i: nat)
    requires at + overlap <= |dst| && front + overlap <= |src| && back + overlap <= |src| && i < overlap
    ensures var f := SplitMatches(src, dst, at, front, back, overlap);
      f[i + 1] == f[i] + (if dst[at + i] == src[front + i] then 1 else 0)
                       - (if dst[at + i] == src[back + i] then 1 else 0)
  {
    hide SplitMatches;
    MatchesSplit(src, back + i, dst, at + i, 1, overlap - i);
  }

  method SplitOverlap(src: seq<byte>, dst: seq<byte>, at: nat, front: nat, back: nat, overlap: nat) returns (lens: nat)
    requires at + overlap <= |dst| && front + overlap <= |src| && back + overlap <= |src|
    ensures lens == FirstMax(SplitMatches(src, dst, at, front, back, overlap))
  {
    hide FirstMax, IsFirstMax, SplitMatches, Matches;
    ghost var f := SplitMatches(src, dst, at, front, back, overlap);
    var s, best := 0, 0;
    lens := 0;
    FirstMaxStart(f);
    for i := 0 to overlap
      invariant lens <= i
      invariant s == f[i] - f[0] && best == f[lens] - f[0]
      invariant IsFirstMax(f[..i + 1], lens)
    {
      SplitMatchesStep(src, dst, at, front, back, overlap, i);
      if dst[at + i] == src[front + i] {
        s := s + 1;
      }
      if dst[at + i] == src[back + i] {
        s := s - 1;
      }
      FirstMaxNext(f, i + 1, lens);
      if s > best {
        best := s;
        lens := i + 1;
      }
    }
    assert f[..overlap + 1] == f;
    FirstMaxUnique(f, lens);
  }
}
