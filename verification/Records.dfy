// The control records of a patch: which ones the diff scan produces, and why
// applying them to the old file gives the new one.
module Records {
  import opened Bytes
  import opened SuffixOrder
  import opened Search
  import opened Scan
  import opened Extension

  // One record: bytes to add to the old file at the cursor, bytes to copy
  // literally, and how far to move the cursor afterwards.
  datatype Record = Record(diff: seq<byte>, extra: seq<byte>, jump: int)

  datatype Extents = Extents(lenf: nat, lenb: nat)

  function Subtract(a: int, b: int): byte { (a - b) % 256 }

  function Add(a: int, b: int): byte { (a + b) % 256 }

  // ----- One record -----

  // The two extensions at a stop, with their overlap resolved.
  function ExtentsAt(src: seq<byte>, dst: seq<byte>, lastscan: nat, lastpos: nat, scan: nat, pos: nat): (x: Extents)
    requires lastscan <= scan <= |dst| && lastpos <= |src| && pos <= |src|
    ensures lastscan + x.lenf + x.lenb <= scan
    ensures lastpos + x.lenf <= |src| && x.lenb <= pos
    ensures scan == |dst| ==> x.lenb == 0
  {
    var lenf := ForwardLen(src, dst, lastscan, lastpos, scan);
    var lenb := if scan < |dst| then BackwardLen(src, dst, lastscan, pos, scan) else 0;
    var overlap := (lastscan + lenf) - (scan - lenb);
    if overlap > 0 then
      var f := SplitMatches(src, dst, scan - lenb, lastpos + lenf - overlap, pos - lenb, overlap);
      var lens := FirstMax(f);
      Extents(lenf + lens - overlap, lenb - lens)
    else Extents(lenf, lenb)
  }

  // At the end of the new file there is no match to extend backward.
  // Extensions that do not overlap are kept.  Where they overlap they end up
  // abutting: nothing is left for the extra bytes, and the split point is the
  // leftmost with most matches.
  lemma OverlapAbuts(src: seq<byte>, dst: seq<byte>, lastscan: nat, lastpos: nat, scan: nat, pos: nat)
    requires lastscan <= scan <= |dst| && lastpos <= |src| && pos <= |src|
    ensures var lenf := ForwardLen(src, dst, lastscan, lastpos, scan);
      var lenb := if scan == |dst| then 0 else BackwardLen(src, dst, lastscan, pos, scan);
      var overlap := (lastscan + lenf) - (scan - lenb);
      var x := ExtentsAt(src, dst, lastscan, lastpos, scan, pos);
      if overlap <= 0 then x == Extents(lenf, lenb)
      else
        && lastscan + x.lenf == scan - x.lenb
        && lenf - overlap <= x.lenf <= lenf
        && lenb - overlap <= x.lenb <= lenb
        && IsFirstMax(SplitMatches(src, dst, scan - lenb, lastpos + lenf - overlap, pos - lenb, overlap),
                      x.lenf - (lenf - overlap))
  {
    hide ForwardLen, BackwardLen, SplitMatches, FirstMax;
  }

  // The last record is extended forward as any other: as far as is best, over
  // all lengths that fit both files.
  lemma LastExtentIsBest(src: seq<byte>, dst: seq<byte>, lastscan: nat, lastpos: nat, pos: nat, i: nat)
    requires lastscan + i <= |dst| && lastpos + i <= |src| && pos <= |src|
    ensures var x := ExtentsAt(src, dst, lastscan, lastpos, |dst|, pos);
      var gain, best := 2 * Matches(src, lastpos, dst, lastscan, i) - i,
                        2 * Matches(src, lastpos, dst, lastscan, x.lenf) - x.lenf;
      x.lenb == 0 && gain <= best && (i < x.lenf ==> gain < best)
  {
    hide ForwardLen, BackwardLen, SplitMatches, FirstMax, Matches;
    OverlapAbuts(src, dst, lastscan, lastpos, |dst|, pos);
    ForwardIsBest(src, dst, lastscan, lastpos, |dst|, i);
  }

  method ChooseExtents(src: seq<byte>, dst: seq<byte>, lastscan: nat, lastpos: nat, scan: nat, pos: nat)
    returns (lenf: nat, lenb: nat)
    requires lastscan <= scan <= |dst| && lastpos <= |src| && pos <= |src|
    ensures Extents(lenf, lenb) == ExtentsAt(src, dst, lastscan, lastpos, scan, pos)
  {
    hide ForwardLen, BackwardLen, SplitMatches, FirstMax;
    lenf := ExtendForward(src, dst, lastscan, lastpos, scan);
    lenb := 0;
    if scan < |dst| {
      lenb := ExtendBackward(src, dst, lastscan, pos, scan);
    }
    if lastscan + lenf > scan - lenb {
      var overlap := (lastscan + lenf) - (scan - lenb);
      var lens := SplitOverlap(src, dst, scan - lenb, lastpos + lenf - overlap, pos - lenb, overlap);
      lenf := lenf + lens - overlap;
      lenb := lenb - lens;
    }
  }

  function Difference(src: seq<byte>, dst: seq<byte>, lastscan: nat, lastpos: nat, len: nat): (d: seq<byte>)
    requires lastscan + len <= |dst| && lastpos + len <= |src|
    ensures |d| == len
  {
    seq<byte>(len, i requires 0 <= i < len => Subtract(dst[lastscan + i], src[lastpos + i]))
  }

  function RecordAt(src: seq<byte>, dst: seq<byte>, lastscan: nat, lastpos: nat, scan: nat, pos: nat): (r: Record)
    requires lastscan <= scan <= |dst| && lastpos <= |src| && pos <= |src|
  {
    var x := ExtentsAt(src, dst, lastscan, lastpos, scan, pos);
    Record(Difference(src, dst, lastscan, lastpos, x.lenf),
           dst[lastscan + x.lenf..scan - x.lenb],
           (pos - x.lenb) - (lastpos + x.lenf))
  }

  // ----- The run of the outer loop -----

  // The variables that live across iterations of the outer loop.
  datatype Cursor = Cursor(scan: nat, len: nat, pos: nat, lastscan: nat, lastpos: nat, lastoffset: int)

  const START := Cursor(0, 0, 0, 0, 0, 0)

  ghost predicate Valid(src: seq<byte>, dst: seq<byte>, c: Cursor) {
    && c.lastscan <= c.scan <= |dst| && c.pos <= |src| && c.lastpos <= |src|
    && c.lastoffset == c.lastpos - c.lastscan
    && (c.scan < |dst| ==> c.scan + c.len <= |dst|)
    && (c.scan == |dst| ==> c.lastscan == |dst|)
  }

  // Where the next inner scan ends, with the match the code then holds.
  ghost function Scanned(src: seq<byte>, dst: seq<byte>, c: Cursor): (d: Cursor)
    requires Valid(src, dst, c) && c.scan < |dst|
    ensures c.scan + c.len <= d.scan <= |dst| && d.pos <= |src|
    ensures d.scan < |dst| ==> d.len > 0 && d.scan + d.len <= |dst|
    ensures d.lastscan == c.lastscan && d.lastpos == c.lastpos && d.lastoffset == c.lastoffset
  {
    var start := c.scan + c.len;
    var stop := StopFrom(src, dst, c.lastoffset, start, start);
    var m := if stop < |dst| then FindMatch(src, dst, stop)
             else if start < |dst| then FindMatch(src, dst, |dst| - 1) else Match(c.len, c.pos);
    c.(scan := stop, len := m.len, pos := m.pos)
  }

  // A record is due unless the old offset matches just as well.
  ghost predicate Due(src: seq<byte>, dst: seq<byte>, c: Cursor)
    requires Valid(src, dst, c) && c.scan < |dst|
  {
    var d := Scanned(src, dst, c);
    d.scan == |dst| || d.len != OldScore(src, dst, c.lastoffset, c.scan + c.len, d.scan)
  }

  // The state after one iteration of the outer loop.
  ghost function Next(src: seq<byte>, dst: seq<byte>, c: Cursor): (d: Cursor)
    requires Valid(src, dst, c) && c.scan < |dst|
    ensures Valid(src, dst, d) && Remaining(dst, d) < Remaining(dst, c)
  {
    var d := Scanned(src, dst, c);
    if Due(src, dst, c) then
      var x := ExtentsAt(src, dst, c.lastscan, c.lastpos, d.scan, d.pos);
      d.(lastscan := d.scan - x.lenb, lastpos := d.pos - x.lenb, lastoffset := d.pos - d.scan)
    else d
  }

  // The search is not repeated: position and match stay those of the scan.
  // After a record the offset is that of the match held, at which a match found
  // lies; with no record due the old offset agrees at as many positions.
  lemma OffsetMatches(src: seq<byte>, dst: seq<byte>, c: Cursor)
    requires Valid(src, dst, c) && c.scan < |dst|
    ensures var d, e := Scanned(src, dst, c), Next(src, dst, c);
      && e.scan == d.scan && e.len == d.len && e.pos == d.pos
      && if Due(src, dst, c) then
        && e.lastoffset == d.pos - d.scan
        && (d.scan < |dst| ==>
              && 0 <= d.scan + e.lastoffset && d.scan + e.lastoffset + d.len <= |src|
              && src[d.scan + e.lastoffset..d.scan + e.lastoffset + d.len] == dst[d.scan..d.scan + d.len])
      else
        && e.lastoffset == c.lastoffset
        && d.len == OldScore(src, dst, c.lastoffset, c.scan + c.len, d.scan)
  {
    hide Find, StopFrom, OldScore, ExtentsAt, Lcp;
  }

  // The scan goes on behind the match found last and ends at the first position
  // that meets the break condition, or at the end of the new file.
  lemma ScanResumes(src: seq<byte>, dst: seq<byte>, c: Cursor, p: nat)
    requires Valid(src, dst, c) && c.scan < |dst|
    ensures var d, start := Scanned(src, dst, c), c.scan + c.len;
      && start <= d.scan
      && (start <= p < d.scan ==> !Stops(src, dst, c.lastoffset, start, p))
      && (d.scan < |dst| ==> Stops(src, dst, c.lastoffset, start, d.scan))
  {
    hide Stops, FindMatch;
  }

  // The match held when the scan ends is that of the last position searched,
  // which is where the scan stopped, or the last position of the new file, or,
  // if nothing was left to scan, the one held before.
  lemma LastMatchHeld(src: seq<byte>, dst: seq<byte>, c: Cursor)
    requires Valid(src, dst, c) && c.scan < |dst|
    ensures var d := Scanned(src, dst, c);
      && (d.scan < |dst| ==> Match(d.len, d.pos) == FindMatch(src, dst, d.scan))
      && (c.scan + c.len < d.scan == |dst| ==> Match(d.len, d.pos) == FindMatch(src, dst, |dst| - 1))
      && (c.scan + c.len == |dst| ==> d.scan == |dst| && d.len == c.len && d.pos == c.pos)
  {
    hide Stops, FindMatch;
  }

  // No record is written exactly if the scan stopped short of the end and the
  // old file, shifted by the offset in use, agrees with the new one at as many
  // positions, up to the farthest end of the matches found, as the match is long.
  lemma NothingEmitted(src: seq<byte>, dst: seq<byte>, c: Cursor, end: nat)
    requires Valid(src, dst, c) && c.scan < |dst|
    requires var p := Scanned(src, dst, c).scan;
      p < |dst| ==> IsFarthestEnd(src, dst, c.scan + c.len, p, end)
    ensures var p, off := Scanned(src, dst, c).scan, c.lastoffset;
      Emitted(src, dst, c) == [] <==>
        p < |dst| && FindMatch(src, dst, p).len
                  == |set m | p <= m < end && 0 <= m + off < |src| && src[m + off] == dst[m]|
  {
    hide Stops, StopFrom, FindMatch, OldScore, RecordAt, IsFarthestEnd;
    var d := Scanned(src, dst, c);
    LastMatchHeld(src, dst, c);
    if d.scan < |dst| {
      StopsExactly(src, dst, c.lastoffset, c.scan + c.len, d.scan, end);
    }
  }

  // What the outer loop has left to do.
  ghost function Remaining(dst: seq<byte>, c: Cursor): int {
    if c.scan < |dst| then 1 + |dst| - (c.scan + c.len) else 0
  }

  // The record written in one iteration, if any.
  ghost function Emitted(src: seq<byte>, dst: seq<byte>, c: Cursor): seq<Record>
    requires Valid(src, dst, c) && c.scan < |dst|
  {
    var d := Scanned(src, dst, c);
    if Due(src, dst, c) then [RecordAt(src, dst, c.lastscan, c.lastpos, d.scan, d.pos)] else []
  }

  // The record covers the forward extension with its diff bytes and what lies
  // between the extensions with its extra bytes; the next record starts with the
  // backward extension.
  lemma RecordTakesExtents(src: seq<byte>, dst: seq<byte>, c: Cursor)
    requires Valid(src, dst, c) && c.scan < |dst| && Emitted(src, dst, c) != []
    ensures var d, e := Scanned(src, dst, c), Next(src, dst, c);
      var x, recs := ExtentsAt(src, dst, c.lastscan, c.lastpos, d.scan, d.pos), Emitted(src, dst, c);
      && |recs| == 1 && |recs[0].diff| == x.lenf
      && |recs[0].extra| == d.scan - x.lenb - (c.lastscan + x.lenf)
      && e.lastscan == d.scan - x.lenb && e.lastpos == d.pos - x.lenb
  {
    hide ExtentsAt, Scanned, Due;
  }

  // All records written from c on.
  ghost function RecordsFrom(src: seq<byte>, dst: seq<byte>, c: Cursor): seq<Record>
    requires Valid(src, dst, c)
    decreases Remaining(dst, c)
  {
    if c.scan == |dst| then [] else Emitted(src, dst, c) + RecordsFrom(src, dst, Next(src, dst, c))
  }

  ghost function AllRecords(src: seq<byte>, dst: seq<byte>): seq<Record> {
    RecordsFrom(src, dst, START)
  }

  // ----- What applying records does -----

  function Sum(src: seq<byte>, cursor: nat, diff: seq<byte>): (d: seq<byte>)
    requires cursor + |diff| <= |src|
    ensures |d| == |diff|
  {
    seq<byte>(|diff|, i requires 0 <= i < |diff| => Add(src[cursor + i], diff[i]))
  }

  // The difference of two bytes, borrowing 256 if need be.
  lemma SubtractBorrows(a: int, b: int)
    requires 0 <= a < 256 && 0 <= b < 256
    ensures Subtract(a, b) == if a < b then a - b + 256 else a - b
  {
  }

  // The differences are new less old, and adding them to old gives new.
  lemma DifferenceRoundTrip(src: seq<byte>, dst: seq<byte>, lastscan: nat, lastpos: nat, len: nat)
    requires lastscan + len <= |dst| && lastpos + len <= |src|
    ensures Sum(src, lastpos, Difference(src, dst, lastscan, lastpos, len)) == dst[lastscan..lastscan + len]
    ensures forall i :: 0 <= i < len ==>
      Difference(src, dst, lastscan, lastpos, len)[i] == Subtract(dst[lastscan + i], src[lastpos + i])
  {
    hide Add, Subtract;
    var d := Difference(src, dst, lastscan, lastpos, len);
    forall i | 0 <= i < len
      ensures Sum(src, lastpos, d)[i] == dst[lastscan..lastscan + len][i]
    {
      SubtractThenAdd(dst[lastscan + i], src[lastpos + i]);
    }
  }

  lemma SubtractThenAdd(a: byte, b: byte)
    ensures Add(b, Subtract(a, b)) == a
  {
    var x: int, y: int := a, b;
    assert (x - y) % 256 == if x < y then x - y + 256 else x - y;
  }

  // The records fit old and new: with the old file's cursor at cursor and done
  // bytes of the new file written, each record reads inside the old file,
  // produces the next bytes of the new one, leaves the cursor inside the old
  // file, and only the last one completes the new file.
  ghost predicate Chained(src: seq<byte>, dst: seq<byte>, recs: seq<Record>, cursor: int, done: nat)
    decreases |recs|
  {
    && 0 <= cursor <= |src| && done <= |dst|
    && if recs == [] then done == |dst|
       else
         var r := recs[0];
         var mid := done + |r.diff|;
         var end := mid + |r.extra|;
         && cursor + |r.diff| <= |src| && end <= |dst|
         && Sum(src, cursor, r.diff) == dst[done..mid] && r.extra == dst[mid..end]
         && (done < |dst|)
         && Chained(src, dst, recs[1..], cursor + |r.diff| + r.jump, end)
  }

  // One record takes both files from one state of the run to the next.
  lemma RecordFits(src: seq<byte>, dst: seq<byte>, c: Cursor)
    requires Valid(src, dst, c) && c.scan < |dst| && Due(src, dst, c)
    ensures var d, e := Scanned(src, dst, c), Next(src, dst, c);
      var r := RecordAt(src, dst, c.lastscan, c.lastpos, d.scan, d.pos);
      var mid := c.lastscan + |r.diff|;
      && c.lastpos + |r.diff| <= |src| && e.lastscan == mid + |r.extra| <= |dst|
      && Sum(src, c.lastpos, r.diff) == dst[c.lastscan..mid] && r.extra == dst[mid..e.lastscan]
      && c.lastscan < |dst| && e.lastpos == c.lastpos + |r.diff| + r.jump
  {
    hide ExtentsAt, Scanned, Due, Difference, Sum;
    var d := Scanned(src, dst, c);
    var r := RecordAt(src, dst, c.lastscan, c.lastpos, d.scan, d.pos);
    DifferenceRoundTrip(src, dst, c.lastscan, c.lastpos, |r.diff|);
  }

  // A record in front of a chain.
  lemma ChainFrom(src: seq<byte>, dst: seq<byte>, r: Record, rest: seq<Record>, cursor: nat, done: nat,
                  next: nat, end: nat)
    requires var mid := done + |r.diff|;
      && cursor + |r.diff| <= |src| && end == mid + |r.extra| <= |dst| && done < |dst|
      && Sum(src, cursor, r.diff) == dst[done..mid] && r.extra == dst[mid..end]
    requires next == cursor + |r.diff| + r.jump && Chained(src, dst, rest, next, end)
    ensures Chained(src, dst, [r] + rest, cursor, done)
  {
    assert ([r] + rest)[1..] == rest;
  }

  lemma {:induction false} RecordsChain(src: seq<byte>, dst: seq<byte>, c: Cursor)
    requires Valid(src, dst, c)
    ensures Chained(src, dst, RecordsFrom(src, dst, c), c.lastpos, c.lastscan)
    decreases Remaining(dst, c)
  {
    if c.scan < |dst| {
      RecordsChain(src, dst, Next(src, dst, c));
      NextChains(src, dst, c);
    }
  }

  lemma RecordsStep(src: seq<byte>, dst: seq<byte>, c: Cursor)
    requires Valid(src, dst, c) && c.scan < |dst|
    ensures RecordsFrom(src, dst, c) == Emitted(src, dst, c) + RecordsFrom(src, dst, Next(src, dst, c))
  {
    hide Next, Emitted;
  }

  lemma NextChains(src: seq<byte>, dst: seq<byte>, c: Cursor)
    requires Valid(src, dst, c) && c.scan < |dst|
    requires var e := Next(src, dst, c); Chained(src, dst, RecordsFrom(src, dst, e), e.lastpos, e.lastscan)
    ensures Chained(src, dst, RecordsFrom(src, dst, c), c.lastpos, c.lastscan)
  {
    hide Scanned, Due, RecordAt, Sum, Chained, RecordsFrom;
    RecordsStep(src, dst, c);
    var d, e := Scanned(src, dst, c), Next(src, dst, c);
    var rest := RecordsFrom(src, dst, e);
    if Due(src, dst, c) {
      var r := RecordAt(src, dst, c.lastscan, c.lastpos, d.scan, d.pos);
      RecordFits(src, dst, c);
      ChainFrom(src, dst, r, rest, c.lastpos, c.lastscan, e.lastpos, e.lastscan);
    } else {
      assert RecordsFrom(src, dst, c) == rest;
    }
  }

  // The records of a whole run chain from the start of both files.
  lemma AllRecordsChain(src: seq<byte>, dst: seq<byte>)
    ensures Chained(src, dst, AllRecords(src, dst), 0, 0)
  {
    RecordsChain(src, dst, START);
  }

  function TotalLength(recs: seq<Record>): nat {
    if recs == [] then 0 else |recs[0].diff| + |recs[0].extra| + TotalLength(recs[1..])
  }

  // The lengths in the records add up to the size of the new file.
  lemma {:induction false} ChainCoversNewFile(src: seq<byte>, dst: seq<byte>, recs: seq<Record>, cursor: int, done: nat)
    requires Chained(src, dst, recs, cursor, done)
    ensures done + TotalLength(recs) == |dst|
    ensures done < |dst| ==> recs != []
    decreases |recs|
  {
    if recs != [] {
      var r := recs[0];
      ChainCoversNewFile(src, dst, recs[1..], cursor + |r.diff| + r.jump, done + |r.diff| + |r.extra|);
    }
  }
}
