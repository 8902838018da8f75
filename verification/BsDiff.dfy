// bsdiff: sort the old file's suffixes, scan the new file, write the records;
// and the main program's handling of the patch file around it.
module BsDiff {
  import opened Bytes
  import opened Varint
  import opened VarintDecoding
  import opened SuffixArrays
  import opened Qsufsort
  import opened Search
  import opened Scan
  import opened Records
  import opened Compression
  import opened Framing
  import opened Header
  import opened Applier
  import opened RoundTrip

  // ----- Control words -----

  // 2^56 and 2^55: what eight groups hold, without and with a sign.
  const EIGHT_GROUPS := 0x100_0000_0000_0000
  const EIGHT_GROUPS_SIGNED := 0x80_0000_0000_0000

  // Eight bytes are enough for each control word.
  lemma UnsignedFits(v: nat)
    ensures 1 <= |Uleb(v)|
    ensures |Uleb(v)| <= 8 <==> v < EIGHT_GROUPS
  {
    assert Pow(128, 4) == 0x1000_0000;
    assert Pow(128, 8) == EIGHT_GROUPS;
    UlebLength(v, 8);
  }

  lemma SignedFits(v: int)
    requires -TWO_62 < v < TWO_62
    ensures 1 <= |Sleb(v)|
    ensures |Sleb(v)| <= 8 <==> -EIGHT_GROUPS_SIGNED < v < EIGHT_GROUPS_SIGNED
  {
    hide Uleb, Sleb;
    SignedRoundTrip(v, 0, []);
    UnsignedFits(Folded(v));
  }

  // So the asserts on control words hold for all files below 2^55 bytes.
  lemma ControlWordsFit(src: seq<byte>, dst: seq<byte>, k: nat)
    requires |src| < EIGHT_GROUPS_SIGNED && |dst| < EIGHT_GROUPS_SIGNED && k < |AllRecords(src, dst)|
    ensures var r := AllRecords(src, dst)[k];
      1 <= |Uleb(|r.diff|)| <= 8 && 1 <= |Uleb(|r.extra|)| <= 8 && 1 <= |Sleb(r.jump)| <= 8
  {
    hide Uleb, Sleb, Chained, RecordsFrom;
    AllRecordsChain(src, dst);
    var recs := AllRecords(src, dst);
    RecordsWithinFiles(src, dst, recs, 0, 0, k);
    UnsignedFits(|recs[k].diff|);
    UnsignedFits(|recs[k].extra|);
    SignedFits(recs[k].jump);
  }

  // Three words written after one another.
  lemma ThreeWords(s: seq<byte>, u: seq<byte>, v: seq<byte>, w: seq<byte>)
    requires |u| + |v| + |w| <= |s|
    ensures Overwrite(Overwrite(Overwrite(s, 0, u), |u|, v), |u| + |v|, w)[..|u| + |v| + |w|] == u + v + w
  {
  }

  // The asserts are those of the program.
  method WriteControl(file: PatchFile, diffLen: nat, extraLen: nat, jump: int)
    requires diffLen < EIGHT_GROUPS && extraLen < EIGHT_GROUPS
    requires -EIGHT_GROUPS_SIGNED < jump < EIGHT_GROUPS_SIGNED
    modifies file
    ensures file.data == old(file.data) + ControlBytes(diffLen, extraLen, jump)
  {
    hide Uleb, Sleb, Overwrite;
    UnsignedFits(diffLen);
    UnsignedFits(extraLen);
    SignedFits(jump);
    var buf := new byte[24](_ => 0);
    ghost var s := buf[..];
    var posInBuf := 0;
    var encodedSize := EncodeUnsigned(diffLen, buf, posInBuf, 8);
    assert 0 < encodedSize <= 8;
    posInBuf := posInBuf + encodedSize;
    encodedSize := EncodeUnsigned(extraLen, buf, posInBuf, 8);
    assert 0 < encodedSize <= 8;
    posInBuf := posInBuf + encodedSize;
    encodedSize := EncodeSigned(jump, buf, posInBuf, 8);
    assert 0 < encodedSize <= 8;
    posInBuf := posInBuf + encodedSize;
    ThreeWords(s, Uleb(diffLen), Uleb(extraLen), Sleb(jump));
    var words := buf[..posInBuf];
    assert words == buf[..][..posInBuf] == ControlBytes(diffLen, extraLen, jump);
    file.Write(words);
  }

  // ----- Records -----

  // Write the record for a stop of the scan; lenb is how far back the match
  // was extended.
  method WriteRecord(file: PatchFile, c: Codec, src: seq<byte>, dst: seq<byte>,
                     lastscan: nat, lastpos: nat, scan: nat, pos: nat, seen: nat, maxFrame: nat)
    returns (ok: bool, largest: nat, lenb: nat)
    requires MeetsContract(c, maxFrame) && InRange(src, dst, maxFrame)
    requires lastscan <= scan <= |dst| && lastpos <= |src| && pos <= |src|
    modifies file
    ensures var r := RecordAt(src, dst, lastscan, lastpos, scan, pos);
      && (ok <==> RecordBytes(c, r, maxFrame).Some?)
      && (ok ==> file.data == old(file.data) + RecordBytes(c, r, maxFrame).value)
      && (ok ==> largest == LongestInRecord(c, r, maxFrame, seen))
    ensures lenb == ExtentsAt(src, dst, lastscan, lastpos, scan, pos).lenb
  {
    hide ExtentsAt, MeetsContract, Frames, FrameBytes, Largest, ControlBytes, Sum;
    var lenf;
    lenf, lenb := ChooseExtents(src, dst, lastscan, lastpos, scan, pos);
    WriteControl(file, lenf, (scan - lenb) - (lastscan + lenf), (pos - lenb) - (lastpos + lenf));
    var diff := SubtractRegion(src, dst, lastscan, lastpos, lenf);
    ok, largest := WriteFrames(file, c, diff, seen, maxFrame);
    if !ok {
      return;
    }
    var extra := dst[lastscan + lenf..scan - lenb];
    ok, largest := WriteFrames(file, c, extra, largest, maxFrame);
  }

  // Fill the buffer with the differences of the two files.
  method SubtractRegion(src: seq<byte>, dst: seq<byte>, lastscan: nat, lastpos: nat, lenf: nat) returns (d: seq<byte>)
    requires lastscan + lenf <= |dst| && lastpos + lenf <= |src|
    ensures d == Difference(src, dst, lastscan, lastpos, lenf)
  {
    var buffer := new byte[lenf](_ => 0);
    for i := 0 to lenf
      invariant forall k :: 0 <= k < i ==> buffer[k] == Subtract(dst[lastscan + k], src[lastpos + k])
    {
      buffer[i] := Subtract(dst[lastscan + i], src[lastpos + i]);
    }
    d := buffer[..];
  }

  // ----- The outer loop -----

  // One iteration: scan on, and write a record if one is due.
  method Iterate(file: PatchFile, I: array<int>, c: Codec, src: seq<byte>, dst: seq<byte>, cur: Cursor,
                 seen: nat, maxFrame: nat)
    returns (ok: bool, next: Cursor, largest: nat)
    requires MeetsContract(c, maxFrame) && InRange(src, dst, maxFrame) && I[..] == SuffixArray(src)
    requires Valid(src, dst, cur) && cur.scan < |dst|
    modifies file
    ensures next == Next(src, dst, cur)
    ensures WroteRecords(c, Emitted(src, dst, cur), maxFrame, old(file.data), file.data, seen, largest, ok)
  {
    hide ExtentsAt, MeetsContract, RecordBytes, LongestInRecord, RecordAt, StopFrom, FindMatch, OldScore;
    var scan, len, pos, oldscore := ScanAhead(I, src, dst, cur.lastoffset, cur.scan + cur.len, cur.len, cur.pos);
    next := cur.(scan := scan, len := len, pos := pos);
    assert next == Scanned(src, dst, cur);
    ok, largest := true, seen;
    if len != oldscore || scan == |dst| {
      var lenb;
      ok, largest, lenb := WriteRecord(file, c, src, dst, cur.lastscan, cur.lastpos, scan, pos, seen, maxFrame);
      var offset: int := pos;
      next := next.(lastscan := scan - lenb, lastpos := pos - lenb, lastoffset := offset - scan);
      OneRecord(c, RecordAt(src, dst, cur.lastscan, cur.lastpos, scan, pos), maxFrame, seen);
    }
  }

  // The records were written to the file, unless the compressor failed.
  ghost predicate WroteRecords(c: Codec, recs: seq<Record>, maxFrame: nat, before: seq<byte>, after: seq<byte>,
                         seen: nat, largest: nat, ok: bool)
    requires MeetsContract(c, maxFrame) && maxFrame > 0
  {
    && (ok <==> RecordsBytes(c, recs, maxFrame).Some?)
    && (ok ==> after == before + RecordsBytes(c, recs, maxFrame).value)
    && (ok ==> largest == LongestFrame(c, recs, maxFrame, seen))
  }

  lemma OneRecord(c: Codec, r: Record, maxFrame: nat, seen: nat)
    requires MeetsContract(c, maxFrame) && maxFrame > 0
    ensures RecordsBytes(c, [r], maxFrame) == RecordBytes(c, r, maxFrame)
    ensures LongestFrame(c, [r], maxFrame, seen) == LongestInRecord(c, r, maxFrame, seen)
  {
    hide RecordBytes, LongestInRecord, MeetsContract;
    assert [r][1..] == [];
    match RecordBytes(c, r, maxFrame)
    case None =>
    case Some(b) => assert b + [] == b;
  }

  lemma {:induction false} RecordsConcat(c: Codec, a: seq<Record>, b: seq<Record>, maxFrame: nat, seen: nat)
    requires MeetsContract(c, maxFrame) && maxFrame > 0
    ensures RecordsBytes(c, a + b, maxFrame) ==
      match RecordsBytes(c, a, maxFrame)
      case None => None
      case Some(x) => match RecordsBytes(c, b, maxFrame) case None => None case Some(y) => Some(x + y)
    ensures LongestFrame(c, a + b, maxFrame, seen)
         == LongestFrame(c, b, maxFrame, LongestFrame(c, a, maxFrame, seen))
    decreases |a|
  {
    hide RecordBytes, LongestInRecord, MeetsContract;
    if a == [] {
      assert a + b == b;
      assert RecordsBytes(c, b, maxFrame).Some? ==>
        [] + RecordsBytes(c, b, maxFrame).value == RecordsBytes(c, b, maxFrame).value;
    } else {
      assert (a + b)[1..] == a[1..] + b;
      RecordsConcat(c, a[1..], b, maxFrame, LongestInRecord(c, a[0], maxFrame, seen));
      var first, x := RecordBytes(c, a[0], maxFrame), RecordsBytes(c, a[1..], maxFrame);
      var y := RecordsBytes(c, b, maxFrame);
      if first.Some? && x.Some? && y.Some? {
        assert first.value + (x.value + y.value) == (first.value + x.value) + y.value;
      }
    }
  }

  // bsdiff: write the records that turn src into dst.  The result says whether
  // the compressor always succeeded; largest is the longest frame written.
  method Diff(file: PatchFile, c: Codec, src: seq<byte>, dst: seq<byte>, maxFrame: nat) returns (ok: bool, largest: nat)
    requires MeetsContract(c, maxFrame) && InRange(src, dst, maxFrame)
    modifies file
    ensures WroteRecords(c, AllRecords(src, dst), maxFrame, old(file.data), file.data, 0, largest, ok)
  {
    hide MeetsContract, Next, Emitted, WroteRecords, RecordsBytes, LongestFrame, RecordsFrom;
    var I := new int[|src| + 1];
    var V := new int[|src| + 1];
    SortSuffixes(I, V, src);
    var cur := START;
    ghost var done := [];
    ok, largest := true, 0;
    RunStarts(c, src, dst, maxFrame, file.data);
    while cur.scan < |dst|
      invariant I[..] == SuffixArray(src) && Valid(src, dst, cur) && ok
      invariant AllRecords(src, dst) == done + RecordsFrom(src, dst, cur)
      invariant WroteRecords(c, done, maxFrame, old(file.data), file.data, 0, largest, ok)
      decreases Remaining(dst, cur)
    {
      ghost var was, seen, before := cur, largest, file.data;
      ok, cur, largest := Iterate(file, I, c, src, dst, cur, largest, maxFrame);
      RunContinues(c, src, dst, maxFrame, done, was, old(file.data), before, file.data, seen, largest, ok);
      if !ok {
        return;
      }
      done := done + Emitted(src, dst, was);
    }
    RunEnds(src, dst, cur, done);
  }

  lemma RunStarts(c: Codec, src: seq<byte>, dst: seq<byte>, maxFrame: nat, data: seq<byte>)
    requires MeetsContract(c, maxFrame) && maxFrame > 0
    ensures Valid(src, dst, START)
    ensures AllRecords(src, dst) == [] + RecordsFrom(src, dst, START)
    ensures WroteRecords(c, [], maxFrame, data, data, 0, 0, true)
  {
    hide RecordsFrom, MeetsContract, RecordBytes, LongestInRecord;
    assert data + [] == data;
  }

  lemma RunContinues(c: Codec, src: seq<byte>, dst: seq<byte>, maxFrame: nat, done: seq<Record>, cur: Cursor,
                     first: seq<byte>, before: seq<byte>, after: seq<byte>, seen: nat, largest: nat, ok: bool)
    requires MeetsContract(c, maxFrame) && maxFrame > 0 && Valid(src, dst, cur) && cur.scan < |dst|
    requires AllRecords(src, dst) == done + RecordsFrom(src, dst, cur)
    requires WroteRecords(c, done, maxFrame, first, before, 0, seen, true)
    requires WroteRecords(c, Emitted(src, dst, cur), maxFrame, before, after, seen, largest, ok)
    ensures AllRecords(src, dst) == done + Emitted(src, dst, cur) + RecordsFrom(src, dst, Next(src, dst, cur))
    ensures ok ==> WroteRecords(c, done + Emitted(src, dst, cur), maxFrame, first, after, 0, largest, true)
    ensures !ok ==> WroteRecords(c, AllRecords(src, dst), maxFrame, first, after, 0, largest, false)
  {
    hide MeetsContract, Next, Emitted, AllRecords, RecordsBytes, LongestFrame;
    var e, rest := Emitted(src, dst, cur), RecordsFrom(src, dst, Next(src, dst, cur));
    assert RecordsFrom(src, dst, cur) == e + rest;
    assert done + (e + rest) == done + e + rest;
    RecordsConcat(c, done, e, maxFrame, 0);
    RecordsConcat(c, done + e, rest, maxFrame, 0);
  }

  lemma RunEnds(src: seq<byte>, dst: seq<byte>, cur: Cursor, done: seq<Record>)
    requires Valid(src, dst, cur) && cur.scan == |dst|
    requires AllRecords(src, dst) == done + RecordsFrom(src, dst, cur)
    ensures AllRecords(src, dst) == done
  {
    hide AllRecords;
  }

  // ----- The main program -----

  // Write the header, the records, and the header's last field again.
  method MakePatch(file: PatchFile, c: Codec, src: seq<byte>, dst: seq<byte>, maxFrame: int) returns (ok: bool)
    requires maxFrame >= 64 ==> MeetsContract(c, maxFrame)
    requires file.data == []
    requires |src| < SRC_LIMIT && |dst| < INT_LIMIT && maxFrame < INT_LIMIT
    modifies file
    ensures ok <==> maxFrame >= 64 && PatchFor(c, src, dst, maxFrame).Some?
    ensures ok ==> file.data == PatchFor(c, src, dst, maxFrame).value
    ensures ok && dst != [] && |src| < OLD_LIMIT ==> forall memory: nat :: memory == 0 || memory >= 2 * maxFrame ==>
      ApplyPatch(c, memory, src, file.data) == Patched(dst)
  {
    hide ApplyPatch, MeetsContract, AllRecords, RecordsBytes, LongestFrame, HeaderBytes;
    if maxFrame < 64 {
      return false;
    }
    WriteHeader(file, |dst|, maxFrame, 0);
    var largest;
    ok, largest := Diff(file, c, src, dst, maxFrame);
    if !ok {
      return;
    }
    LongestFits(c, AllRecords(src, dst), maxFrame, 0);
    RewriteLargest(file, |dst|, maxFrame, 0, largest, RecordsBytes(c, AllRecords(src, dst), maxFrame).value);
    forall memory: nat | memory == 0 || memory >= 2 * maxFrame
      ensures dst != [] && |src| < OLD_LIMIT ==> ApplyPatch(c, memory, src, file.data) == Patched(dst)
    {
      if |src| < OLD_LIMIT {
        SmallFilesReadable(src, dst);
      }
      PatchRoundTrip(c, memory, src, dst, maxFrame);
    }
  }

  // Go back to the header and fill in the longest frame.
  method RewriteLargest(file: PatchFile, ghost newSize: int, ghost maxFrame: int, ghost before: int, largest: int,
                        ghost body: seq<byte>)
    requires file.data == HeaderBytes(newSize, maxFrame, before) + body && -TWO_63 < largest < TWO_63
    modifies file
    ensures file.data == HeaderBytes(newSize, maxFrame, largest) + body
  {
    hide Offt, Overwrite, HeaderBytes;
    HeaderRewritten(newSize, maxFrame, before, largest, body);
    var buf := new byte[24](_ => 0);
    Offtout(largest, buf, 0);
    assert buf[..8] == buf[..][0..0 + 8];
    file.WriteAt(32, buf[..8]);
  }

  method WriteHeader(file: PatchFile, newSize: int, maxFrame: int, largest: int)
    requires -TWO_63 < newSize < TWO_63 && -TWO_63 < maxFrame < TWO_63 && -TWO_63 < largest < TWO_63
    modifies file
    ensures file.data == old(file.data) + HeaderBytes(newSize, maxFrame, largest)
  {
    hide Offt, Overwrite, HeaderBytes;
    var buf := new byte[24](_ => 0);
    ghost var s := buf[..];
    Offtout(newSize, buf, 0);
    Offtout(maxFrame, buf, 8);
    Offtout(largest, buf, 16);
    ThreeWords(s, Offt(newSize), Offt(maxFrame), Offt(largest));
    file.Write(MAGIC);
    var words := buf[..];
    assert words == buf[..][..24];
    HeaderJoins(old(file.data), newSize, maxFrame, largest);
    file.Write(words);
  }

  lemma HeaderJoins(before: seq<byte>, newSize: int, maxFrame: int, largest: int)
    ensures before + MAGIC + (Offt(newSize) + Offt(maxFrame) + Offt(largest))
         == before + HeaderBytes(newSize, maxFrame, largest)
  {
    hide Offt;
  }
}
