// A patch as a function of its inputs, and the proof that the applier turns
// the old file into the new one with it.
module RoundTrip {
  import opened Bytes
  import opened Varint
  import opened VarintDecoding
  import opened Compression
  import opened Framing
  import opened Header
  import opened Records
  import opened Applier

  const INT_LIMIT := 0x8000_0000
  const OLD_LIMIT := 0x1_0000_0000_0000
  const SRC_LIMIT := 0x80_0000_0000_0000

  // ----- The patch -----

  function ControlBytes(diffLen: nat, extraLen: nat, jump: int): seq<byte> {
    Uleb(diffLen) + Uleb(extraLen) + Sleb(jump)
  }

  ghost function RecordBytes(c: Codec, r: Record, maxFrame: nat): Option<seq<byte>>
    requires MeetsContract(c, maxFrame) && maxFrame > 0
  {
    match Frames(c, r.diff, maxFrame)
    case None => None
    case Some(d) =>
      match Frames(c, r.extra, maxFrame)
      case None => None
      case Some(x) => Some(ControlBytes(|r.diff|, |r.extra|, r.jump) + FrameBytes(d) + FrameBytes(x))
  }

  // All records after one another; nothing if the compressor fails anywhere.
  ghost function RecordsBytes(c: Codec, recs: seq<Record>, maxFrame: nat): Option<seq<byte>>
    requires MeetsContract(c, maxFrame) && maxFrame > 0
  {
    if recs == [] then Some([])
    else
      match RecordBytes(c, recs[0], maxFrame)
      case None => None
      case Some(first) =>
        match RecordsBytes(c, recs[1..], maxFrame)
        case None => None
        case Some(rest) => Some(first + rest)
  }

  // The longest frame over all records.
  ghost function LongestFrame(c: Codec, recs: seq<Record>, maxFrame: nat, seen: nat): nat
    requires MeetsContract(c, maxFrame) && maxFrame > 0
  {
    if recs == [] then seen
    else LongestFrame(c, recs[1..], maxFrame, LongestInRecord(c, recs[0], maxFrame, seen))
  }

  ghost function LongestInRecord(c: Codec, r: Record, maxFrame: nat, seen: nat): nat
    requires MeetsContract(c, maxFrame) && maxFrame > 0
  {
    var d := match Frames(c, r.diff, maxFrame) case None => seen case Some(f) => Largest(f, seen);
    match Frames(c, r.extra, maxFrame) case None => d case Some(f) => Largest(f, d)
  }

  ghost function PatchFor(c: Codec, src: seq<byte>, dst: seq<byte>, maxFrame: nat): Option<seq<byte>>
    requires MeetsContract(c, maxFrame) && maxFrame > 0
  {
    var recs := AllRecords(src, dst);
    match RecordsBytes(c, recs, maxFrame)
    case None => None
    case Some(body) => Some(HeaderBytes(|dst|, maxFrame, LongestFrame(c, recs, maxFrame, 0)) + body)
  }

  // ----- Reading numbers back -----

  lemma {:induction false} ReadFollowsFeed(bytes: seq<byte>, acc: nat, count: nat)
    requires IsUint64(acc) && FeedUnsigned(bytes, acc, count).Done?
    ensures var f := FeedUnsigned(bytes, acc, count);
      && |f.rest| < |bytes| && f.value >= 0
      && ReadUnsigned(bytes, acc, count) ==
         if count + |bytes| - |f.rest| <= 7 then Got(f.value, f.rest) else Stuck(CorruptedPatch)
    decreases bytes
  {
    hide Merge;
    if CodeOf(bytes[0]).NeedsMoreData? {
      ReadFollowsFeed(bytes[1..], Merge(bytes[0], acc, count), count + 1);
    }
  }

  lemma {:induction false} ReadSignedFollowsFeed(bytes: seq<byte>, acc: int, count: nat)
    requires IsInt64(acc) && FeedSigned(bytes, acc, count).Done?
    ensures var f := FeedSigned(bytes, acc, count);
      && |f.rest| < |bytes|
      && ReadSigned(bytes, acc, count) ==
         if count + |bytes| - |f.rest| <= 7 then Got(f.value, f.rest) else Stuck(CorruptedPatch)
    decreases bytes
  {
    hide SignedMerge;
    if CodeOf(bytes[0]).NeedsMoreData? {
      ReadSignedFollowsFeed(bytes[1..], SignedMerge(bytes[0], acc, count), count + 1);
    }
  }

  lemma SevenGroups()
    ensures Pow(128, 7) == 2 * OLD_LIMIT
  {
    assert Pow(128, 3) == 0x20_0000;
    assert Pow(128, 5) == 0x8_0000_0000;
  }

  // The reader accepts exactly the numbers of up to seven groups, although the
  // writer may use eight.
  lemma ReadsUnsignedBelow(v: nat, acc: nat, tail: seq<byte>)
    requires IsUint64(v) && IsUint64(acc)
    ensures ReadUnsigned(Uleb(v) + tail, acc, 0) ==
      if v < 2 * OLD_LIMIT then Got(v, tail) else Stuck(CorruptedPatch)
  {
    UnsignedRoundTrip(v, acc, tail);
    ReadFollowsFeed(Uleb(v) + tail, acc, 0);
    SevenGroups();
    UlebLength(v, 7);
  }

  lemma ReadsSignedBelow(v: int, acc: int, tail: seq<byte>)
    requires -TWO_62 < v < TWO_62 && IsInt64(acc)
    ensures ReadSigned(Sleb(v) + tail, acc, 0) ==
      if -OLD_LIMIT < v < OLD_LIMIT then Got(v, tail) else Stuck(CorruptedPatch)
  {
    SignedRoundTrip(v, acc, tail);
    ReadSignedFollowsFeed(Sleb(v) + tail, acc, 0);
    SevenGroups();
    UlebLength(Folded(v), 7);
  }

  // ----- Reading frames back -----

  // A frame preceded by its length is read as what it decompresses to, and what
  // follows it is left.  It is rejected if it does not fit the buffer or
  // decompresses to nothing.
  lemma ReadsFrame(c: Codec, maxFrame: nat, frame: seq<byte>, tail: seq<byte>)
    requires |frame| < 2 * OLD_LIMIT
    ensures ReadFrame(c, maxFrame, Uleb(|frame|) + frame + tail) ==
      var bytes := c.decompress(frame, maxFrame);
      if |frame| <= maxFrame && bytes.Some? && bytes.value != [] then Got(bytes.value, tail)
      else Stuck(CorruptedPatch)
  {
    hide ReadUnsigned;
    ReadsUnsignedBelow(|frame|, 0, frame + tail);
    assert Uleb(|frame|) + frame + tail == Uleb(|frame|) + (frame + tail);
    assert (frame + tail)[..|frame|] == frame && (frame + tail)[|frame|..] == tail;
  }

  // The first frame of a buffer and the part of the buffer it holds.
  lemma FirstFrame(c: Codec, buffer: seq<byte>, maxFrame: nat)
    returns (frame: seq<byte>, bytes: seq<byte>, rest: seq<byte>, frames: seq<seq<byte>>)
    requires MeetsContract(c, maxFrame) && maxFrame > 0 && buffer != [] && Frames(c, buffer, maxFrame).Some?
    ensures buffer == bytes + rest && 1 <= |bytes| <= maxFrame && 1 <= |frame| <= maxFrame
    ensures Frames(c, rest, maxFrame) == Some(frames) && Frames(c, buffer, maxFrame) == Some([frame] + frames)
    ensures Restores(c, maxFrame, frame, bytes)
  {
    var offered := Offered(buffer, maxFrame);
    assert PacksWell(c, offered, maxFrame);
    var p := c.compress(offered, maxFrame);
    frame, bytes, rest := p.output, offered[..p.consumed], buffer[p.consumed..];
    frames := Frames(c, rest, maxFrame).value;
    assert bytes == buffer[..p.consumed];
  }

  lemma FrameBytesFront(frame: seq<byte>, frames: seq<seq<byte>>, tail: seq<byte>)
    ensures FrameBytes([]) + tail == tail
    ensures FrameBytes([frame] + frames) + tail == Uleb(|frame|) + frame + (FrameBytes(frames) + tail)
  {
    assert ([frame] + frames)[1..] == frames;
  }

  // Literal frames give the buffer back.
  lemma {:induction false} AppliesExtra(c: Codec, maxFrame: nat, buffer: seq<byte>, tail: seq<byte>)
    requires MeetsContract(c, maxFrame) && 0 < maxFrame < INT_LIMIT && Frames(c, buffer, maxFrame).Some?
    ensures ApplyExtra(c, maxFrame, FrameBytes(Frames(c, buffer, maxFrame).value) + tail, |buffer|) == Got(buffer, tail)
    decreases |buffer|
  {
    hide MeetsContract, ReadFrame, FrameBytes;
    if buffer == [] {
      FrameBytesFront([], [], tail);
    } else {
      var frame, bytes, rest, frames := FirstFrame(c, buffer, maxFrame);
      var more := FrameBytes(frames) + tail;
      AppliesExtra(c, maxFrame, rest, tail);
      ReadsFrame(c, maxFrame, frame, more);
      FrameBytesFront(frame, frames, tail);
    }
  }

  lemma SumSplits(src: seq<byte>, cursor: nat, a: seq<byte>, b: seq<byte>)
    requires cursor + |a| + |b| <= |src|
    ensures Sum(src, cursor, a + b) == Sum(src, cursor, a) + Sum(src, cursor + |a|, b)
  {
  }

  // Difference frames give the buffer added to the old file.
  lemma {:induction false} AppliesDiff(c: Codec, maxFrame: nat, src: seq<byte>, buffer: seq<byte>, cursor: nat,
                                       tail: seq<byte>)
    requires MeetsContract(c, maxFrame) && 0 < maxFrame < INT_LIMIT && Frames(c, buffer, maxFrame).Some?
    requires cursor + |buffer| <= |src|
    ensures ApplyDiff(c, maxFrame, src, FrameBytes(Frames(c, buffer, maxFrame).value) + tail, |buffer|, cursor)
         == Got(Piece(Sum(src, cursor, buffer), cursor + |buffer|), tail)
    decreases |buffer|
  {
    hide MeetsContract, ReadFrame, FrameBytes, Sum;
    if buffer == [] {
      FrameBytesFront([], [], tail);
      assert Sum(src, cursor, buffer) == [];
    } else {
      var frame, bytes, rest, frames := FirstFrame(c, buffer, maxFrame);
      var more := FrameBytes(frames) + tail;
      AppliesDiff(c, maxFrame, src, rest, cursor + |bytes|, tail);
      ReadsFrame(c, maxFrame, frame, more);
      SumSplits(src, cursor, bytes, rest);
      FrameBytesFront(frame, frames, tail);
    }
  }

  // Difference frames that reach beyond the old file fail to read it.
  lemma {:induction false} DiffRunsOut(c: Codec, maxFrame: nat, src: seq<byte>, buffer: seq<byte>, cursor: nat,
                                       tail: seq<byte>)
    requires MeetsContract(c, maxFrame) && 0 < maxFrame < INT_LIMIT && Frames(c, buffer, maxFrame).Some?
    requires buffer != [] && cursor + |buffer| > |src|
    ensures ApplyDiff(c, maxFrame, src, FrameBytes(Frames(c, buffer, maxFrame).value) + tail, |buffer|, cursor)
         == Stuck(ReadOldFailed)
    decreases |buffer|
  {
    hide MeetsContract, ReadFrame, FrameBytes, Sum;
    var frame, bytes, rest, frames := FirstFrame(c, buffer, maxFrame);
    var more := FrameBytes(frames) + tail;
    ReadsFrame(c, maxFrame, frame, more);
    FrameBytesFront(frame, frames, tail);
    if cursor + |bytes| <= |src| {
      DiffRunsOut(c, maxFrame, src, rest, cursor + |bytes|, tail);
    }
  }

  // So the bytes of a buffer's frames determine the buffer, given its length,
  // and where they end.
  lemma FramesParseUniquely(c: Codec, maxFrame: nat, a: seq<byte>, b: seq<byte>, x: seq<byte>, y: seq<byte>)
    requires MeetsContract(c, maxFrame) && 0 < maxFrame < INT_LIMIT && |a| == |b|
    requires Frames(c, a, maxFrame).Some? && Frames(c, b, maxFrame).Some?
    requires FrameBytes(Frames(c, a, maxFrame).value) + x == FrameBytes(Frames(c, b, maxFrame).value) + y
    ensures a == b && x == y
  {
    hide MeetsContract, ApplyExtra, Frames, FrameBytes;
    AppliesExtra(c, maxFrame, a, x);
    AppliesExtra(c, maxFrame, b, y);
  }

  // ----- Records -----

  // The sizes the writer is made for: lengths are held in C ints, and a control
  // word in eight bytes.
  predicate InRange(src: seq<byte>, dst: seq<byte>, maxFrame: nat) {
    |src| < SRC_LIMIT && |dst| < INT_LIMIT && 0 < maxFrame < INT_LIMIT
  }

  // The applier accepts the jump: it takes at most seven bytes.
  predicate Readable(jump: int) { -OLD_LIMIT < jump < OLD_LIMIT }

  ghost predicate AllReadable(recs: seq<Record>) {
    forall r :: r in recs ==> Readable(r.jump)
  }

  lemma ReadsControl(r: Record, tail: seq<byte>)
    requires |r.diff| < INT_LIMIT && |r.extra| < INT_LIMIT && -TWO_62 < r.jump < TWO_62
    ensures ReadControl(ControlBytes(|r.diff|, |r.extra|, r.jump) + tail) ==
      if Readable(r.jump) then Got(Control(|r.diff|, |r.extra|, r.jump), tail) else Stuck(CorruptedPatch)
  {
    hide ReadUnsigned, ReadSigned, Uleb, Sleb;
    var d, x, j := Uleb(|r.diff|), Uleb(|r.extra|), Sleb(r.jump);
    ReadsUnsignedBelow(|r.diff|, 0, x + (j + tail));
    ReadsUnsignedBelow(|r.extra|, 0, j + tail);
    ReadsSignedBelow(r.jump, 0, tail);
    assert ControlBytes(|r.diff|, |r.extra|, r.jump) + tail == d + (x + (j + tail));
  }

  // Applying one record of a chain: its control numbers, diff part and extra
  // part are read back.
  lemma ReadsRecord(c: Codec, maxFrame: nat, src: seq<byte>, r: Record, cursor: nat, tail: seq<byte>)
    requires MeetsContract(c, maxFrame) && 0 < maxFrame < INT_LIMIT && RecordBytes(c, r, maxFrame).Some?
    requires |r.diff| < INT_LIMIT && |r.extra| < INT_LIMIT && Readable(r.jump)
    requires cursor + |r.diff| <= |src|
    ensures var k := ReadControl(RecordBytes(c, r, maxFrame).value + tail);
      && k.Got? && k.value == Control(|r.diff|, |r.extra|, r.jump)
      && (var p := ApplyDiff(c, maxFrame, src, k.rest, |r.diff|, cursor);
          && p.Got? && p.value == Piece(Sum(src, cursor, r.diff), cursor + |r.diff|)
          && ApplyExtra(c, maxFrame, p.rest, |r.extra|) == Got(r.extra, tail))
  {
    hide MeetsContract, Frames, FrameBytes, ApplyDiff, ApplyExtra, ReadControl, ControlBytes, Sum;
    var d, x := Frames(c, r.diff, maxFrame).value, Frames(c, r.extra, maxFrame).value;
    var afterDiff := FrameBytes(x) + tail;
    var afterControl := FrameBytes(d) + afterDiff;
    assert RecordBytes(c, r, maxFrame).value + tail == ControlBytes(|r.diff|, |r.extra|, r.jump) + afterControl;
    ReadsControl(r, afterControl);
    AppliesDiff(c, maxFrame, src, r.diff, cursor, afterDiff);
    AppliesExtra(c, maxFrame, r.extra, tail);
  }

  // The first record of a chain.
  lemma ChainHead(src: seq<byte>, dst: seq<byte>, recs: seq<Record>, cursor: int, done: nat)
    requires Chained(src, dst, recs, cursor, done) && recs != []
    ensures var r := recs[0];
      var next, mid := cursor + |r.diff| + r.jump, done + |r.diff|;
      && cursor >= 0 && cursor + |r.diff| <= |src| && mid + |r.extra| <= |dst| && done < |dst|
      && 0 <= next <= |src| && -|src| <= r.jump <= |src|
      && dst[..done] + Sum(src, cursor, r.diff) == dst[..mid]
      && dst[..mid] + r.extra == dst[..mid + |r.extra|]
      && Chained(src, dst, recs[1..], next, mid + |r.extra|)
      && (recs[1..] == [] <==> mid + |r.extra| == |dst|)
  {
    var r := recs[0];
    var mid := done + |r.diff|;
    var end := mid + |r.extra|;
    assert dst[..done] + dst[done..mid] == dst[..mid];
    assert dst[..mid] + dst[mid..end] == dst[..end];
    hide Sum;
  }

  // A jump of eight bytes stops the applier.
  lemma RejectsRecord(c: Codec, maxFrame: nat, r: Record, tail: seq<byte>)
    requires MeetsContract(c, maxFrame) && maxFrame > 0 && RecordBytes(c, r, maxFrame).Some?
    requires |r.diff| < INT_LIMIT && |r.extra| < INT_LIMIT && -TWO_62 < r.jump < TWO_62 && !Readable(r.jump)
    ensures ReadControl(RecordBytes(c, r, maxFrame).value + tail) == Stuck(CorruptedPatch)
  {
    hide MeetsContract, Frames, FrameBytes, ReadControl, ControlBytes;
    var d, x := Frames(c, r.diff, maxFrame).value, Frames(c, r.extra, maxFrame).value;
    var afterControl := FrameBytes(d) + (FrameBytes(x) + tail);
    assert RecordBytes(c, r, maxFrame).value + tail == ControlBytes(|r.diff|, |r.extra|, r.jump) + afterControl;
    ReadsControl(r, afterControl);
  }

  // What the diff part of a record adds to the new file.
  function DiffApplied(src: seq<byte>, cursor: nat, diff: seq<byte>): seq<byte>
    requires diff == [] || cursor + |diff| <= |src|
  {
    if diff == [] then [] else Sum(src, cursor, diff)
  }

  // What a written record does to any old file and any state of the files: the
  // old file need not be the one the patch was made for.
  lemma RecordStep(c: Codec, maxFrame: nat, src: seq<byte>, newSize: nat, r: Record, w: Work, tail: seq<byte>)
    requires MeetsContract(c, maxFrame) && 0 < maxFrame < INT_LIMIT && RecordBytes(c, r, maxFrame).Some?
    requires |r.diff| < INT_LIMIT && |r.extra| < INT_LIMIT && -TWO_62 < r.jump < TWO_62
    ensures
      var mid, end := w.newpos + |r.diff|, w.newpos + |r.diff| + |r.extra|;
      var cursor := w.cursor + |r.diff| + r.jump;
      ApplyRecords(c, maxFrame, src, newSize, RecordBytes(c, r, maxFrame).value + tail, w) ==
      if !Readable(r.jump) || mid > newSize then Failed(CorruptedPatch)
      else if r.diff != [] && w.cursor + |r.diff| > |src| then Failed(ReadOldFailed)
      else
        var file := w.file + DiffApplied(src, w.cursor, r.diff);
        if r.diff != [] && mid == newSize then Patched(file)
        else if end > newSize then Failed(CorruptedPatch)
        else if end == newSize > 0 then Patched(file + r.extra)
        else if cursor < 0 then Failed(SeekOldFailed)
        else ApplyRecords(c, maxFrame, src, newSize, tail, Work(file + r.extra, end, cursor))
  {
    hide MeetsContract, Frames, FrameBytes, ApplyDiff, ApplyExtra, ReadControl, ControlBytes, Sum, Readable;
    var d, x := Frames(c, r.diff, maxFrame).value, Frames(c, r.extra, maxFrame).value;
    var afterDiff := FrameBytes(x) + tail;
    var afterControl := FrameBytes(d) + afterDiff;
    assert RecordBytes(c, r, maxFrame).value + tail == ControlBytes(|r.diff|, |r.extra|, r.jump) + afterControl;
    ReadsControl(r, afterControl);
    DiffStep(c, maxFrame, src, r.diff, w.cursor, afterDiff);
    AppliesExtra(c, maxFrame, r.extra, tail);
  }

  lemma DiffStep(c: Codec, maxFrame: nat, src: seq<byte>, diff: seq<byte>, cursor: nat, tail: seq<byte>)
    requires MeetsContract(c, maxFrame) && 0 < maxFrame < INT_LIMIT && Frames(c, diff, maxFrame).Some?
    ensures ApplyDiff(c, maxFrame, src, FrameBytes(Frames(c, diff, maxFrame).value) + tail, |diff|, cursor) ==
      if diff != [] && cursor + |diff| > |src| then Stuck(ReadOldFailed)
      else Got(Piece(DiffApplied(src, cursor, diff), cursor + |diff|), tail)
  {
    hide MeetsContract, ReadFrame, FrameBytes, Sum;
    if diff == [] {
      FrameBytesFront([], [], tail);
    } else if cursor + |diff| > |src| {
      DiffRunsOut(c, maxFrame, src, diff, cursor, tail);
    } else {
      AppliesDiff(c, maxFrame, src, diff, cursor, tail);
    }
  }

  // The compressor is the only thing that can keep a patch from being written.
  lemma {:induction false} WrittenUnlessCompressorFails(c: Codec, recs: seq<Record>, maxFrame: nat)
    requires MeetsContract(c, maxFrame) && maxFrame > 0
    ensures RecordsBytes(c, recs, maxFrame).Some? <==>
      forall r :: r in recs ==> Frames(c, r.diff, maxFrame).Some? && Frames(c, r.extra, maxFrame).Some?
    decreases |recs|
  {
    hide MeetsContract, Frames, FrameBytes;
    if recs != [] {
      WrittenUnlessCompressorFails(c, recs[1..], maxFrame);
      assert recs == [recs[0]] + recs[1..];
    }
  }

  // A chain of records is applied in full if every jump can be read.
  lemma {:induction false} AppliesChain(c: Codec, maxFrame: nat, src: seq<byte>, dst: seq<byte>, recs: seq<Record>,
                                        cursor: nat, done: nat)
    requires MeetsContract(c, maxFrame) && InRange(src, dst, maxFrame)
    requires Chained(src, dst, recs, cursor, done) && recs != [] && RecordsBytes(c, recs, maxFrame).Some?
    ensures ApplyRecords(c, maxFrame, src, |dst|, RecordsBytes(c, recs, maxFrame).value,
                         Work(dst[..done], done, cursor))
         == if AllReadable(recs) then Patched(dst) else Failed(CorruptedPatch)
    decreases |recs|
  {
    hide MeetsContract, Chained, RecordBytes, ReadControl, ApplyDiff, ApplyExtra, Sum, AllReadable, Readable;
    var r := recs[0];
    ChainHead(src, dst, recs, cursor, done);
    ReadableFront(recs);
    var tail := RecordsBytes(c, recs[1..], maxFrame).value;
    if !Readable(r.jump) {
      RejectsRecord(c, maxFrame, r, tail);
    } else {
      ReadsRecord(c, maxFrame, src, r, cursor, tail);
      assert dst[..|dst|] == dst;
      if recs[1..] != [] {
        AppliesChain(c, maxFrame, src, dst, recs[1..], cursor + |r.diff| + r.jump, done + |r.diff| + |r.extra|);
      }
    }
  }

  lemma ReadableFront(recs: seq<Record>)
    requires recs != []
    ensures AllReadable(recs) <==> Readable(recs[0].jump) && AllReadable(recs[1..])
    ensures AllReadable([])
  {
    assert recs == [recs[0]] + recs[1..];
  }

  // ----- The main theorem -----

  // For all inputs in range, a patch that could be written turns the old file
  // into the new one, if and only if the new file is not empty, the frame size
  // is at least 64, two frame buffers fit the applier's memory, and no record
  // jumps 2^48 bytes or more.
  lemma PatchRoundTrip(c: Codec, memory: nat, src: seq<byte>, dst: seq<byte>, maxFrame: nat)
    requires MeetsContract(c, maxFrame) && InRange(src, dst, maxFrame)
    requires PatchFor(c, src, dst, maxFrame).Some?
    ensures ApplyPatch(c, memory, src, PatchFor(c, src, dst, maxFrame).value) ==
      if maxFrame < 64 then Failed(CorruptedPatch)
      else if 0 < memory < 2 * maxFrame then Failed(OutOfMemory)
      else if dst == [] then Failed(ReadPatchFailed)
      else if AllReadable(AllRecords(src, dst)) then Patched(dst)
      else Failed(CorruptedPatch)
  {
    hide MeetsContract, Chained, ApplyRecords, RecordsFrom, HeaderBytes;
    var recs := AllRecords(src, dst);
    var body := RecordsBytes(c, recs, maxFrame).value;
    LongestFits(c, recs, maxFrame, 0);
    HeaderFields(|dst|, maxFrame, LongestFrame(c, recs, maxFrame, 0), body);
    if dst == [] {
      NothingToApply(c, maxFrame, src);
    } else {
      AllRecordsChain(src, dst);
      ChainCoversNewFile(src, dst, recs, 0, 0);
      AppliesChain(c, maxFrame, src, dst, recs, 0, 0);
    }
  }

  // No frame is longer than the frame size.
  lemma {:induction false} LongestFits(c: Codec, recs: seq<Record>, maxFrame: nat, seen: nat)
    requires MeetsContract(c, maxFrame) && maxFrame > 0 && seen <= maxFrame
    ensures LongestFrame(c, recs, maxFrame, seen) <= maxFrame
    decreases |recs|
  {
    if recs != [] {
      LongestInRecordFits(c, recs[0], maxFrame, seen);
      LongestFits(c, recs[1..], maxFrame, LongestInRecord(c, recs[0], maxFrame, seen));
    }
  }

  lemma LongestInRecordFits(c: Codec, r: Record, maxFrame: nat, seen: nat)
    requires MeetsContract(c, maxFrame) && maxFrame > 0 && seen <= maxFrame
    ensures LongestInRecord(c, r, maxFrame, seen) <= maxFrame
  {
    hide MeetsContract, Frames;
    if Frames(c, r.diff, maxFrame).Some? {
      FramesFit(c, r.diff, maxFrame);
    }
    if Frames(c, r.extra, maxFrame).Some? {
      FramesFit(c, r.extra, maxFrame);
    }
  }

  // An empty new file has no records, so the applier waits for more patch.
  lemma NothingToApply(c: Codec, maxFrame: nat, src: seq<byte>)
    requires MeetsContract(c, maxFrame) && maxFrame > 0
    ensures RecordsBytes(c, AllRecords(src, []), maxFrame) == Some([])
    ensures ApplyRecords(c, maxFrame, src, 0, [], Work([], 0, 0)) == Failed(ReadPatchFailed)
  {
  }

  // ----- The header and the control words -----

  // All frames of all records.
  ghost function AllFrames(c: Codec, recs: seq<Record>, maxFrame: nat): seq<seq<byte>>
    requires MeetsContract(c, maxFrame) && maxFrame > 0 && RecordsBytes(c, recs, maxFrame).Some?
  {
    if recs == [] then []
    else
      Frames(c, recs[0].diff, maxFrame).value + Frames(c, recs[0].extra, maxFrame).value
      + AllFrames(c, recs[1..], maxFrame)
  }

  lemma {:induction false} LargestConcat(a: seq<seq<byte>>, b: seq<seq<byte>>, seen: nat)
    ensures Largest(a + b, seen) == Largest(b, Largest(a, seen))
    decreases |a|
  {
    if a == [] {
      assert a + b == b;
    } else {
      assert (a + b)[1..] == a[1..] + b;
      LargestConcat(a[1..], b, if |a[0]| > seen then |a[0]| else seen);
    }
  }

  // The running maximum over the calls is the longest frame of the patch.
  lemma {:induction false} LongestIsLargest(c: Codec, recs: seq<Record>, maxFrame: nat, seen: nat)
    requires MeetsContract(c, maxFrame) && maxFrame > 0 && RecordsBytes(c, recs, maxFrame).Some?
    ensures LongestFrame(c, recs, maxFrame, seen) == Largest(AllFrames(c, recs, maxFrame), seen)
    decreases |recs|
  {
    hide MeetsContract, Frames, FrameBytes;
    if recs != [] {
      var d, x := Frames(c, recs[0].diff, maxFrame).value, Frames(c, recs[0].extra, maxFrame).value;
      var rest := AllFrames(c, recs[1..], maxFrame);
      LargestConcat(d, x, seen);
      LargestConcat(d + x, rest, seen);
      LongestIsLargest(c, recs[1..], maxFrame, LongestInRecord(c, recs[0], maxFrame, seen));
    }
  }

  // The three header fields of a patch: the size of the new file, the frame
  // size, and the length of the longest frame in the patch.
  lemma PatchHeader(c: Codec, src: seq<byte>, dst: seq<byte>, maxFrame: nat)
    requires MeetsContract(c, maxFrame) && 0 < maxFrame < TWO_63 && |dst| < TWO_63
    requires PatchFor(c, src, dst, maxFrame).Some?
    ensures var p := PatchFor(c, src, dst, maxFrame).value;
      var frames := AllFrames(c, AllRecords(src, dst), maxFrame);
      HasHeader(p, |dst|, maxFrame, Largest(frames, 0)) && Largest(frames, 0) <= maxFrame
  {
    hide MeetsContract, RecordsBytes, LongestFrame, AllFrames, AllRecords, Largest, HeaderBytes;
    var recs := AllRecords(src, dst);
    LongestFits(c, recs, maxFrame, 0);
    LongestIsLargest(c, recs, maxFrame, 0);
    HeaderFields(|dst|, maxFrame, LongestFrame(c, recs, maxFrame, 0), RecordsBytes(c, recs, maxFrame).value);
  }

  // Every number in a record is bounded by the size of one of the files.
  lemma {:induction false} RecordsWithinFiles(src: seq<byte>, dst: seq<byte>, recs: seq<Record>, cursor: int,
                                              done: nat, k: nat)
    requires Chained(src, dst, recs, cursor, done) && k < |recs|
    ensures |recs[k].diff| + |recs[k].extra| <= |dst| && -|src| <= recs[k].jump <= |src|
    decreases k
  {
    hide Sum;
    var r := recs[0];
    if k > 0 {
      RecordsWithinFiles(src, dst, recs[1..], cursor + |r.diff| + r.jump, done + |r.diff| + |r.extra|, k - 1);
    } else {
      ChainHead(src, dst, recs, cursor, done);
    }
  }

  // No old file below 2^48 bytes makes for a longer jump.
  lemma SmallFilesReadable(src: seq<byte>, dst: seq<byte>)
    requires |src| < OLD_LIMIT
    ensures AllReadable(AllRecords(src, dst))
  {
    hide Chained, RecordsFrom;
    var recs := AllRecords(src, dst);
    AllRecordsChain(src, dst);
    forall k | 0 <= k < |recs|
      ensures Readable(recs[k].jump)
    {
      RecordsWithinFiles(src, dst, recs, 0, 0, k);
    }
  }

  // ----- The theorem is not vacuous -----

  // A codec that only stores bytes never fails, so with it every patch can be
  // written and applied.
  lemma {:induction false} StoredRecords(recs: seq<Record>, maxFrame: nat)
    requires MeetsContract(Stored(), maxFrame) && maxFrame > 0
    ensures RecordsBytes(Stored(), recs, maxFrame).Some?
    decreases |recs|
  {
    hide MeetsContract, Frames;
    if recs != [] {
      StoredFrames(recs[0].diff, maxFrame);
      StoredFrames(recs[0].extra, maxFrame);
      StoredRecords(recs[1..], maxFrame);
    }
  }

  lemma StoredPatch(src: seq<byte>, dst: seq<byte>, maxFrame: nat)
    requires maxFrame > 0
    ensures MeetsContract(Stored(), maxFrame) && PatchFor(Stored(), src, dst, maxFrame).Some?
  {
    hide MeetsContract, RecordsBytes, RecordsFrom;
    StoredMeetsContract(maxFrame);
    StoredRecords(AllRecords(src, dst), maxFrame);
  }

  lemma StoredRoundTrip(src: seq<byte>, dst: seq<byte>, maxFrame: nat)
    requires |src| < OLD_LIMIT && 0 < |dst| < INT_LIMIT && 64 <= maxFrame < INT_LIMIT
    ensures MeetsContract(Stored(), maxFrame) && PatchFor(Stored(), src, dst, maxFrame).Some?
    ensures ApplyPatch(Stored(), 0, src, PatchFor(Stored(), src, dst, maxFrame).value) == Patched(dst)
  {
    hide MeetsContract, RecordsBytes, RecordsFrom, ApplyPatch, AllReadable, PatchFor;
    StoredPatch(src, dst, maxFrame);
    SmallFilesReadable(src, dst);
    PatchRoundTrip(Stored(), 0, src, dst, maxFrame);
  }
}
