// The applier reads a patch as it arrives.  What it decides on the front of a
// patch is final, and a written patch is not complete before its last byte.
module Streaming {
  import opened Bytes
  import opened Varint
  import opened VarintDecoding
  import opened Compression
  import opened Header
  import opened Records
  import opened Applier
  import opened RoundTrip

  // part was read from the front of a patch, whole from all of it, which is y
  // longer: unless more is asked for, they agree, and y is left behind what the
  // front leaves.
  ghost predicate Final<T>(part: Read<T>, whole: Read<T>, y: seq<byte>) {
    match part
    case Stuck(e) => e == ReadPatchFailed || whole == part
    case Got(value, rest) => whole == Got(value, rest + y)
  }

  // ----- The readers -----

  lemma {:induction false} UnsignedIsFinal(x: seq<byte>, y: seq<byte>, acc: nat, count: nat)
    requires IsUint64(acc)
    ensures Final(ReadUnsigned(x, acc, count), ReadUnsigned(x + y, acc, count), y)
    decreases x
  {
    hide Merge;
    if x != [] {
      assert (x + y)[1..] == x[1..] + y;
      UnsignedIsFinal(x[1..], y, Merge(x[0], acc, count), count + 1);
    }
  }

  lemma {:induction false} SignedIsFinal(x: seq<byte>, y: seq<byte>, acc: int, count: nat)
    requires IsInt64(acc)
    ensures Final(ReadSigned(x, acc, count), ReadSigned(x + y, acc, count), y)
    decreases x
  {
    hide SignedMerge;
    if x != [] {
      assert (x + y)[1..] == x[1..] + y;
      SignedIsFinal(x[1..], y, SignedMerge(x[0], acc, count), count + 1);
    }
  }

  lemma ControlIsFinal(x: seq<byte>, y: seq<byte>)
    ensures Final(ReadControl(x), ReadControl(x + y), y)
  {
    hide ReadUnsigned, ReadSigned;
    UnsignedIsFinal(x, y, 0, 0);
    var d := ReadUnsigned(x, 0, 0);
    if d.Got? {
      UnsignedIsFinal(d.rest, y, 0, 0);
      var e := ReadUnsigned(d.rest, 0, 0);
      if e.Got? {
        SignedIsFinal(e.rest, y, 0, 0);
      }
    }
  }

  lemma FrameIsFinal(c: Codec, maxFrame: nat, x: seq<byte>, y: seq<byte>)
    ensures Final(ReadFrame(c, maxFrame, x), ReadFrame(c, maxFrame, x + y), y)
  {
    hide ReadUnsigned;
    UnsignedIsFinal(x, y, 0, 0);
    var n := ReadUnsigned(x, 0, 0);
    if n.Got? && n.value <= |n.rest| {
      assert (n.rest + y)[..n.value] == n.rest[..n.value];
      assert (n.rest + y)[n.value..] == n.rest[n.value..] + y;
    }
  }

  lemma {:induction false} DiffIsFinal(c: Codec, maxFrame: nat, src: seq<byte>, x: seq<byte>, y: seq<byte>,
                                       need: int, cursor: nat)
    ensures Final(ApplyDiff(c, maxFrame, src, x, need, cursor), ApplyDiff(c, maxFrame, src, x + y, need, cursor), y)
    decreases |x|
  {
    hide ReadFrame, Sum;
    if need > 0 {
      FrameIsFinal(c, maxFrame, x, y);
      var f := ReadFrame(c, maxFrame, x);
      if f.Got? {
        DiffIsFinal(c, maxFrame, src, f.rest, y, need - |f.value|, cursor + |f.value|);
      }
    }
  }

  lemma {:induction false} ExtraIsFinal(c: Codec, maxFrame: nat, x: seq<byte>, y: seq<byte>, need: int)
    ensures Final(ApplyExtra(c, maxFrame, x, need), ApplyExtra(c, maxFrame, x + y, need), y)
    decreases |x|
  {
    hide ReadFrame;
    if need > 0 {
      FrameIsFinal(c, maxFrame, x, y);
      var f := ReadFrame(c, maxFrame, x);
      if f.Got? {
        ExtraIsFinal(c, maxFrame, f.rest, y, need - |f.value|);
      }
    }
  }

  // ----- Whole patches -----

  // More of the patch changes no outcome other than the request for more.
  ghost predicate FinalOutcome(part: Outcome, whole: Outcome) {
    part == Failed(ReadPatchFailed) || whole == part
  }

  lemma {:induction false} RecordsAreFinal(c: Codec, maxFrame: nat, src: seq<byte>, newSize: nat, x: seq<byte>,
                                           y: seq<byte>, w: Work)
    ensures FinalOutcome(ApplyRecords(c, maxFrame, src, newSize, x, w),
                         ApplyRecords(c, maxFrame, src, newSize, x + y, w))
    decreases |x|
  {
    hide ReadControl, ApplyDiff, ApplyExtra;
    ControlIsFinal(x, y);
    var k := ReadControl(x);
    if k.Got? && w.newpos + k.value.diffLen <= newSize {
      DiffIsFinal(c, maxFrame, src, k.rest, y, k.value.diffLen, w.cursor);
      var p := ApplyDiff(c, maxFrame, src, k.rest, k.value.diffLen, w.cursor);
      if p.Got? {
        ExtraIsFinal(c, maxFrame, p.rest, y, k.value.extraLen);
        var e := ApplyExtra(c, maxFrame, p.rest, k.value.extraLen);
        var cursor := p.value.cursor + k.value.jump;
        if e.Got? && cursor >= 0 {
          var next := Work(w.file + p.value.bytes + e.value, w.newpos + k.value.diffLen + k.value.extraLen, cursor);
          RecordsAreFinal(c, maxFrame, src, newSize, e.rest, y, next);
        }
      }
    }
  }

  lemma FrontHeader(x: seq<byte>, y: seq<byte>)
    requires |x| >= HEADER_LEN
    ensures var p := x + y;
      && p[..16] == x[..16] && p[16..24] == x[16..24] && p[24..32] == x[24..32]
      && p[HEADER_LEN..] == x[HEADER_LEN..] + y
  {
  }

  // Whatever patch is applied: once its front makes the applier finish or fail,
  // what follows makes no difference.
  lemma OutcomeIsFinal(c: Codec, memory: nat, src: seq<byte>, x: seq<byte>, y: seq<byte>)
    ensures FinalOutcome(ApplyPatch(c, memory, src, x), ApplyPatch(c, memory, src, x + y))
  {
    hide ApplyRecords, Offtin;
    if |x| >= HEADER_LEN {
      FrontHeader(x, y);
      var newSize, maxFrame := Offtin(x[16..24]), Offtin(x[24..32]);
      if newSize >= 0 && maxFrame >= 0 {
        RecordsAreFinal(c, maxFrame, src, newSize, x[HEADER_LEN..], y, Work([], 0, 0));
      }
    }
  }

  // ----- Written patches -----

  // A front that ends inside the record: the applier asks for more, or has read
  // the record and is left with the front of what follows.
  lemma FrontOfRecord(c: Codec, maxFrame: nat, src: seq<byte>, r: Record, cursor: nat, x: seq<byte>, y: seq<byte>,
                      tail: seq<byte>)
    requires MeetsContract(c, maxFrame) && 0 < maxFrame < INT_LIMIT && RecordBytes(c, r, maxFrame).Some?
    requires |r.diff| < INT_LIMIT && |r.extra| < INT_LIMIT && Readable(r.jump)
    requires cursor + |r.diff| <= |src|
    requires x + y == RecordBytes(c, r, maxFrame).value + tail
    ensures var k := ReadControl(x);
      if k.Stuck? then k.error == ReadPatchFailed
      else
        && k.value == Control(|r.diff|, |r.extra|, r.jump)
        && var p := ApplyDiff(c, maxFrame, src, k.rest, |r.diff|, cursor);
           if p.Stuck? then p.error == ReadPatchFailed
           else
             && p.value == Piece(Sum(src, cursor, r.diff), cursor + |r.diff|)
             && var e := ApplyExtra(c, maxFrame, p.rest, |r.extra|);
                if e.Stuck? then e.error == ReadPatchFailed else e.value == r.extra && e.rest + y == tail
  {
    hide MeetsContract, RecordBytes, ReadControl, ApplyDiff, ApplyExtra, Sum;
    ReadsRecord(c, maxFrame, src, r, cursor, tail);
    ControlIsFinal(x, y);
    var k := ReadControl(x);
    if k.Got? {
      DiffIsFinal(c, maxFrame, src, k.rest, y, |r.diff|, cursor);
      var p := ApplyDiff(c, maxFrame, src, k.rest, |r.diff|, cursor);
      if p.Got? {
        ExtraIsFinal(c, maxFrame, p.rest, y, |r.extra|);
      }
    }
  }

  lemma {:induction false} FrontOfChain(c: Codec, maxFrame: nat, src: seq<byte>, dst: seq<byte>, recs: seq<Record>,
                                        cursor: nat, done: nat, x: seq<byte>, y: seq<byte>)
    requires MeetsContract(c, maxFrame) && InRange(src, dst, maxFrame) && AllReadable(recs)
    requires Chained(src, dst, recs, cursor, done) && recs != [] && RecordsBytes(c, recs, maxFrame).Some?
    requires x + y == RecordsBytes(c, recs, maxFrame).value && y != []
    ensures ApplyRecords(c, maxFrame, src, |dst|, x, Work(dst[..done], done, cursor)) == Failed(ReadPatchFailed)
    decreases |recs|
  {
    hide MeetsContract, Chained, RecordBytes, ReadControl, ApplyDiff, Sum, Readable;
    var r := recs[0];
    ChainHead(src, dst, recs, cursor, done);
    var tail := RecordsBytes(c, recs[1..], maxFrame).value;
    FrontOfRecord(c, maxFrame, src, r, cursor, x, y, tail);
    var k := ReadControl(x);
    if k.Got? {
      var p := ApplyDiff(c, maxFrame, src, k.rest, |r.diff|, cursor);
      if p.Got? {
        var e := ApplyExtra(c, maxFrame, p.rest, |r.extra|);
        if e.Got? {
          assert tail != [];
          assert dst[..done] + p.value.bytes + e.value == dst[..done + |r.diff| + |r.extra|];
          FrontOfChain(c, maxFrame, src, dst, recs[1..], cursor + |r.diff| + r.jump,
                       done + |r.diff| + |r.extra|, e.rest, y);
        }
      }
    }
  }

  // A written patch that would be applied is complete only with its last byte:
  // on every shorter front the applier asks for more.
  lemma FrontOfPatch(c: Codec, memory: nat, src: seq<byte>, dst: seq<byte>, maxFrame: nat, x: seq<byte>, y: seq<byte>)
    requires MeetsContract(c, maxFrame) && InRange(src, dst, maxFrame)
    requires 64 <= maxFrame && (memory == 0 || memory >= 2 * maxFrame)
    requires dst != [] && AllReadable(AllRecords(src, dst))
    requires PatchFor(c, src, dst, maxFrame) == Some(x + y) && y != []
    ensures ApplyPatch(c, memory, src, x) == Failed(ReadPatchFailed)
  {
    hide MeetsContract, ApplyRecords, AllRecords, RecordsBytes, LongestFrame, HeaderBytes, Offtin, AllReadable;
    var recs := AllRecords(src, dst);
    if |x| >= HEADER_LEN {
      LongestFits(c, recs, maxFrame, 0);
      HeaderFields(|dst|, maxFrame, LongestFrame(c, recs, maxFrame, 0), RecordsBytes(c, recs, maxFrame).value);
      FrontHeader(x, y);
      FrontOfRun(c, src, dst, maxFrame, x[HEADER_LEN..], y);
    }
  }

  lemma FrontOfRun(c: Codec, src: seq<byte>, dst: seq<byte>, maxFrame: nat, x: seq<byte>, y: seq<byte>)
    requires MeetsContract(c, maxFrame) && InRange(src, dst, maxFrame)
    requires dst != [] && AllReadable(AllRecords(src, dst))
    requires RecordsBytes(c, AllRecords(src, dst), maxFrame) == Some(x + y) && y != []
    ensures ApplyRecords(c, maxFrame, src, |dst|, x, Work([], 0, 0)) == Failed(ReadPatchFailed)
  {
    hide MeetsContract, Chained, ApplyRecords, AllRecords, RecordsBytes, AllReadable;
    var recs := AllRecords(src, dst);
    AllRecordsChain(src, dst);
    ChainCoversNewFile(src, dst, recs, 0, 0);
    assert dst[..0] == [];
    FrontOfChain(c, maxFrame, src, dst, recs, 0, 0, x, y);
  }
}
