// writedeCompressBuffer: a buffer written as a series of compressed frames,
// each preceded by its length as a varint.
module Framing {
  import opened Bytes
  import opened Varint
  import opened Compression

  // The patch file: everything written so far.
  class PatchFile {
    var data: seq<byte>

    constructor ()
      ensures data == []
    {
      data := [];
    }

    // Append bytes, as fwrite at the end of the file does.
    method Write(bytes: seq<byte>)
      modifies this
      ensures data == old(data) + bytes
    {
      data := data + bytes;
    }

    // Overwrite bytes at a position inside the file, as fseek and fwrite do.
    method WriteAt(at: nat, bytes: seq<byte>)
      requires at + |bytes| <= |data|
      modifies this
      ensures data == Overwrite(old(data), at, bytes)
    {
      data := Overwrite(data, at, bytes);
    }
  }

  // The part of the buffer one call of the compressor is offered.
  function Offered(buffer: seq<byte>, maxFrame: nat): (r: seq<byte>) {
    if |buffer| <= maxFrame then buffer else buffer[..maxFrame]
  }

  // The frames a buffer becomes, or nothing if the compressor fails on one.
  ghost function Frames(c: Codec, buffer: seq<byte>, maxFrame: nat): Option<seq<seq<byte>>>
    requires MeetsContract(c, maxFrame) && maxFrame > 0
    decreases |buffer|
  {
    if buffer == [] then Some([])
    else
      assert PacksWell(c, Offered(buffer, maxFrame), maxFrame);
      var p := c.compress(Offered(buffer, maxFrame), maxFrame);
      if p.output == [] then None
      else
        match Frames(c, buffer[p.consumed..], maxFrame)
        case None => None
        case Some(rest) => Some([p.output] + rest)
  }

  // The frames are what successive calls of the compressor make of the buffer.
  // A call is offered the front of what is left: all of it, or as much as the
  // frame size if more is left.
  ghost predicate IsFraming(c: Codec, buffer: seq<byte>, maxFrame: nat, frames: seq<seq<byte>>)
    decreases |frames|
  {
    if frames == [] then buffer == []
    else
      var p := c.compress(buffer[..Min(|buffer|, maxFrame)], maxFrame);
      && buffer != [] && frames[0] == p.output != [] && p.consumed <= |buffer|
      && IsFraming(c, buffer[p.consumed..], maxFrame, frames[1..])
  }

  lemma {:induction false} FramesAreCalls(c: Codec, buffer: seq<byte>, maxFrame: nat, frames: seq<seq<byte>>)
    requires MeetsContract(c, maxFrame) && maxFrame > 0
    ensures Frames(c, buffer, maxFrame) == Some(frames) <==> IsFraming(c, buffer, maxFrame, frames)
    decreases |buffer|
  {
    if buffer != [] {
      var offered := Offered(buffer, maxFrame);
      assert offered == buffer[..Min(|buffer|, maxFrame)];
      assert PacksWell(c, offered, maxFrame);
      var p := c.compress(offered, maxFrame);
      if frames != [] && p.output != [] {
        FramesAreCalls(c, buffer[p.consumed..], maxFrame, frames[1..]);
        assert frames == [frames[0]] + frames[1..];
      }
    }
  }

  // A compressor that stores bytes cuts the buffer into pieces of the frame
  // size, the last one being what is left: frame k starts at k * maxFrame, and
  // there are as many as it takes.
  lemma {:induction false} StoredFrames(buffer: seq<byte>, maxFrame: nat)
    requires MeetsContract(Stored(), maxFrame) && maxFrame > 0
    ensures Frames(Stored(), buffer, maxFrame).Some?
    ensures var n := |Frames(Stored(), buffer, maxFrame).value|;
      (n - 1) * maxFrame < |buffer| <= n * maxFrame
    decreases |buffer|
  {
    hide MeetsContract;
    if buffer != [] {
      var rest := StoredFront(buffer, maxFrame);
      StoredFrames(rest, maxFrame);
      var n := |Frames(Stored(), rest, maxFrame).value|;
      NextMultiple(n, maxFrame);
      NextMultiple(n - 1, maxFrame);
    }
  }

  lemma {:induction false} StoredFrameAt(buffer: seq<byte>, maxFrame: nat, k: nat)
    requires MeetsContract(Stored(), maxFrame) && maxFrame > 0 && Frames(Stored(), buffer, maxFrame).Some?
    requires k < |Frames(Stored(), buffer, maxFrame).value|
    ensures 0 <= k * maxFrame < |buffer|
    ensures Frames(Stored(), buffer, maxFrame).value[k]
         == buffer[k * maxFrame..Min(|buffer|, (k + 1) * maxFrame)]
    decreases k
  {
    hide MeetsContract, Frames;
    NoFrames(Stored(), maxFrame);
    var rest := StoredFront(buffer, maxFrame);
    NextMultiple(k, maxFrame);
    NextMultiple(k - 1, maxFrame);
    if k > 0 {
      StoredFrameAt(rest, maxFrame, k - 1);
      var at, end := (k - 1) * maxFrame, Min(|rest|, k * maxFrame);
      assert rest[at..end] == buffer[maxFrame + at..maxFrame + end];
    }
  }

  lemma NoFrames(c: Codec, maxFrame: nat)
    requires MeetsContract(c, maxFrame) && maxFrame > 0
    ensures Frames(c, [], maxFrame) == Some([])
  {
  }

  lemma NextMultiple(k: int, m: nat)
    ensures (k + 1) * m == k * m + m
  {
  }

  // The first piece, and what is left after it.
  lemma StoredFront(buffer: seq<byte>, maxFrame: nat) returns (rest: seq<byte>)
    requires MeetsContract(Stored(), maxFrame) && maxFrame > 0 && buffer != []
    ensures rest == buffer[Min(|buffer|, maxFrame)..]
    ensures Frames(Stored(), buffer, maxFrame) ==
      match Frames(Stored(), rest, maxFrame)
      case None => None
      case Some(frames) => Some([buffer[..Min(|buffer|, maxFrame)]] + frames)
  {
    rest := buffer[Min(|buffer|, maxFrame)..];
    var p := Stored().compress(Offered(buffer, maxFrame), maxFrame);
    assert p == Packed(Min(|buffer|, maxFrame), buffer[..Min(|buffer|, maxFrame)]);
  }

  function FrameBytes(frames: seq<seq<byte>>): seq<byte> {
    if frames == [] then [] else Uleb(|frames[0]|) + frames[0] + FrameBytes(frames[1..])
  }

  // The larger of seen and the longest frame.
  function Largest(frames: seq<seq<byte>>, seen: nat): (m: nat)
    ensures m >= seen && (forall f :: f in frames ==> |f| <= m)
    ensures m == seen || exists f :: f in frames && |f| == m
  {
    if frames == [] then seen
    else Largest(frames[1..], if |frames[0]| > seen then |frames[0]| else seen)
  }

  // No frame is empty or longer than the frame size.
  lemma {:induction false} FramesFit(c: Codec, buffer: seq<byte>, maxFrame: nat)
    requires MeetsContract(c, maxFrame) && maxFrame > 0 && Frames(c, buffer, maxFrame).Some?
    ensures forall f :: f in Frames(c, buffer, maxFrame).value ==> 1 <= |f| <= maxFrame
    decreases |buffer|
  {
    if buffer != [] {
      assert PacksWell(c, Offered(buffer, maxFrame), maxFrame);
      var p := c.compress(Offered(buffer, maxFrame), maxFrame);
      FramesFit(c, buffer[p.consumed..], maxFrame);
    }
  }

  lemma {:induction false} FrameBytesAppend(frames: seq<seq<byte>>, f: seq<byte>)
    ensures FrameBytes(frames + [f]) == FrameBytes(frames) + Uleb(|f|) + f
  {
    if frames == [] {
      assert FrameBytes([f]) == Uleb(|f|) + f + FrameBytes([f][1..]);
    } else {
      assert (frames + [f])[1..] == frames[1..] + [f];
      FrameBytesAppend(frames[1..], f);
    }
  }

  lemma {:induction false} LargestAppend(frames: seq<seq<byte>>, f: seq<byte>, seen: nat)
    ensures Largest(frames + [f], seen) == if |f| > Largest(frames, seen) then |f| else Largest(frames, seen)
    decreases |frames|
  {
    if frames == [] {
      assert (frames + [f])[1..] == [];
    } else {
      assert (frames + [f])[1..] == frames[1..] + [f];
      LargestAppend(frames[1..], f, if |frames[0]| > seen then |frames[0]| else seen);
    }
  }

  // The frames already written followed by those still to come.
  ghost function After(done: seq<seq<byte>>, rest: Option<seq<seq<byte>>>): Option<seq<seq<byte>>> {
    match rest case None => None case Some(frames) => Some(done + frames)
  }

  lemma FramesNext(c: Codec, left: seq<byte>, maxFrame: nat, done: seq<seq<byte>>)
    requires MeetsContract(c, maxFrame) && maxFrame > 0 && left != []
    ensures var p := c.compress(Offered(left, maxFrame), maxFrame);
      if p.output == [] then Frames(c, left, maxFrame) == None
      else
        && 1 <= p.consumed <= |left| && |p.output| <= maxFrame
        && After(done, Frames(c, left, maxFrame))
        == After(done + [p.output], Frames(c, left[p.consumed..], maxFrame))
  {
    assert PacksWell(c, Offered(left, maxFrame), maxFrame);
    var p := c.compress(Offered(left, maxFrame), maxFrame);
    if p.output != [] {
      var rest := Frames(c, left[p.consumed..], maxFrame);
      if rest.Some? {
        assert done + ([p.output] + rest.value) == (done + [p.output]) + rest.value;
      }
    }
  }

  lemma FramesOfNothing(c: Codec, maxFrame: nat, frames: Option<seq<seq<byte>>>, done: seq<seq<byte>>)
    requires MeetsContract(c, maxFrame) && maxFrame > 0
    ensures After([], frames) == frames
    ensures After(done, Frames(c, [], maxFrame)) == Some(done)
  {
    if frames.Some? {
      assert [] + frames.value == frames.value;
    }
    assert done + [] == done;
  }

  // Write the frames of buffer to the file and keep the running maximum.
  method WriteFrames(file: PatchFile, c: Codec, buffer: seq<byte>, seen: nat, maxFrame: nat)
    returns (ok: bool, largest: nat)
    requires MeetsContract(c, maxFrame) && 0 < maxFrame < 0x8000_0000 && |buffer| < 0x8000_0000
    modifies file
    ensures ok <==> Frames(c, buffer, maxFrame).Some?
    ensures ok ==> file.data == old(file.data) + FrameBytes(Frames(c, buffer, maxFrame).value)
    ensures ok ==> largest == Largest(Frames(c, buffer, maxFrame).value, seen)
  {
    hide Frames, FrameBytes, Largest, MeetsContract;
    ok, largest := true, seen;
    var written := 0;
    ghost var all, done := Frames(c, buffer, maxFrame), [];
    FramesOfNothing(c, maxFrame, all, done);
    NothingWritten(seen);
    assert buffer[0..] == buffer;
    while written != |buffer|
      invariant 0 <= written <= |buffer| && ok
      invariant file.data == old(file.data) + FrameBytes(done) && largest == Largest(done, seen)
      invariant all == After(done, Frames(c, buffer[written..], maxFrame))
      decreases |buffer| - written
    {
      var left := buffer[written..];
      var p := c.compress(Offered(left, maxFrame), maxFrame);
      FramesNext(c, left, maxFrame, done);
      if |p.output| == 0 {
        return false, largest;
      }
      WriteFrame(file, p.output);
      FrameBytesAppend(done, p.output);
      LargestAppend(done, p.output, seen);
      assert left[p.consumed..] == buffer[written + p.consumed..];
      done := done + [p.output];
      written := written + p.consumed;
      if |p.output| > largest {
        largest := |p.output|;
      }
    }
    assert buffer[written..] == [];
    FramesOfNothing(c, maxFrame, all, done);
  }

  lemma NothingWritten(seen: nat)
    ensures FrameBytes([]) == [] && Largest([], seen) == seen
  {
  }

  // One frame: its length, then its bytes.
  method WriteFrame(file: PatchFile, frame: seq<byte>)
    requires |frame| < 0x8000_0000
    modifies file
    ensures file.data == old(file.data) + (Uleb(|frame|) + frame)
  {
    var buf := new byte[8](_ => 0);
    SmallUleb(|frame|);
    ghost var before := buf[..];
    var n := EncodeUnsigned(|frame|, buf, 0, 8);
    assert buf[..n] == buf[..][0..0 + n];
    file.Write(buf[..n]);
    file.Write(frame);
  }

  lemma SmallUleb(v: nat)
    requires v < 0x8000_0000
    ensures |Uleb(v)| <= 5
  {
    assert Pow(128, 5) == 0x8_0000_0000;
    UlebLength(v, 5);
  }
}
