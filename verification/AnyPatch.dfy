// What the applier does with patches it is given, whoever made them: the size
// of the file it writes, and the header field it does not look at.
module AnyPatch {
  import opened Bytes
  import opened Varint
  import opened VarintDecoding
  import opened Compression
  import opened Header
  import opened Records
  import opened Applier

  // ----- The size of the file written -----

  // The frames of a part end with the part: none holds more bytes than the
  // part still needs.
  predicate PartFits(c: Codec, maxFrame: nat, patch: seq<byte>, need: int)
    decreases |patch|
  {
    need <= 0 ||
    match ReadFrame(c, maxFrame, patch)
    case Stuck(_) => true
    case Got(bytes, rest) => |bytes| <= need && PartFits(c, maxFrame, rest, need - |bytes|)
  }

  // So does every part up to the one that completes the new file.
  predicate PartsFit(c: Codec, maxFrame: nat, newSize: nat, patch: seq<byte>, newpos: nat)
    decreases |patch|
  {
    match ReadControl(patch)
    case Stuck(_) => true
    case Got(k, rest) =>
      var mid := newpos + k.diffLen;
      && PartFits(c, maxFrame, rest, k.diffLen)
      && match ApplyExtra(c, maxFrame, rest, k.diffLen)
         case Stuck(_) => true
         case Got(_, rest') =>
           || (k.diffLen > 0 && Complete(newSize, mid))
           || (&& PartFits(c, maxFrame, rest', k.extraLen)
               && match ApplyExtra(c, maxFrame, rest', k.extraLen)
                  case Stuck(_) => true
                  case Got(_, end) =>
                    || Complete(newSize, mid + k.extraLen)
                    || PartsFit(c, maxFrame, newSize, end, mid + k.extraLen))
  }

  // A part yields at least the bytes it needs, and just those if it fits.
  lemma {:induction false} ExtraSize(c: Codec, maxFrame: nat, patch: seq<byte>, need: nat)
    requires ApplyExtra(c, maxFrame, patch, need).Got?
    ensures var n := |ApplyExtra(c, maxFrame, patch, need).value|;
      n >= need && (n == need <==> PartFits(c, maxFrame, patch, need))
    decreases |patch|
  {
    hide ReadFrame;
    if need > 0 {
      var f := ReadFrame(c, maxFrame, patch);
      if |f.value| <= need {
        ExtraSize(c, maxFrame, f.rest, need - |f.value|);
      } else {
        assert ApplyExtra(c, maxFrame, f.rest, need - |f.value|) == Got([], f.rest);
      }
    }
  }

  // The diff part takes the same frames as an extra part would, and yields as
  // many bytes.
  lemma {:induction false} DiffReadsLikeExtra(c: Codec, maxFrame: nat, src: seq<byte>, patch: seq<byte>, need: int,
                                              cursor: nat)
    requires ApplyDiff(c, maxFrame, src, patch, need, cursor).Got?
    ensures var p := ApplyDiff(c, maxFrame, src, patch, need, cursor);
      var x := ApplyExtra(c, maxFrame, patch, need);
      x.Got? && x.rest == p.rest && |x.value| == |p.value.bytes| && p.value.cursor == cursor + |x.value|
    decreases |patch|
  {
    hide ReadFrame, Sum;
    if need > 0 {
      var f := ReadFrame(c, maxFrame, patch);
      DiffReadsLikeExtra(c, maxFrame, src, f.rest, need - |f.value|, cursor + |f.value|);
    }
  }

  // A patch that is applied adds at least the bytes still missing, and just
  // those if and only if every part fits.
  lemma {:induction false} AppliedSizeFrom(c: Codec, maxFrame: nat, src: seq<byte>, newSize: nat, patch: seq<byte>,
                                           w: Work)
    requires w.newpos <= newSize && w.newpos <= |w.file|
    requires ApplyRecords(c, maxFrame, src, newSize, patch, w).Patched?
    ensures var added := |ApplyRecords(c, maxFrame, src, newSize, patch, w).file| - |w.file|;
      && added >= newSize - w.newpos
      && (added == newSize - w.newpos <==> PartsFit(c, maxFrame, newSize, patch, w.newpos))
    decreases |patch|
  {
    hide ReadControl, ApplyDiff, ApplyExtra, PartFits;
    var k := ReadControl(patch);
    var p := ApplyDiff(c, maxFrame, src, k.rest, k.value.diffLen, w.cursor);
    DiffReadsLikeExtra(c, maxFrame, src, k.rest, k.value.diffLen, w.cursor);
    ExtraSize(c, maxFrame, k.rest, k.value.diffLen);
    var mid := w.newpos + k.value.diffLen;
    if !(k.value.diffLen > 0 && Complete(newSize, mid)) {
      var x := ApplyExtra(c, maxFrame, p.rest, k.value.extraLen);
      ExtraSize(c, maxFrame, p.rest, k.value.extraLen);
      if !Complete(newSize, mid + k.value.extraLen) {
        var next := Work(w.file + p.value.bytes + x.value, mid + k.value.extraLen, p.value.cursor + k.value.jump);
        AppliedSizeFrom(c, maxFrame, src, newSize, x.rest, next);
      }
    }
  }

  // Any patch that is applied has a header in order, and gives a file of at
  // least the size the header promises, and of exactly that size if and only if
  // no part's frames hold more than the part needs.
  lemma AppliedSize(c: Codec, memory: nat, src: seq<byte>, patch: seq<byte>)
    requires ApplyPatch(c, memory, src, patch).Patched?
    ensures |patch| >= HEADER_LEN && patch[..16] == MAGIC
    ensures var file, newSize, maxFrame :=
        ApplyPatch(c, memory, src, patch).file, Offtin(patch[16..24]), Offtin(patch[24..32]);
      && 0 < newSize <= UINT32_MAX && 64 <= maxFrame <= UINT32_MAX && (memory == 0 || 2 * maxFrame <= memory)
      && |file| >= newSize
      && (|file| == newSize <==> PartsFit(c, maxFrame, newSize, patch[HEADER_LEN..], 0))
  {
    hide Offtin, ApplyRecords, PartsFit;
    var newSize, maxFrame := Offtin(patch[16..24]), Offtin(patch[24..32]);
    AppliedSizeFrom(c, maxFrame, src, newSize, patch[HEADER_LEN..], Work([], 0, 0));
    EmptyIsNeverDone(c, maxFrame, src, patch[HEADER_LEN..], Work([], 0, 0));
  }

  // No patch for an empty new file is ever finished.
  lemma {:induction false} EmptyIsNeverDone(c: Codec, maxFrame: nat, src: seq<byte>, patch: seq<byte>, w: Work)
    ensures ApplyRecords(c, maxFrame, src, 0, patch, w).Failed?
    decreases |patch|
  {
    hide ReadControl, ApplyDiff, ApplyExtra;
    match ReadControl(patch)
    case Stuck(e) =>
    case Got(k, rest) =>
      match ApplyDiff(c, maxFrame, src, rest, k.diffLen, w.cursor)
      case Stuck(e) =>
      case Got(p, rest') =>
        match ApplyExtra(c, maxFrame, rest', k.extraLen)
        case Stuck(e) =>
        case Got(x, end) =>
          if p.cursor + k.jump >= 0 {
            EmptyIsNeverDone(c, maxFrame, src, end,
                       Work(w.file + p.bytes + x, w.newpos + k.diffLen + k.extraLen, p.cursor + k.jump));
          }
  }

  // A literal part of length 1 whose frame holds two bytes.
  const TWO_FOR_ONE: seq<byte> := [0, 1, 0, 2, 5, 6]

  lemma ReadsTwoForOne()
    ensures ReadControl(TWO_FOR_ONE) == Got(Control(0, 1, 0), TWO_FOR_ONE[3..])
    ensures ReadFrame(Stored(), 64, TWO_FOR_ONE[3..]) == Got([5, 6], [])
  {
    hide Merge, SignedMerge;
    var body := TWO_FOR_ONE;
    assert Merge(0, 0, 0) == 0 && Merge(1, 0, 0) == 1 && Merge(2, 0, 0) == 2 && SignedMerge(0, 0, 0) == 0 by {
      SmallGroups();
    }
    assert ReadUnsigned(body, 0, 0) == Got(0, body[1..]);
    assert ReadUnsigned(body[1..], 0, 0) == Got(1, body[2..]);
    assert ReadSigned(body[2..], 0, 0) == Got(0, body[3..]);
    assert ReadUnsigned(body[3..], 0, 0) == Got(2, body[4..]);
    assert body[4..][..2] == [5, 6] && body[4..][2..] == [];
  }

  lemma SmallGroups()
    ensures Merge(0, 0, 0) == 0 && Merge(1, 0, 0) == 1 && Merge(2, 0, 0) == 2 && SignedMerge(0, 0, 0) == 0
  {
    MergeAdds(0, 0, 0);
    MergeAdds(1, 0, 0);
    MergeAdds(2, 0, 0);
  }

  // A patch that promises one byte and gives two.
  lemma SizeCanBeExceeded()
    ensures ApplyPatch(Stored(), 0, [], HeaderBytes(1, 64, 0) + TWO_FOR_ONE) == Patched([5, 6])
  {
    hide HeaderBytes, Offtin, ReadControl, ReadFrame;
    HeaderFields(1, 64, 0, TWO_FOR_ONE);
    ReadsTwoForOne();
    assert ApplyDiff(Stored(), 64, [], TWO_FOR_ONE[3..], 0, 0) == Got(Piece([], 0), TWO_FOR_ONE[3..]);
    var two: seq<byte> := [5, 6];
    assert ApplyExtra(Stored(), 64, [], 1 - |two|) == Got([], []) && two + [] == two;
    assert ApplyExtra(Stored(), 64, TWO_FOR_ONE[3..], 1) == Got(two, []);
  }

  // ----- The header -----

  // What the applier makes of the first 40 bytes: the sizes must fit 32 bits, a
  // frame must be able to hold 64 bytes, and two frames must fit the memory.
  lemma HeaderDecides(c: Codec, memory: nat, src: seq<byte>, patch: seq<byte>)
    ensures |patch| < 40 ==> ApplyPatch(c, memory, src, patch) == Failed(ReadPatchFailed)
    ensures |patch| >= 40 ==>
      var newSize, maxFrame := Offtin(patch[16..24]), Offtin(patch[24..32]);
      ApplyPatch(c, memory, src, patch) ==
      if patch[..16] != MAGIC || !(0 <= newSize < 0x1_0000_0000) || !(64 <= maxFrame < 0x1_0000_0000)
      then Failed(CorruptedPatch)
      else if 0 < memory < 2 * maxFrame then Failed(OutOfMemory)
      else ApplyRecords(c, maxFrame, src, newSize, patch[40..], Work([], 0, 0))
  {
    hide Offtin, ApplyRecords;
  }

  // The third field makes no difference, whatever bytes it holds.
  lemma ThirdFieldUnread(c: Codec, memory: nat, src: seq<byte>, patch: seq<byte>, field: seq<byte>)
    requires |patch| >= HEADER_LEN && |field| == 8
    ensures ApplyPatch(c, memory, src, Overwrite(patch, 32, field)) == ApplyPatch(c, memory, src, patch)
  {
    hide Offtin, ApplyRecords;
    var other := Overwrite(patch, 32, field);
    assert other[..16] == patch[..16] && other[16..24] == patch[16..24] && other[24..32] == patch[24..32];
    assert other[HEADER_LEN..] == patch[HEADER_LEN..];
  }
}
