// The patch applier, bspatch.c: what its event machine does to a patch when
// every callback completes at once.  The patch is read front to back; the old
// file is read and repositioned relative to a cursor.
module Applier {
  import opened Bytes
  import opened Varint
  import opened VarintDecoding
  import opened Compression
  import opened Header
  import opened Records

  const UINT32_MAX := 0xFFFF_FFFF

  datatype Error = CorruptedPatch | OutOfMemory | ReadPatchFailed | ReadOldFailed | SeekOldFailed

  datatype Outcome = Patched(file: seq<byte>) | Failed(error: Error)

  datatype Read<T> = Got(value: T, rest: seq<byte>) | Stuck(error: Error)

  // Read a varint byte by byte.  Eight bytes are too many, even when the
  // eighth completes the number.
  function ReadUnsigned(patch: seq<byte>, acc: nat, count: nat): Read<nat>
    requires IsUint64(acc)
    decreases patch
  {
    if patch == [] then Stuck(ReadPatchFailed)
    else if count + 1 >= 8 then Stuck(CorruptedPatch)
    else
      var value := Merge(patch[0], acc, count);
      if CodeOf(patch[0]).Completed? then Got(value, patch[1..])
      else ReadUnsigned(patch[1..], value, count + 1)
  }

  function ReadSigned(patch: seq<byte>, acc: int, count: nat): Read<int>
    requires IsInt64(acc)
    decreases patch
  {
    if patch == [] then Stuck(ReadPatchFailed)
    else if count + 1 >= 8 then Stuck(CorruptedPatch)
    else
      var value := SignedMerge(patch[0], acc, count);
      if CodeOf(patch[0]).Completed? then Got(value, patch[1..])
      else ReadSigned(patch[1..], value, count + 1)
  }

  // Read and decompress one frame into a buffer of maxFrame bytes.
  function ReadFrame(c: Codec, maxFrame: nat, patch: seq<byte>): (r: Read<seq<byte>>)
    ensures r.Got? ==> |r.rest| < |patch| && r.value != []
  {
    ReadShortens(patch, 0, 0);
    match ReadUnsigned(patch, 0, 0)
    case Stuck(e) => Stuck(e)
    case Got(len, rest) =>
      if len > maxFrame then Stuck(CorruptedPatch)
      else if len > |rest| then Stuck(ReadPatchFailed)
      else
        match c.decompress(rest[..len], maxFrame)
        case None => Stuck(CorruptedPatch)
        case Some(bytes) => if bytes == [] then Stuck(CorruptedPatch) else Got(bytes, rest[len..])
  }

  lemma {:induction false} ReadShortens(patch: seq<byte>, acc: nat, count: nat)
    requires IsUint64(acc)
    ensures ReadUnsigned(patch, acc, count).Got? ==> |ReadUnsigned(patch, acc, count).rest| < |patch|
    decreases patch
  {
    if patch != [] && count + 1 < 8 {
      ReadShortens(patch[1..], Merge(patch[0], acc, count), count + 1);
    }
  }

  lemma {:induction false} ReadSignedShortens(patch: seq<byte>, acc: int, count: nat)
    requires IsInt64(acc)
    ensures ReadSigned(patch, acc, count).Got? ==> |ReadSigned(patch, acc, count).rest| < |patch|
    decreases patch
  {
    if patch != [] && count + 1 < 8 {
      ReadSignedShortens(patch[1..], SignedMerge(patch[0], acc, count), count + 1);
    }
  }

  // The bytes added to the new file and where the old file's cursor then is.
  datatype Piece = Piece(bytes: seq<byte>, cursor: nat)

  // Frames of differences until need bytes are there: each is added to the
  // bytes of the old file at the cursor.
  function ApplyDiff(c: Codec, maxFrame: nat, src: seq<byte>, patch: seq<byte>, need: int,
                     cursor: nat): (r: Read<Piece>)
    ensures r.Got? ==> |r.rest| <= |patch|
    decreases |patch|
  {
    if need <= 0 then Got(Piece([], cursor), patch)
    else
      match ReadFrame(c, maxFrame, patch)
      case Stuck(e) => Stuck(e)
      case Got(diff, rest) =>
        if cursor + |diff| > |src| then Stuck(ReadOldFailed)
        else
          match ApplyDiff(c, maxFrame, src, rest, need - |diff|, cursor + |diff|)
          case Stuck(e) => Stuck(e)
          case Got(p, end) => Got(Piece(Sum(src, cursor, diff) + p.bytes, p.cursor), end)
  }

  // Frames of literal bytes until need bytes are there.
  function ApplyExtra(c: Codec, maxFrame: nat, patch: seq<byte>, need: int): (r: Read<seq<byte>>)
    ensures r.Got? ==> |r.rest| <= |patch|
    decreases |patch|
  {
    if need <= 0 then Got([], patch)
    else
      match ReadFrame(c, maxFrame, patch)
      case Stuck(e) => Stuck(e)
      case Got(bytes, rest) =>
        match ApplyExtra(c, maxFrame, rest, need - |bytes|)
        case Stuck(e) => Stuck(e)
        case Got(more, end) => Got(bytes + more, end)
  }

  // The control numbers of a record.
  datatype Control = Control(diffLen: nat, extraLen: nat, jump: int)

  function ReadControl(patch: seq<byte>): (r: Read<Control>)
    ensures r.Got? ==> |r.rest| < |patch|
  {
    ReadShortens(patch, 0, 0);
    match ReadUnsigned(patch, 0, 0)
    case Stuck(e) => Stuck(e)
    case Got(d, rest) =>
      ReadShortens(rest, 0, 0);
      match ReadUnsigned(rest, 0, 0)
      case Stuck(e) => Stuck(e)
      case Got(x, rest') =>
        ReadSignedShortens(rest', 0, 0);
        match ReadSigned(rest', 0, 0)
        case Stuck(e) => Stuck(e)
        case Got(j, end) => Got(Control(d, x, j), end)
  }

  // The files while a patch is applied: the new file so far, how many of its
  // bytes the records account for, and the old file's cursor.
  datatype Work = Work(file: seq<byte>, newpos: nat, cursor: nat)

  // Apply records until newSize bytes are accounted for, which is noticed
  // after the diff part and after the extra part of a record.
  function ApplyRecords(c: Codec, maxFrame: nat, src: seq<byte>, newSize: nat, patch: seq<byte>, w: Work): Outcome
    decreases |patch|
  {
    match ReadControl(patch)
    case Stuck(e) => Failed(e)
    case Got(k, rest) =>
      if w.newpos + k.diffLen > newSize then Failed(CorruptedPatch)
      else
        match ApplyDiff(c, maxFrame, src, rest, k.diffLen, w.cursor)
        case Stuck(e) => Failed(e)
        case Got(p, rest') =>
          var mid := w.newpos + k.diffLen;
          if k.diffLen > 0 && Complete(newSize, mid) then Patched(w.file + p.bytes)
          else if mid + k.extraLen > newSize then Failed(CorruptedPatch)
          else
            match ApplyExtra(c, maxFrame, rest', k.extraLen)
            case Stuck(e) => Failed(e)
            case Got(x, end) =>
              var file, newpos, cursor := w.file + p.bytes + x, mid + k.extraLen, p.cursor + k.jump;
              if Complete(newSize, newpos) then Patched(file)
              else if cursor < 0 then Failed(SeekOldFailed)
              else ApplyRecords(c, maxFrame, src, newSize, end, Work(file, newpos, cursor))
  }

  // An empty new file is never seen as complete.
  predicate Complete(newSize: nat, newpos: nat) {
    newSize != 0 && newpos >= newSize
  }

  // Check the header, then apply the records.  memory is the size of the
  // buffer space compiled in, or 0 if buffers are allocated on demand; two of
  // them must fit.  Both buffer sizes are read from the same header field.
  function ApplyPatch(c: Codec, memory: nat, src: seq<byte>, patch: seq<byte>): Outcome {
    if |patch| < HEADER_LEN then Failed(ReadPatchFailed)
    else if patch[..16] != MAGIC then Failed(CorruptedPatch)
    else
      var newSize, maxFrame := Offtin(patch[16..24]), Offtin(patch[24..32]);
      if !(0 <= newSize <= UINT32_MAX && 0 <= maxFrame <= UINT32_MAX) then Failed(CorruptedPatch)
      else if maxFrame < 64 then Failed(CorruptedPatch)
      else if 0 < memory < maxFrame + maxFrame then Failed(OutOfMemory)
      else ApplyRecords(c, maxFrame, src, newSize, patch[HEADER_LEN..], Work([], 0, 0))
  }
}
