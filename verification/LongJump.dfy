// Jumps of every size occur, so the limit of the applier on jumps is met by
// some inputs and the failing case of the round trip is a real one.
module LongJump {
  import opened Bytes
  import opened SuffixOrder
  import opened Search
  import opened Scan
  import opened Extension
  import opened Records
  import opened Compression
  import opened Applier
  import opened RoundTrip

  // An old file with its only useful byte at the end.
  function LateByte(n: nat): (src: seq<byte>) {
    seq<byte>(n, i => 0) + [1]
  }

  // The byte 1 is found at the end.
  lemma FindsLateByte(n: nat)
    ensures FindMatch(LateByte(n), [1], 0) == Match(1, n)
  {
    hide IsLcp;
    var src: seq<byte>, dst: seq<byte> := LateByte(n), [1];
    FindsNothing(src, dst, 0);
    assert src[n] == dst[0];
    var m := FindMatch(src, dst, 0);
    assert Lcp(src, m.pos, dst, 0) == m.len;
    hide Find, FindMatch;
  }

  // One byte more than the previous offset gives is not enough to stop at.
  lemma RunsOff(n: nat)
    requires n > 0
    ensures StopFrom(LateByte(n), [1], 0, 0, 0) == 1
  {
    hide FindMatch, Lcp;
    var src: seq<byte>, dst: seq<byte> := LateByte(n), [1];
    FindsLateByte(n);
    assert Reach(src, dst, 0, 0) == 1;
    assert Score(src, dst, 0, 0, 1) == Score(src, dst, 0, 0, 0);
    assert !Stops(src, dst, 0, 0, 0);
  }

  // Extending the start of the old file by a byte that differs does not pay.
  lemma NothingForward(n: nat)
    requires n > 0
    ensures ForwardLen(LateByte(n), [1], 0, 0, 1) == 0
  {
    var src: seq<byte>, dst: seq<byte> := LateByte(n), [1];
    var f := ForwardScores(src, dst, 0, 0, 1);
    assert f == [0, -1];
  }

  // The new file becomes one literal byte followed by a jump to the end.
  lemma JumpsFar(n: nat)
    requires n > 0
    ensures AllRecords(LateByte(n), [1]) == [Record([], [1], n)]
  {
    hide FindMatch, StopFrom, ForwardLen, LateByte;
    var src: seq<byte>, dst: seq<byte> := LateByte(n), [1];
    FindsLateByte(n);
    RunsOff(n);
    NothingForward(n);
    assert Scanned(src, dst, START) == Cursor(1, 1, n, 0, 0, 0);
    assert ExtentsAt(src, dst, 0, 0, 1, n) == Extents(0, 0);
    assert Difference(src, dst, 0, 0, 0) == [];
    assert RecordAt(src, dst, 0, 0, 1, n) == Record([], [1], n);
    assert Emitted(src, dst, START) == [Record([], [1], n)];
  }

  // So the limit is sharp: such a file of more than 2^48 bytes takes a patch
  // that cannot be applied, and every smaller one is served.
  lemma FarJumpIsRejected(n: nat, maxFrame: nat)
    requires 0 < n && n + 1 < SRC_LIMIT && 64 <= maxFrame < INT_LIMIT
    ensures MeetsContract(Stored(), maxFrame) && PatchFor(Stored(), LateByte(n), [1], maxFrame).Some?
    ensures ApplyPatch(Stored(), 0, LateByte(n), PatchFor(Stored(), LateByte(n), [1], maxFrame).value)
         == if n < OLD_LIMIT then Patched([1]) else Failed(CorruptedPatch)
  {
    hide MeetsContract, RecordsBytes, ApplyPatch, AllRecords, PatchFor;
    var src: seq<byte>, dst: seq<byte> := LateByte(n), [1];
    StoredPatch(src, dst, maxFrame);
    JumpsFar(n);
    assert AllRecords(src, dst)[0].jump == n;
    PatchRoundTrip(Stored(), 0, src, dst, maxFrame);
  }
}
