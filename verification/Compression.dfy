// What the patch writer relies on in LZ4.  The compressor takes a prefix of
// the bytes offered and fits it into the target size; the decompressor gives
// that prefix back, given room for it.
module Compression {
  import opened Bytes

  // The outcome of LZ4_compress_destSize: how many bytes were read and what
  // they became; an empty output is a failure.
  datatype Packed = Packed(consumed: nat, output: seq<byte>)

  datatype Codec = Codec(compress: (seq<byte>, nat) -> Packed,
                         decompress: (seq<byte>, nat) -> Option<seq<byte>>)

  // One call of the compressor: the output fits, something was read, and the
  // decompressor restores what was read into a buffer of the target size.
  ghost predicate PacksWell(c: Codec, offered: seq<byte>, target: nat) {
    var p := c.compress(offered, target);
    && |p.output| <= target
    && (p.output != [] ==>
          && 1 <= p.consumed <= |offered|
          && Restores(c, target, p.output, offered[..p.consumed]))
  }

  predicate Restores(c: Codec, capacity: nat, packed: seq<byte>, bytes: seq<byte>) {
    c.decompress(packed, capacity) == Some(bytes)
  }

  // The contract at one frame size, for the calls that are made with it: the
  // target is the frame size and no more than that is offered.
  ghost predicate MeetsContract(c: Codec, maxFrame: nat) {
    forall offered: seq<byte> :: 1 <= |offered| <= maxFrame ==> PacksWell(c, offered, maxFrame)
  }

  // A frame of one byte has no room for a literal after its token: a compressor
  // that then reads nothing but still writes the token would never get through
  // a buffer, and does not meet the contract at that size.
  lemma NoProgressInOneByte(c: Codec, b: byte)
    requires c.compress([b], 1) == Packed(0, [0])
    ensures !MeetsContract(c, 1)
  {
    assert !PacksWell(c, [b], 1);
  }

  // A codec that stores bytes as they are.
  function Stored(): Codec {
    Codec((offered: seq<byte>, target: nat) =>
            if |offered| <= target then Packed(|offered|, offered) else Packed(target, offered[..target]),
          (packed: seq<byte>, capacity: nat) => if |packed| <= capacity then Some(packed) else None)
  }

  // The contract can be met, at every frame size.
  lemma StoredMeetsContract(maxFrame: nat)
    ensures MeetsContract(Stored(), maxFrame)
  {
    forall offered: seq<byte> | 1 <= |offered| <= maxFrame
      ensures PacksWell(Stored(), offered, maxFrame)
    {
      var p := Stored().compress(offered, maxFrame);
      assert p.output == offered[..p.consumed];
    }
  }
}
