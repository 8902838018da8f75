// Header numbers: eight bytes, least significant first, with the sign in the
// top bit of the last one.
module Header {
  import opened Bytes
  import opened Varint

  const MAGIC: seq<byte> := [80, 69, 76, 73, 79, 78, 47, 66, 83, 68, 73, 70, 70, 48, 48, 49]
  const HEADER_LEN := 40

  // The n low bytes of y.
  function LittleEndian(y: nat, n: nat): (r: seq<byte>)
    ensures |r| == n
    decreases n
  {
    if n == 0 then [] else [y % 256] + LittleEndian(y / 256, n - 1)
  }

  function FromLittleEndian(b: seq<byte>): nat {
    if b == [] then 0 else b[0] + 256 * FromLittleEndian(b[1..])
  }

  // What offtout leaves in its buffer.
  function Offt(x: int): (r: seq<byte>)
    ensures |r| == 8
  {
    var b := LittleEndian(if x < 0 then -x else x, 8);
    if x < 0 then b[7 := SetTop(b[7])] else b
  }

  // What the patch applier reads there.
  function Offtin(b: seq<byte>): int
    requires |b| == 8
  {
    var y: int := FromLittleEndian(b[7 := ClearTop(b[7])]);
    if b[7] >= 128 then -y else y
  }

  method Offtout(x: int, buf: array<byte>, at: nat)
    requires -TWO_63 < x < TWO_63 && at + 8 <= buf.Length
    modifies buf
    ensures buf[..] == Overwrite(old(buf[..]), at, Offt(x))
  {
    hide LittleEndian, Overwrite;
    var size: nat := if x < 0 then -x else x;
    var y: int := size;
    var i := 0;
    ghost var s := buf[..];
    ghost var done: seq<byte> := [];
    OverwriteNothing(s, at);
    while i < 8
      invariant 0 <= i <= 8 && |done| == i && y >= 0 && |s| == buf.Length
      invariant LittleEndian(size, 8) == done + LittleEndian(y, 8 - i)
      invariant buf[..] == Overwrite(s, at, done)
    {
      LittleEndianNext(y, 8 - i);
      buf[at + i] := y % 256;
      OverwriteNext(s, at, done, y % 256);
      done := done + [y % 256];
      y := y - buf[at + i];
      y := y / 256;
      i := i + 1;
    }
    LittleEndianNext(y, 0);
    assert LittleEndian(size, 8) == done;
    if x < 0 {
      OverwriteLast(s, at, done);
      buf[at + 7] := SetTop(buf[at + 7]);
    }
  }

  lemma LittleEndianNext(y: nat, n: nat)
    ensures n > 0 ==> LittleEndian(y, n) == [y % 256] + LittleEndian((y - y % 256) / 256, n - 1)
    ensures n == 0 ==> LittleEndian(y, n) == []
  {
  }

  lemma OverwriteLast(s: seq<byte>, at: nat, w: seq<byte>)
    requires at + 8 <= |s| && |w| == 8
    ensures Overwrite(s, at, w)[at + 7] == w[7]
    ensures Overwrite(s, at, w)[at + 7 := SetTop(w[7])] == Overwrite(s, at, w[7 := SetTop(w[7])])
  {
  }

  lemma {:induction false} LittleEndianRoundTrip(y: nat, n: nat)
    requires y < Pow(256, n)
    ensures FromLittleEndian(LittleEndian(y, n)) == y
    decreases n
  {
    if n > 0 {
      var p := Pow(256, n - 1);
      assert y / 256 < p by { assert y < 256 * p; }
      LittleEndianRoundTrip(y / 256, n - 1);
      assert LittleEndian(y, n)[1..] == LittleEndian(y / 256, n - 1);
    }
  }

  // Below 2^63 the top bit of the eighth byte is free for the sign.
  lemma {:induction false} TopByteSmall(y: nat, n: nat, p: nat)
    requires 1 <= n <= 8 && p == Pow(256, n - 1) && y < 128 * p
    ensures LittleEndian(y, n)[n - 1] < 128
    decreases n
  {
    if n > 1 {
      var q := Pow(256, n - 2);
      assert y / 256 < 128 * q by { assert y < 256 * (128 * q); }
      TopByteSmall(y / 256, n - 1, q);
    }
  }

  // Setting and clearing the sign bit leaves the magnitude alone.
  lemma SignBit(b: seq<byte>)
    requires |b| == 8 && b[7] < 128
    ensures b[7 := ClearTop(b[7])] == b
    ensures SetTop(b[7]) >= 128 && ClearTop(SetTop(b[7])) == b[7]
    ensures var n := b[7 := SetTop(b[7])]; n[7 := ClearTop(n[7])] == b
  {
    var n := b[7 := SetTop(b[7])];
    assert n[7 := ClearTop(n[7])] == b;
  }

  // The sign-magnitude form is invertible for every magnitude below 2^63.
  lemma OffRoundTrip(x: int)
    requires -TWO_63 < x < TWO_63
    ensures Offtin(Offt(x)) == x
  {
    hide LittleEndian, FromLittleEndian, SetTop, ClearTop, Pow;
    var y: nat := if x < 0 then -x else x;
    PowersOf256();
    LittleEndianRoundTrip(y, 8);
    TopByteSmall(y, 8, Pow(256, 7));
    SignBit(LittleEndian(y, 8));
  }

  // The eight bytes are the digits of the magnitude in base 256, the least
  // significant one first; a negative number has the top bit set.
  lemma OfftDigits(x: int)
    requires -TWO_63 < x < TWO_63
    ensures var b, y: nat := Offt(x), if x < 0 then -x else x;
      && b[0] == y % 256 && b[1] == y / 0x100 % 256 && b[2] == y / 0x1_0000 % 256
      && b[3] == y / 0x100_0000 % 256 && b[4] == y / 0x1_0000_0000 % 256
      && b[5] == y / 0x100_0000_0000 % 256 && b[6] == y / 0x1_0000_0000_0000 % 256
      && b[7] == y / 0x100_0000_0000_0000 + (if x < 0 then 128 else 0)
  {
    hide LittleEndian;
    Digits(if x < 0 then -x else x);
  }

  lemma Digits(y: nat)
    requires y < TWO_63
    ensures var b := LittleEndian(y, 8);
      && b[0] == y % 256 && b[1] == y / 0x100 % 256 && b[2] == y / 0x1_0000 % 256
      && b[3] == y / 0x100_0000 % 256 && b[4] == y / 0x1_0000_0000 % 256
      && b[5] == y / 0x100_0000_0000 % 256 && b[6] == y / 0x1_0000_0000_0000 % 256
      && b[7] == y / 0x100_0000_0000_0000 < 128
  {
    hide LittleEndian;
    FourDigits(y, 8);
    FourDigits(y / 0x1_0000_0000, 4);
    HighDigits(y);
  }

  lemma HighDigits(y: nat)
    ensures var z := y / 0x1_0000_0000;
      && z / 0x100 == y / 0x100_0000_0000 && z / 0x1_0000 == y / 0x1_0000_0000_0000
      && z / 0x100_0000 == y / 0x100_0000_0000_0000
  {
    var z, r := y / 0x1_0000_0000, y % 0x1_0000_0000;
    assert y == 0x100_0000_0000 * (z / 0x100) + (0x1_0000_0000 * (z % 0x100) + r);
    assert y == 0x1_0000_0000_0000 * (z / 0x1_0000) + (0x1_0000_0000 * (z % 0x1_0000) + r);
    assert y == 0x100_0000_0000_0000 * (z / 0x100_0000) + (0x1_0000_0000 * (z % 0x100_0000) + r);
  }

  lemma FirstDigit(y: nat, n: nat)
    requires n > 0
    ensures LittleEndian(y, n) == [y % 256] + LittleEndian(y / 256, n - 1)
  {
  }

  lemma FourDigits(y: nat, n: nat)
    requires n >= 4
    ensures var b := LittleEndian(y, n);
      && b[0] == y % 256 && b[1] == y / 0x100 % 256 && b[2] == y / 0x1_0000 % 256 && b[3] == y / 0x100_0000 % 256
      && b[4..] == LittleEndian(y / 0x1_0000_0000, n - 4)
  {
    hide LittleEndian;
    FirstDigit(y, n);
    FirstDigit(y / 0x100, n - 1);
    FirstDigit(y / 0x1_0000, n - 2);
    FirstDigit(y / 0x100_0000, n - 3);
  }

  // The magic spells the name of the format.
  lemma MagicSpells()
    ensures |MAGIC| == 16
    ensures forall i :: 0 <= i < 16 ==> MAGIC[i] == "PELION/BSDIFF001"[i] as int
  {
  }

  lemma PowersOf256()
    ensures 128 * Pow(256, 7) == TWO_63 && Pow(256, 8) > TWO_63
  {
    assert Pow(256, 2) == 0x1_0000;
    assert Pow(256, 4) == 0x1_0000_0000;
    assert Pow(256, 7) == 0x100_0000_0000_0000;
  }

  // The header of a patch: magic, size of the new file, frame size, and the
  // length of the longest frame.
  function HeaderBytes(newSize: int, maxFrame: int, largest: int): (r: seq<byte>)
    ensures |r| == HEADER_LEN
  {
    MAGIC + Offt(newSize) + Offt(maxFrame) + Offt(largest)
  }

  lemma OverwriteMiddle(front: seq<byte>, before: seq<byte>, after: seq<byte>, tail: seq<byte>)
    requires |before| == |after|
    ensures Overwrite(front + before + tail, |front|, after) == front + after + tail
  {
  }

  // Rewriting eight bytes at offset 32 changes the last field only.
  lemma HeaderRewritten(newSize: int, maxFrame: int, before: int, largest: int, body: seq<byte>)
    ensures Overwrite(HeaderBytes(newSize, maxFrame, before) + body, 32, Offt(largest))
         == HeaderBytes(newSize, maxFrame, largest) + body
  {
    hide Offt, Overwrite;
    OverwriteMiddle(MAGIC + Offt(newSize) + Offt(maxFrame), Offt(before), Offt(largest), body);
  }

  // The patch starts with a header that decodes to these three numbers.
  predicate HasHeader(patch: seq<byte>, newSize: int, maxFrame: int, largest: int) {
    && |patch| >= HEADER_LEN && patch[..16] == MAGIC
    && Offtin(patch[16..24]) == newSize && Offtin(patch[24..32]) == maxFrame && Offtin(patch[32..40]) == largest
  }

  // A header decodes to the three numbers it was made from.
  lemma HeaderFields(newSize: int, maxFrame: int, largest: int, body: seq<byte>)
    requires -TWO_63 < newSize < TWO_63 && -TWO_63 < maxFrame < TWO_63 && -TWO_63 < largest < TWO_63
    ensures var p := HeaderBytes(newSize, maxFrame, largest) + body;
      HasHeader(p, newSize, maxFrame, largest) && p[HEADER_LEN..] == body
  {
    hide Offt, Offtin;
    OffRoundTrip(newSize);
    OffRoundTrip(maxFrame);
    OffRoundTrip(largest);
    var p := HeaderBytes(newSize, maxFrame, largest) + body;
    assert p[16..24] == Offt(newSize) && p[24..32] == Offt(maxFrame) && p[32..40] == Offt(largest);
  }
}
