// varint.c: seven bits a byte, least significant group first, the top bit set
// on every byte but the last.  A signed value keeps its sign in the low bit of
// twice its magnitude.
module Varint {
  import opened Bytes

  const TWO_62 := 0x4000_0000_0000_0000
  const TWO_63 := 0x8000_0000_0000_0000
  const TWO_64 := 0x1_0000_0000_0000_0000

  const ERR_BUFFER_TOO_SMALL := -7

  datatype Code = Completed | NeedsMoreData | BadParameters

  predicate IsUint64(x: int) { 0 <= x < TWO_64 }

  predicate IsInt64(x: int) { -TWO_63 <= x < TWO_63 }

  // The value of a 64-bit pattern read as a two's complement number.
  function Wrap(x: int): (r: int)
    ensures IsInt64(r) && (IsInt64(x) ==> r == x)
  {
    var u := x % TWO_64;
    if u < TWO_63 then u else u - TWO_64
  }

  // Wrapping takes off a multiple of 2^64.
  lemma WrapIsCongruent(x: int)
    ensures (x - Wrap(x)) % TWO_64 == 0
  {
    var q, u := x / TWO_64, x % TWO_64;
    assert x - u == TWO_64 * q;
    assert x - (u - TWO_64) == TWO_64 * (q + 1);
  }

  function SetTop(b: byte): byte { b % 128 + 128 }

  function ClearTop(b: byte): byte { b % 128 }

  // Bitwise or of two numbers.
  function BitOr(a: nat, b: nat): nat {
    if a == 0 && b == 0 then 0
    else 2 * BitOr(a / 2, b / 2) + (if a % 2 == 1 || b % 2 == 1 then 1 else 0)
  }

  // Bit k of n.
  predicate Bit(n: nat, k: nat) {
    if k == 0 then n % 2 == 1 else Bit(n / 2, k - 1)
  }

  lemma OrHalves(a: nat, b: nat)
    ensures BitOr(a, b) / 2 == BitOr(a / 2, b / 2)
    ensures BitOr(a, b) % 2 == 1 <==> a % 2 == 1 || b % 2 == 1
  {
    var half, low := BitOr(a / 2, b / 2), if a % 2 == 1 || b % 2 == 1 then 1 else 0;
    assert BitOr(a, b) == 2 * half + low;
  }

  lemma {:induction false} OrBits(a: nat, b: nat, k: nat)
    ensures Bit(BitOr(a, b), k) <==> Bit(a, k) || Bit(b, k)
    decreases k
  {
    hide BitOr;
    OrHalves(a, b);
    if k > 0 {
      OrBits(a / 2, b / 2, k - 1);
    }
  }

  // ----- What the encoders write -----

  function Uleb(v: nat): (r: seq<byte>)
    ensures |r| >= 1
  {
    if v < 128 then [v] else [v % 128 + 128] + Uleb(v / 128)
  }

  lemma {:induction false} PowPositive(base: nat, n: nat)
    requires base > 0
    ensures Pow(base, n) > 0
  {
    if n > 0 {
      PowPositive(base, n - 1);
      assert base * Pow(base, n - 1) > 0;
    }
  }

  // The number of groups is the least n with v < 2^(7n).
  lemma {:induction false} UlebLength(v: nat, n: nat)
    requires n >= 1
    ensures |Uleb(v)| <= n <==> v < Pow(128, n)
    decreases n
  {
    var p := Pow(128, n - 1);
    if n == 1 {
      assert Pow(128, 1) == 128;
    } else if v < 128 {
      PowPositive(128, n - 1);
    } else {
      UlebLength(v / 128, n - 1);
      assert v < 128 * p <==> v / 128 < p;
    }
  }

  // The number whose groups the signed encoder writes: twice the magnitude,
  // plus one for a negative value, on 64-bit words.
  function Folded(v: int): (r: int)
    ensures IsInt64(r)
  {
    if v < 0 then Wrap(Wrap(2 * Wrap(-v)) + 1) else Wrap(2 * v)
  }

  // The groups of a signed word: a negative one stops after its first group.
  function Groups(v: int): seq<byte> {
    if v < 0 then [v % 128] else Uleb(v)
  }

  function Sleb(v: int): seq<byte> { Groups(Folded(v)) }

  // s with the bytes w written over it from at on.
  function Overwrite(s: seq<byte>, at: nat, w: seq<byte>): (r: seq<byte>)
    requires at + |w| <= |s|
    ensures |r| == |s| && r[at..at + |w|] == w
  {
    s[..at] + w + s[at + |w|..]
  }

  lemma OverwriteNext(s: seq<byte>, at: nat, w: seq<byte>, b: byte)
    requires at + |w| < |s|
    ensures Overwrite(s, at, w)[at + |w| := b] == Overwrite(s, at, w + [b])
  {
  }

  // One group of value: its low seven bits, with the top bit set when more
  // follow.
  method PutGroup(value: int, buf: array<byte>, pos: nat) returns (rest: int)
    requires pos < buf.Length
    modifies buf
    ensures rest == value / 128
    ensures buf[..] == old(buf[..])[pos := if rest > 0 then SetTop(value % 256) else ClearTop(value % 256)]
  {
    buf[pos] := value % 256;
    rest := value / 128;
    if rest > 0 {
      buf[pos] := SetTop(buf[pos]);
    } else {
      buf[pos] := ClearTop(buf[pos]);
    }
  }

  // The loop both encoders share: write the groups of value to buf from at on,
  // but no more than max of them.
  method PutGroups(value: int, buf: array<byte>, at: nat, max: nat) returns (n: int)
    requires at + max <= buf.Length
    modifies buf
    ensures Wrote(old(buf[..]), buf[..], at, max, Groups(value), n)
  {
    hide Overwrite, Groups;
    var rest := value;
    var pos := 0;
    ghost var s, done := buf[..], [];
    OverwriteNothing(s, at);
    while true
      invariant 0 <= pos == |done| <= max && at + max <= |s| == buf.Length
      invariant Groups(value) == done + Groups(rest)
      invariant buf[..] == Overwrite(s, at, done)
      decreases if rest > 0 then rest else 0, max - pos
    {
      GroupsStep(rest);
      if pos >= max {
        assert Groups(value)[..max] == done;
        return ERR_BUFFER_TOO_SMALL;
      }
      ghost var was := rest;
      rest := PutGroup(rest, buf, at + pos);
      OverwriteNext(s, at, done, buf[at + pos]);
      done := done + [buf[at + pos]];
      pos := pos + 1;
      if rest <= 0 {
        assert Groups(value) == done;
        return pos;
      }
      assert Groups(value) == done + Groups(rest);
    }
  }

  // The outcome of an encoder: the bytes if they fit in max, else the first
  // max of them and an error; nothing else in the buffer changed.
  ghost predicate Wrote(s: seq<byte>, t: seq<byte>, at: nat, max: nat, bytes: seq<byte>, n: int) {
    && at + max <= |s|
    && if |bytes| <= max
       then n == |bytes| && t == Overwrite(s, at, bytes)
       else n == ERR_BUFFER_TOO_SMALL && t == Overwrite(s, at, bytes[..max])
  }

  lemma OverwriteNothing(s: seq<byte>, at: nat)
    requires at <= |s|
    ensures Overwrite(s, at, []) == s
  {
  }

  lemma GroupsStep(v: int)
    ensures |Groups(v)| >= 1
    ensures v / 128 > 0 ==> Groups(v) == [SetTop(v % 256)] + Groups(v / 128)
    ensures v / 128 <= 0 ==> Groups(v) == [ClearTop(v % 256)]
    ensures v / 128 > 0 ==> v / 128 < v
  {
    assert (v % 256) % 128 == v % 128;
  }

  method EncodeUnsigned(value: int, buf: array<byte>, at: nat, max: nat) returns (n: int)
    requires IsUint64(value) && at + max <= buf.Length
    modifies buf
    ensures Wrote(old(buf[..]), buf[..], at, max, Uleb(value), n)
    ensures max >= 1 ==> (n > 0 <==> value < Pow(128, max))
  {
    hide Uleb, Pow;
    n := PutGroups(value, buf, at, max);
    if max >= 1 {
      UlebLength(value, max);
    }
  }

  method EncodeSigned(value: int, buf: array<byte>, at: nat, max: nat) returns (n: int)
    requires IsInt64(value) && at + max <= buf.Length
    modifies buf
    ensures Wrote(old(buf[..]), buf[..], at, max, Sleb(value), n)
  {
    var folded := value;
    if folded < 0 {
      folded := Wrap(-folded);
      folded := Wrap(2 * folded);
      folded := Wrap(folded + 1);
    } else {
      folded := Wrap(2 * folded);
    }
    n := PutGroups(folded, buf, at, max);
  }
}
