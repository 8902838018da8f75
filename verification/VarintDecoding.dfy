// The byte-at-a-time decoders of varint.c and the round trips through them.
module VarintDecoding {
  import opened Bytes
  import opened Varint

  // x << 7n on a 64-bit word, seven bits at a time.
  function Shifted(x: nat, n: int): (r: nat)
    requires IsUint64(x)
    ensures IsUint64(r)
  {
    if n <= 0 then x else Shifted(x, n - 1) * 128 % TWO_64
  }

  function Unsigned(x: int): (u: nat)
    requires IsInt64(x)
    ensures IsUint64(u) && Wrap(u) == x
  {
    if x < 0 then x + TWO_64 else x
  }

  // The value being built after one more byte; the first byte clears it.
  function Merge(b: byte, acc: nat, count: int): (r: nat)
    requires IsUint64(acc)
    ensures IsUint64(r)
  {
    var start := if count == 0 then 0 else acc;
    OrIsUint64(start, Shifted(b % 128, count));
    BitOr(start, Shifted(b % 128, count))
  }

  lemma {:induction false} OrBound(a: nat, b: nat, k: nat)
    requires a < Pow(2, k) && b < Pow(2, k)
    ensures BitOr(a, b) < Pow(2, k)
    decreases k
  {
    if k > 0 && (a > 0 || b > 0) {
      OrBound(a / 2, b / 2, k - 1);
    }
  }

  lemma OrIsUint64(a: nat, b: nat)
    requires IsUint64(a) && IsUint64(b)
    ensures IsUint64(BitOr(a, b))
  {
    assert Pow(2, 64) == TWO_64 by { PowersOfTwo(); }
    OrBound(a, b, 64);
  }

  lemma PowersOfTwo()
    ensures Pow(2, 64) == TWO_64 && Pow(2, 7) == 128
    ensures Pow(128, 9) == TWO_63 && Pow(128, 10) >= TWO_64
  {
    assert Pow(2, 8) == 256;
    assert Pow(2, 16) == 65536;
    assert Pow(2, 24) == 0x100_0000;
    assert Pow(2, 32) == 0x1_0000_0000;
    assert Pow(2, 40) == 0x100_0000_0000;
    assert Pow(2, 48) == 0x1_0000_0000_0000;
    assert Pow(2, 56) == 0x100_0000_0000_0000;
    assert Pow(128, 4) == 0x1000_0000;
    assert Pow(128, 8) == 0x100_0000_0000_0000;
  }

  // ----- The decoders -----

  method DecodeUnsigned(b: byte, acc: int, count: int) returns (code: Code, value: int)
    requires IsUint64(acc)
    ensures count > 9 ==> code == BadParameters && value == acc
    ensures count <= 9 ==> code == CodeOf(b) && value == Merge(b, acc, count)
  {
    if count > 9 {
      return BadParameters, acc;
    }
    value := if count == 0 then 0 else acc;
    var group := ShiftLeft(ClearTop(b), count);
    value := BitOr(value, group);
    code := if b >= 128 then NeedsMoreData else Completed;
  }

  method DecodeSigned(b: byte, acc: int, count: int) returns (code: Code, value: int)
    requires IsInt64(acc)
    ensures count > 9 ==> code == BadParameters && value == acc
    ensures count <= 9 ==> code == CodeOf(b) && value == SignedMerge(b, acc, count)
  {
    if count > 9 {
      return BadParameters, acc;
    }
    value := if count == 0 then 0 else acc;
    var group := ShiftLeft(ClearTop(b), count);
    OrIsUint64(Unsigned(value), group);
    value := Wrap(BitOr(Unsigned(value), group));
    if b >= 128 {
      code := NeedsMoreData;
    } else {
      code := Completed;
      if value % 2 == 1 {
        value := value / 2;
        value := Wrap(value * -1);
      } else {
        value := value / 2;
      }
    }
  }

  method ShiftLeft(x: nat, count: int) returns (r: nat)
    requires IsUint64(x)
    ensures IsUint64(r) && r == Shifted(x, count)
  {
    r := x;
    var i := 0;
    while i < count
      invariant 0 <= i && (i <= count || i == 0) && IsUint64(r) && r == Shifted(x, i)
    {
      r := r * 128 % TWO_64;
      i := i + 1;
    }
  }

  // The top bit says whether another byte follows.
  function CodeOf(b: byte): Code {
    if b >= 128 then NeedsMoreData else Completed
  }

  function SignedMerge(b: byte, acc: int, count: int): (r: int)
    requires IsInt64(acc)
    ensures IsInt64(r)
  {
    var merged := Wrap(Merge(b, Unsigned(acc), count));
    if b >= 128 then merged else Unfolded(merged)
  }

  // The value behind a folded one: sign in the low bit, magnitude above it.
  function Unfolded(x: int): (r: int)
    requires IsInt64(x)
    ensures IsInt64(r) && 2 * r == if x % 2 == 0 then x else 1 - x
  {
    if x % 2 == 1 then Wrap(-(x / 2)) else x / 2
  }

  // ----- Feeding a decoder byte by byte -----

  datatype Decoded = Done(value: int, rest: seq<byte>) | Incomplete | Bad

  function FeedUnsigned(bytes: seq<byte>, acc: nat, count: nat): Decoded
    requires IsUint64(acc)
    decreases bytes
  {
    if bytes == [] then Incomplete
    else if count > 9 then Bad
    else
      var value := Merge(bytes[0], acc, count);
      if CodeOf(bytes[0]).Completed? then Done(value, bytes[1..])
      else FeedUnsigned(bytes[1..], value, count + 1)
  }

  function FeedSigned(bytes: seq<byte>, acc: int, count: nat): Decoded
    requires IsInt64(acc)
    decreases bytes
  {
    if bytes == [] then Incomplete
    else if count > 9 then Bad
    else
      var value := SignedMerge(bytes[0], acc, count);
      if CodeOf(bytes[0]).Completed? then Done(value, bytes[1..])
      else FeedSigned(bytes[1..], value, count + 1)
  }

  // ----- Merging a group is adding it -----

  lemma {:induction false} OrZero(b: nat)
    ensures BitOr(0, b) == b
    decreases b
  {
    if b > 0 {
      OrZero(b / 2);
    }
  }

  lemma {:induction false} OrDisjoint(a: nat, m: nat, k: nat)
    requires a < Pow(2, k)
    ensures m * Pow(2, k) >= 0 && BitOr(a, m * Pow(2, k)) == a + m * Pow(2, k)
    decreases k
  {
    if k == 0 {
      OrZero(m);
    } else {
      var b := m * Pow(2, k - 1);
      assert m * Pow(2, k) == 2 * b;
      OrDisjoint(a / 2, m, k - 1);
      if a == 0 && b == 0 {
      } else {
        assert (2 * b) / 2 == b && (2 * b) % 2 == 0;
      }
    }
  }

  lemma {:induction false} PowSevenBits(n: nat)
    ensures Pow(2, 7 * n) == Pow(128, n)
  {
    if n > 0 {
      PowSevenBits(n - 1);
      var k := 7 * (n - 1);
      assert Pow(2, k + 2) == 4 * Pow(2, k);
      assert Pow(2, k + 4) == 4 * Pow(2, k + 2);
      assert Pow(2, k + 6) == 4 * Pow(2, k + 4);
      assert Pow(2, k + 7) == 2 * Pow(2, k + 6);
    }
  }

  lemma {:induction false} ShiftedIsProduct(x: nat, n: nat)
    requires x * Pow(128, n) < TWO_64
    ensures IsUint64(x) && Shifted(x, n) == x * Pow(128, n)
  {
    hide Pow;
    NextPower(n);
    if n > 0 {
      NextPower(n - 1);
      PowPositive(128, n - 1);
      ProductScales(x, Pow(128, n - 1));
      ShiftedIsProduct(x, n - 1);
    }
  }

  lemma ProductScales(x: nat, p: nat)
    requires p > 0
    ensures x * (128 * p) == 128 * (x * p) && 0 <= x <= x * p
  {
  }

  lemma MergeAdds(b: byte, acc: nat, count: nat)
    requires IsUint64(acc) && acc < Pow(128, count)
    requires (b % 128) * Pow(128, count) < TWO_64
    ensures Merge(b, acc, count) == acc + (b % 128) * Pow(128, count)
  {
    ShiftedIsProduct(b % 128, count);
    PowSevenBits(count);
    OrDisjoint(acc, b % 128, 7 * count);
  }

  // ----- What merging does to each bit -----

  // The m low bits of n.
  function Low(n: nat, m: nat): nat {
    if m == 0 then 0 else 2 * Low(n / 2, m - 1) + n % 2
  }

  lemma {:induction false} LowBits(n: nat, m: nat, k: nat)
    ensures Bit(Low(n, m), k) <==> k < m && Bit(n, k)
    decreases m
  {
    if m == 0 {
      NoBits(k);
    } else {
      assert Low(n, m) / 2 == Low(n / 2, m - 1);
      if k > 0 {
        LowBits(n / 2, m - 1, k - 1);
      }
    }
  }

  lemma {:induction false} LowIsRemainder(n: nat, m: nat) returns (q: nat)
    ensures n == q * Pow(2, m) + Low(n, m) && Low(n, m) < Pow(2, m)
    decreases m
  {
    if m == 0 {
      q := n;
    } else {
      q := LowIsRemainder(n / 2, m - 1);
      var p := q * Pow(2, m - 1);
      assert q * Pow(2, m) == 2 * p;
    }
  }

  // Reducing to a word, or to seven bits, keeps the low bits.
  lemma WordIsLow(n: nat)
    ensures n % TWO_64 == Low(n, 64)
  {
    hide Pow, Low;
    PowersOfTwo();
    var q := LowIsRemainder(n, 64);
    assert n == q * TWO_64 + Low(n, 64);
  }

  lemma GroupIsLow(n: nat)
    ensures n % 128 == Low(n, 7)
  {
    hide Pow, Low;
    PowersOfTwo();
    var q := LowIsRemainder(n, 7);
    assert n == q * 128 + Low(n, 7);
  }

  lemma {:induction false} NoBits(k: nat)
    ensures !Bit(0, k)
  {
    if k > 0 {
      NoBits(k - 1);
    }
  }

  lemma {:induction false} BitOfProduct(x: nat, n: nat, k: nat)
    ensures x * Pow(2, n) >= 0
    ensures Bit(x * Pow(2, n), k) <==> k >= n && Bit(x, k - n)
    decreases k + n
  {
    if n > 0 {
      var y := x * Pow(2, n - 1);
      assert x * Pow(2, n) == 2 * y;
      if k > 0 {
        BitOfProduct(x, n - 1, k - 1);
      }
    }
  }

  // The shift moves bit k to k + 7n and drops what leaves the word.
  lemma {:induction false} ShiftedBits(x: nat, n: nat, k: nat)
    requires IsUint64(x) && k < 64
    ensures Bit(Shifted(x, n), k) <==> k >= 7 * n && Bit(x, k - 7 * n)
    decreases n
  {
    PowersOfTwo();
    if n > 0 {
      var y := Shifted(x, n - 1);
      WordIsLow(y * 128);
      LowBits(y * 128, 64, k);
      BitOfProduct(y, 7, k);
      if k >= 7 {
        ShiftedBits(x, n - 1, k - 7);
      }
    }
  }

  // Bit for bit: the seven bits of the byte are or-ed in at their place, and
  // what was there before stays, unless this is the first byte.
  lemma MergeBits(b: byte, acc: nat, count: nat, k: nat)
    requires IsUint64(acc) && k < 64
    ensures Bit(Merge(b, acc, count), k) <==>
      || (count > 0 && Bit(acc, k))
      || (7 * count <= k < 7 * count + 7 && Bit(b, k - 7 * count))
  {
    hide Shifted, Bit;
    PowersOfTwo();
    NoBits(k);
    OrBits(if count == 0 then 0 else acc, Shifted(b % 128, count), k);
    ShiftedBits(b % 128, count, k);
    if k >= 7 * count {
      GroupIsLow(b);
      LowBits(b, 7, k - 7 * count);
    }
  }

  // A signed word is merged as the same pattern without a sign, until the last
  // byte unfolds it.
  lemma SignedMergeKeepsBits(b: byte, acc: int, count: nat)
    requires IsInt64(acc)
    ensures var merged := Merge(b, Unsigned(acc), count);
      if b >= 128 then Unsigned(SignedMerge(b, acc, count)) == merged
      else SignedMerge(b, acc, count) == Unfolded(Wrap(merged))
  {
    hide Merge, Unfolded;
  }

  // ----- Round trips -----

  // A number has to be complete after ten bytes.
  lemma {:induction false} TooManyBytes(bytes: seq<byte>, unsigned: nat, signed: int, count: nat)
    requires IsUint64(unsigned) && IsInt64(signed) && count <= 10 && count + |bytes| > 10
    requires forall k :: 0 <= k < 10 - count ==> bytes[k] >= 128
    ensures FeedUnsigned(bytes, unsigned, count) == FeedSigned(bytes, signed, count) == Bad
    decreases bytes
  {
    hide Merge, SignedMerge;
    if count < 10 {
      TooManyBytes(bytes[1..], Merge(bytes[0], unsigned, count), SignedMerge(bytes[0], signed, count), count + 1);
    }
  }

  // Only the last byte of an encoding reports completion.
  lemma {:induction false} OnlyLastCompletes(v: nat, k: nat)
    requires k < |Uleb(v)|
    ensures CodeOf(Uleb(v)[k]).Completed? <==> k == |Uleb(v)| - 1
    decreases v
  {
    if v >= 128 && k > 0 {
      OnlyLastCompletes(v / 128, k - 1);
    }
  }

  // The products and powers that follow are kept in lemmas of their own.
  lemma GroupsAdd(d: nat, w: nat, p: nat)
    ensures (d + 128 * w) * p == d * p + w * (128 * p)
  {
  }

  lemma GroupAtMost(d: nat, p: nat)
    requires d < 128
    ensures 0 <= d * p <= 127 * p
  {
  }

  lemma ProductPositive(w: nat, p: nat)
    ensures w * p >= 0
  {
  }

  lemma NextPower(count: nat)
    ensures Pow(128, 0) == 1 && Pow(128, count + 1) == 128 * Pow(128, count)
  {
  }

  // Taking the lowest group off v leaves the rest for the next position.
  lemma FirstGroup(v: nat, acc: nat, count: nat)
    requires acc < Pow(128, count)
    ensures (v % 128) * Pow(128, count) >= 0 && (v / 128) * Pow(128, count + 1) >= 0
    ensures v * Pow(128, count) == (v % 128) * Pow(128, count) + (v / 128) * Pow(128, count + 1)
    ensures acc + (v % 128) * Pow(128, count) < Pow(128, count + 1)
  {
    hide Pow;
    var p, d, w := Pow(128, count), v % 128, v / 128;
    NextPower(count);
    assert v == d + 128 * w;
    GroupsAdd(d, w, p);
    GroupAtMost(d, p);
    ProductPositive(w, 128 * p);
  }

  // The first byte of an encoding holds its lowest group.
  lemma UlebFront(v: nat, tail: seq<byte>)
    ensures var bytes := Uleb(v) + tail;
      && bytes != [] && bytes[0] % 128 == v % 128 && (CodeOf(bytes[0]).Completed? <==> v < 128)
      && bytes[1..] == if v < 128 then tail else Uleb(v / 128) + tail
  {
    if v < 128 {
      assert Uleb(v) == [v];
    } else {
      var group: int := v % 128;
      assert Uleb(v) == [group + 128] + Uleb(v / 128) && (group + 128) % 128 == group;
      assert (Uleb(v) + tail)[1..] == Uleb(v / 128) + tail;
    }
  }

  // Feeding the first byte of an encoding merges its lowest group.
  lemma FeedFirst(v: nat, tail: seq<byte>, acc: nat, count: nat)
    requires acc < Pow(128, count) && IsUint64(acc) && 0 <= (v % 128) * Pow(128, count) < TWO_64 && count <= 9
    requires IsUint64(acc + (v % 128) * Pow(128, count))
    ensures FeedUnsigned(Uleb(v) + tail, acc, count) ==
      var next := acc + (v % 128) * Pow(128, count);
      if v < 128 then Done(next, tail) else FeedUnsigned(Uleb(v / 128) + tail, next, count + 1)
  {
    hide Merge, Pow, Uleb;
    var bytes := Uleb(v) + tail;
    UlebFront(v, tail);
    MergeAdds(bytes[0], acc, count);
  }

  // Decoding continues correctly from any number of groups already merged.
  lemma {:induction false} FeedUleb(v: nat, tail: seq<byte>, acc: nat, count: nat)
    requires acc < Pow(128, count) && v * Pow(128, count) >= 0
    requires acc + v * Pow(128, count) < TWO_64 && count + |Uleb(v)| <= 10
    ensures FeedUnsigned(Uleb(v) + tail, acc, count) == Done(acc + v * Pow(128, count), tail)
    decreases v
  {
    hide FeedUnsigned, Pow;
    FirstGroup(v, acc, count);
    FeedFirst(v, tail, acc, count);
    if v >= 128 {
      FeedUleb(v / 128, tail, acc + (v % 128) * Pow(128, count), count + 1);
    }
  }

  // What a decoder held before the first byte does not matter.
  lemma FirstByteClears(bytes: seq<byte>, unsigned: nat, signed: int)
    requires IsUint64(unsigned) && IsInt64(signed)
    ensures FeedUnsigned(bytes, unsigned, 0) == FeedUnsigned(bytes, 0, 0)
    ensures FeedSigned(bytes, signed, 0) == FeedSigned(bytes, 0, 0)
  {
    hide Shifted, BitOr, Unfolded, Wrap;
  }

  // Every uint64 comes back, whatever number was decoded before it, and what
  // follows it in the stream is left over.
  lemma UnsignedRoundTrip(v: nat, acc: nat, tail: seq<byte>)
    requires IsUint64(v) && IsUint64(acc)
    ensures FeedUnsigned(Uleb(v) + tail, acc, 0) == Done(v, tail)
  {
    hide Pow, Uleb, FeedUnsigned;
    FirstByteClears(Uleb(v) + tail, acc, 0);
    PowersOfTwo();
    NextPower(0);
    UlebLength(v, 10);
    FeedUleb(v, tail, 0, 0);
  }

  // No encoding is a proper prefix of another one.
  lemma UlebPrefixFree(v: nat, w: nat, x: seq<byte>, y: seq<byte>)
    requires IsUint64(v) && IsUint64(w)
    requires Uleb(v) + x == Uleb(w) + y
    ensures v == w && x == y
  {
    UnsignedRoundTrip(v, 0, x);
    UnsignedRoundTrip(w, 0, y);
  }

  function Concatenated(vs: seq<nat>): seq<byte> {
    if vs == [] then [] else Uleb(vs[0]) + Concatenated(vs[1..])
  }

  // So a concatenation of encodings has one parse only.
  lemma {:induction false} ConcatenationUnique(vs: seq<nat>, ws: seq<nat>)
    requires forall v :: v in vs ==> IsUint64(v)
    requires forall w :: w in ws ==> IsUint64(w)
    requires Concatenated(vs) == Concatenated(ws)
    ensures vs == ws
  {
    if vs != [] && ws != [] {
      UlebPrefixFree(vs[0], ws[0], Concatenated(vs[1..]), Concatenated(ws[1..]));
      ConcatenationUnique(vs[1..], ws[1..]);
      assert vs == [vs[0]] + vs[1..] && ws == [ws[0]] + ws[1..];
    }
  }

  // ----- Signed values -----

  lemma SignedMergeAdds(b: byte, acc: nat, count: nat)
    requires acc < Pow(128, count) && (b % 128) * Pow(128, count) >= 0
    requires acc + (b % 128) * Pow(128, count) < TWO_63
    ensures var x := acc + (b % 128) * Pow(128, count);
      SignedMerge(b, acc, count) == if b >= 128 then x else Unfolded(x)
  {
    hide Merge, Pow, Unfolded;
    MergeAdds(b, acc, count);
  }

  lemma FeedSignedFirst(v: nat, tail: seq<byte>, acc: nat, count: nat)
    requires acc < Pow(128, count) && (v % 128) * Pow(128, count) >= 0 && count <= 9
    requires acc + (v % 128) * Pow(128, count) < TWO_63
    ensures FeedSigned(Uleb(v) + tail, acc, count) ==
      var next := acc + (v % 128) * Pow(128, count);
      if v < 128 then Done(Unfolded(next), tail) else FeedSigned(Uleb(v / 128) + tail, next, count + 1)
  {
    hide SignedMerge, Unfolded, Pow, Uleb;
    var bytes := Uleb(v) + tail;
    UlebFront(v, tail);
    SignedMergeAdds(bytes[0], acc, count);
  }

  lemma {:induction false} FeedSlebFrom(v: nat, tail: seq<byte>, acc: nat, count: nat)
    requires acc < Pow(128, count) && v * Pow(128, count) >= 0
    requires acc + v * Pow(128, count) < TWO_63 && count + |Uleb(v)| <= 9
    ensures FeedSigned(Uleb(v) + tail, acc, count) == Done(Unfolded(acc + v * Pow(128, count)), tail)
    decreases v
  {
    hide FeedSigned, Unfolded, Pow;
    FirstGroup(v, acc, count);
    FeedSignedFirst(v, tail, acc, count);
    if v >= 128 {
      FeedSlebFrom(v / 128, tail, acc + (v % 128) * Pow(128, count), count + 1);
    }
  }

  // Decoding the groups of a word that is not negative unfolds it.
  lemma FeedGroups(x: nat, tail: seq<byte>)
    requires x < TWO_63
    ensures FeedSigned(Uleb(x) + tail, 0, 0) == Done(Unfolded(x), tail)
  {
    hide Pow, Uleb, FeedSigned, Unfolded;
    PowersOfTwo();
    NextPower(0);
    UlebLength(x, 9);
    FeedSlebFrom(x, tail, 0, 0);
  }

  lemma SignedRoundTrip(v: int, acc: int, tail: seq<byte>)
    requires -TWO_62 < v < TWO_62 && IsInt64(acc)
    ensures FeedSigned(Sleb(v) + tail, acc, 0) == Done(v, tail)
    ensures Folded(v) >= 0 && Sleb(v) == Uleb(Folded(v))
  {
    hide Folded, Unfolded;
    FirstByteClears(Sleb(v) + tail, 0, acc);
    UnfoldedFolded(v);
    FeedGroups(Folded(v), tail);
  }

  // Folding loses nothing as long as the doubled magnitude fits the word.
  lemma UnfoldedFolded(v: int)
    requires -TWO_62 < v < TWO_62
    ensures Folded(v) >= 0 && Unfolded(Folded(v)) == v
  {
    if v < 0 {
      assert Folded(v) == 2 * -v + 1;
      assert (2 * -v + 1) / 2 == -v && (2 * -v + 1) % 2 == 1;
    } else {
      assert Folded(v) == 2 * v;
    }
  }

  lemma FoldedOverflows(v: int)
    requires IsInt64(v) && !(-TWO_62 < v < TWO_62)
    ensures Folded(v) == if v > 0 then 2 * v - TWO_64 else if v > -TWO_63 then 2 * -v + 1 - TWO_64 else 1
    ensures Folded(v) <= 1
  {
    if v > 0 {
      assert 2 * v % TWO_64 == 2 * v;
    } else if v > -TWO_63 {
      assert Wrap(-v) == -v && 2 * -v % TWO_64 == 2 * -v;
    }
  }

  // The signed round trip holds for magnitudes below 2^62 and for no others:
  // from there on doubling the magnitude overflows the word.
  lemma SignedRoundTripExactly(v: int, acc: int)
    requires IsInt64(v) && IsInt64(acc)
    ensures FeedSigned(Sleb(v), acc, 0) == Done(v, []) <==> -TWO_62 < v < TWO_62
  {
    assert Sleb(v) + [] == Sleb(v);
    FirstByteClears(Sleb(v), 0, acc);
    if -TWO_62 < v < TWO_62 {
      SignedRoundTrip(v, acc, []);
    } else {
      var f := Folded(v);
      var x := if f < 0 then f % 128 else f;
      FoldedOverflows(v);
      assert Sleb(v) == Uleb(x);
      FeedGroups(x, []);
    }
  }

  // ----- What the bytes mean -----

  // The value of unsigned LEB128 (section 7.6 of DWARF 4): the low seven bits
  // of every byte up to the first one without the top bit, least significant
  // first.
  function LebValue(bytes: seq<byte>): nat {
    if bytes == [] then 0
    else if bytes[0] < 128 then bytes[0]
    else bytes[0] % 128 + 128 * LebValue(bytes[1..])
  }

  // The unsigned form is unsigned LEB128.
  lemma {:induction false} UlebIsLeb128(v: nat, tail: seq<byte>)
    ensures LebValue(Uleb(v) + tail) == v
    decreases v
  {
    var bytes := Uleb(v) + tail;
    if v >= 128 {
      UlebIsLeb128(v / 128, tail);
      assert bytes[1..] == Uleb(v / 128) + tail;
    }
  }

  lemma WordsLeaveGroup(x: int)
    ensures (x - TWO_64) % 128 == x % 128
  {
    var q, r := x / 128, x % 128;
    assert x - TWO_64 == 128 * (q - 0x200_0000_0000_0000) + r;
  }

  // Beyond that range one byte is written: the low seven bits of that number.
  lemma SlebOverflows(v: int)
    requires IsInt64(v) && !(-TWO_62 < v < TWO_62)
    ensures Sleb(v) == [(if v < 0 then 2 * -v + 1 else 2 * v) % 128]
  {
    hide Folded, Wrap;
    FoldedOverflows(v);
    WordsLeaveGroup(if v < 0 then 2 * -v + 1 else 2 * v);
  }

  // The signed form is the unsigned one of twice the magnitude, plus one for a
  // negative value.
  lemma SlebIsSignLast(v: int, tail: seq<byte>)
    requires -TWO_62 < v < TWO_62
    ensures LebValue(Sleb(v) + tail) == if v < 0 then 2 * -v + 1 else 2 * v
  {
    hide LebValue, Uleb;
    var x: nat := if v < 0 then 2 * -v + 1 else 2 * v;
    assert Folded(v) == x;
    UlebIsLeb128(x, tail);
  }

  // What a decoder makes of few enough bytes is bounded by their number.
  lemma {:induction false} FeedBound(bytes: seq<byte>, acc: nat, count: nat)
    requires acc < Pow(128, count) && IsUint64(acc) && FeedUnsigned(bytes, acc, count).Done?
    ensures var f := FeedUnsigned(bytes, acc, count);
      && |f.rest| < |bytes|
      && (count + |bytes| - |f.rest| <= 9 ==> 0 <= f.value < Pow(128, count + |bytes| - |f.rest|))
    decreases bytes
  {
    hide Merge, Pow;
    FeedShortens(bytes, acc, count);
    var used := |bytes| - |FeedUnsigned(bytes, acc, count).rest|;
    if count + used <= 9 {
      GroupBelow(bytes[0], acc, count);
      MergeAdds(bytes[0], acc, count);
      if CodeOf(bytes[0]).NeedsMoreData? {
        FeedBound(bytes[1..], Merge(bytes[0], acc, count), count + 1);
      }
    }
  }

  lemma {:induction false} FeedShortens(bytes: seq<byte>, acc: nat, count: nat)
    requires IsUint64(acc) && FeedUnsigned(bytes, acc, count).Done?
    ensures |FeedUnsigned(bytes, acc, count).rest| < |bytes|
    decreases bytes
  {
    hide Merge;
    if CodeOf(bytes[0]).NeedsMoreData? {
      FeedShortens(bytes[1..], Merge(bytes[0], acc, count), count + 1);
    }
  }

  lemma GroupBelow(b: byte, acc: nat, count: nat)
    requires acc < Pow(128, count) && count <= 8
    ensures 0 <= (b % 128) * Pow(128, count) < TWO_64
    ensures acc + (b % 128) * Pow(128, count) < Pow(128, count + 1)
  {
    PowersOfTwo();
    PowMonotone(count, 8);
    var p := Pow(128, count);
    assert (b % 128) * p <= 127 * p;
    assert Pow(128, 9) == 128 * Pow(128, 8);
  }

  lemma {:induction false} PowMonotone(m: nat, n: nat)
    requires m <= n
    ensures Pow(128, m) <= Pow(128, n)
    decreases n
  {
    if m < n {
      PowMonotone(m, n - 1);
      assert Pow(128, n) == 128 * Pow(128, n - 1);
    }
  }

  // No shorter string of bytes decodes to v: the encoding is minimal.
  lemma NoShorterEncoding(bytes: seq<byte>, v: nat, rest: seq<byte>)
    requires FeedUnsigned(bytes, 0, 0) == Done(v, rest) && IsUint64(v)
    ensures |bytes| - |rest| >= |Uleb(v)|
  {
    PowersOfTwo();
    FeedBound(bytes, 0, 0);
    UlebLength(v, 10);
    var used := |bytes| - |rest|;
    if used <= 9 {
      UlebLength(v, used);
    }
  }
}
