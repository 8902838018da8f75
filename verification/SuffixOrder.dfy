// The lexicographic order of suffixes, as memcmp and the sort see it.  A pair
// (x, a) stands for the suffix x[a..]; a suffix is smaller than every longer
// suffix it is a prefix of, so the empty suffix comes first.
module SuffixOrder {
  import opened Bytes

  // Length of the longest common prefix of x[a..] and y[b..].
  function Lcp(x: seq<byte>, a: nat, y: seq<byte>, b: nat): (k: nat)
    requires a <= |x| && b <= |y|
    ensures IsLcp(x, a, y, b, k)
    decreases |x| - a
  {
    if a < |x| && b < |y| && x[a] == y[b] then
      var k := 1 + Lcp(x, a + 1, y, b + 1);
      assert x[a..a + k] == [x[a]] + x[a + 1..a + k];
      assert y[b..b + k] == [y[b]] + y[b + 1..b + k];
      k
    else 0
  }

  // k positions agree and the next pair, if there is one, does not.
  predicate IsLcp(x: seq<byte>, a: nat, y: seq<byte>, b: nat, k: nat)
    requires a <= |x| && b <= |y|
  {
    && a + k <= |x| && b + k <= |y|
    && x[a..a + k] == y[b..b + k]
    && (a + k < |x| && b + k < |y| ==> x[a + k] != y[b + k])
  }

  predicate Less(x: seq<byte>, a: nat, y: seq<byte>, b: nat)
    requires a <= |x| && b <= |y|
  {
    var k := Lcp(x, a, y, b);
    b + k < |y| && (a + k == |x| || x[a + k] < y[b + k])
  }

  // Agreement on k bytes is agreement on each of them.
  lemma AgreeAt(x: seq<byte>, a: nat, y: seq<byte>, b: nat, k: nat, i: nat)
    requires a + k <= |x| && b + k <= |y| && x[a..a + k] == y[b..b + k] && i < k
    ensures x[a + i] == y[b + i]
  {
    assert x[a..a + k][i] == y[b..b + k][i];
  }

  lemma AgreeShorter(x: seq<byte>, a: nat, y: seq<byte>, b: nat, k: nat, m: nat)
    requires a + k <= |x| && b + k <= |y| && x[a..a + k] == y[b..b + k] && m <= k
    ensures x[a..a + m] == y[b..b + m]
  {
    assert x[a..a + m] == x[a..a + k][..m];
    assert y[b..b + m] == y[b..b + k][..m];
  }

  lemma LcpUnique(x: seq<byte>, a: nat, y: seq<byte>, b: nat, k: nat)
    requires a <= |x| && b <= |y|
    requires IsLcp(x, a, y, b, k)
    ensures k == Lcp(x, a, y, b)
  {
    var l := Lcp(x, a, y, b);
    if k < l {
      AgreeAt(x, a, y, b, l, k);
    } else if l < k {
      AgreeAt(x, a, y, b, k, l);
    }
  }

  lemma LcpSymmetric(x: seq<byte>, a: nat, y: seq<byte>, b: nat)
    requires a <= |x| && b <= |y|
    ensures Lcp(x, a, y, b) == Lcp(y, b, x, a)
  {
    LcpUnique(y, b, x, a, Lcp(x, a, y, b));
  }

  // Two suffixes that agree on h bytes compare as what follows does.
  lemma LcpShift(x: seq<byte>, a: nat, y: seq<byte>, b: nat, h: nat)
    requires a <= |x| && b <= |y|
    requires h <= Lcp(x, a, y, b)
    ensures a + h <= |x| && b + h <= |y|
    ensures Lcp(x, a, y, b) == h + Lcp(x, a + h, y, b + h)
    ensures Less(x, a, y, b) == Less(x, a + h, y, b + h)
  {
    hide Lcp;
    var k := Lcp(x, a, y, b);
    assert x[a + h..a + k] == x[a..a + k][h..];
    assert y[b + h..b + k] == y[b..b + k][h..];
    LcpUnique(x, a + h, y, b + h, k - h);
  }

  // A pair of suffixes compared through a third agrees as far as the weaker of
  // the two comparisons and is ordered there.
  lemma AgreesThrough(x: seq<byte>, a: nat, y: seq<byte>, b: nat, z: seq<byte>, c: nat, m: nat)
    requires a <= |x| && b <= |y| && c <= |z|
    requires Less(x, a, y, b) && Less(y, b, z, c)
    requires m == if Lcp(x, a, y, b) < Lcp(y, b, z, c) then Lcp(x, a, y, b) else Lcp(y, b, z, c)
    ensures IsLcp(x, a, z, c, m)
    ensures c + m < |z| && (a + m == |x| || x[a + m] < z[c + m])
  {
    hide Lcp;
    var k, l := Lcp(x, a, y, b), Lcp(y, b, z, c);
    AgreeShorter(x, a, y, b, k, m);
    AgreeShorter(y, b, z, c, l, m);
    if l < k {
      AgreeAt(x, a, y, b, k, l);
    } else if k < l {
      AgreeAt(y, b, z, c, l, k);
    }
  }

  // The order is transitive, and the outer pair agrees exactly as far as the
  // weaker of the two inner pairs does.
  lemma LessTransitive(x: seq<byte>, a: nat, y: seq<byte>, b: nat, z: seq<byte>, c: nat)
    requires a <= |x| && b <= |y| && c <= |z|
    requires Less(x, a, y, b) && Less(y, b, z, c)
    ensures Less(x, a, z, c)
    ensures Lcp(x, a, z, c)
         == if Lcp(x, a, y, b) < Lcp(y, b, z, c) then Lcp(x, a, y, b) else Lcp(y, b, z, c)
  {
    hide Lcp, IsLcp;
    var k, l := Lcp(x, a, y, b), Lcp(y, b, z, c);
    var m := if k < l then k else l;
    AgreesThrough(x, a, y, b, z, c, m);
    LcpUnique(x, a, z, c, m);
  }

  lemma LessAsymmetric(x: seq<byte>, a: nat, y: seq<byte>, b: nat)
    requires a <= |x| && b <= |y|
    requires Less(x, a, y, b)
    ensures !Less(y, b, x, a)
  {
    LcpSymmetric(x, a, y, b);
  }

  // Two suffixes of one string are comparable: they differ in length.
  lemma SuffixesComparable(s: seq<byte>, a: nat, b: nat)
    requires a <= |s| && b <= |s| && a != b
    ensures Less(s, a, s, b) != Less(s, b, s, a)
  {
    hide Lcp;
    LcpSymmetric(s, a, s, b);
  }
}
