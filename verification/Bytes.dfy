// Bytes, optional results, powers, and the counting function that the scan and
// the extension loops share.
module Bytes {

  type byte = x: int | 0 <= x < 256

  datatype Option<+T> = None | Some(value: T)

  function Min(a: int, b: int): int { if a < b then a else b }

  function Pow(base: nat, n: nat): nat {
    if n == 0 then 1 else base * Pow(base, n - 1)
  }

  // The number of t below len with x[a + t] == y[b + t].
  function Matches(x: seq<byte>, a: nat, y: seq<byte>, b: nat, len: nat): (m: nat)
    requires a + len <= |x| && b + len <= |y|
    ensures m <= len
  {
    if len == 0 then 0
    else Matches(x, a, y, b, len - 1) + (if x[a + len - 1] == y[b + len - 1] then 1 else 0)
  }

  // That number is the size of the set of matching positions k of x.
  lemma {:induction false} MatchesIsCardinality(x: seq<byte>, a: nat, y: seq<byte>, b: nat, len: nat)
    requires a + len <= |x| && b + len <= |y|
    ensures Matches(x, a, y, b, len) == |set k | a <= k < a + len && x[k] == y[k - a + b]|
    decreases len
  {
    var all := set k | a <= k < a + len && x[k] == y[k - a + b];
    if len == 0 {
      assert all == {};
    } else {
      MatchesIsCardinality(x, a, y, b, len - 1);
      var last := a + len - 1;
      var before := set k | a <= k < last && x[k] == y[k - a + b];
      assert all == if x[last] == y[b + len - 1] then before + {last} else before;
    }
  }

  // Counting over a region is counting over its two halves.
  lemma {:induction false} MatchesSplit(x: seq<byte>, a: nat, y: seq<byte>, b: nat, k: nat, len: nat)
    requires k <= len && a + len <= |x| && b + len <= |y|
    ensures Matches(x, a, y, b, len)
         == Matches(x, a, y, b, k) + Matches(x, a + k, y, b + k, len - k)
    decreases len
  {
    if k < len {
      MatchesSplit(x, a, y, b, k, len - 1);
    }
  }
}
