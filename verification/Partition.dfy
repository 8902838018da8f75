// The two rearrangements inside split: selecting the smallest keys (short
// segments) and the three-way partition around a pivot key (long ones).
module Partition {
  import opened Refinement

  // Every entry of lo..hi is a suffix whose sort key v[i[k] + h] exists.
  ghost predicate KeysExist(i: seq<int>, v: seq<int>, h: nat, lo: nat, hi: nat) {
    && lo <= hi <= |i|
    && (forall k :: lo <= k < hi ==> 0 <= i[k] && i[k] + h < |v|)
    && (forall j, k :: lo <= j < k < hi ==> i[j] != i[k])
  }

  lemma ShuffleKeepsKeys(i: seq<int>, j: seq<int>, v: seq<int>, h: nat, lo: nat, hi: nat)
    requires KeysExist(i, v, h, lo, hi) && Shuffled(i, j, lo, hi)
    ensures KeysExist(j, v, h, lo, hi)
  {
    forall k | lo <= k < hi
      ensures 0 <= j[k] && j[k] + h < |v|
    {
      var p := SourceOf(i, j, lo, hi, k);
    }
  }

  // Exchange two entries; the ghost arguments record that the segment lo..hi
  // is still a rearrangement of what it was in base.
  method Exchange(I: array<int>, p: nat, q: nat, ghost base: seq<int>, ghost lo: nat, ghost hi: nat)
    requires Shuffled(base, I[..], lo, hi) && lo <= p < hi && lo <= q < hi
    modifies I
    ensures I.Length == |old(I[..])| && I[..] == Swapped(old(I[..]), p, q)
    ensures Shuffled(base, I[..], lo, hi)
  {
    ghost var before := I[..];
    var tmp := I[p];
    I[p] := I[q];
    I[q] := tmp;
    SwapShuffles(before, lo, hi, p, q);
    assert I[..] == Swapped(before, p, q);
    ShuffledTransitive(base, before, I[..], lo, hi, lo, hi);
  }

  // Of the n entries from k on, the first j have key x and the others a
  // larger one.
  ghost predicate Selected(i: seq<int>, v: seq<int>, h: nat, x: int, k: nat, j: nat, n: nat) {
    && KeysExist(i, v, h, k, k + n) && j <= n
    && (forall a :: k <= a < k + j ==> v[i[a] + h] == x)
    && (forall b :: k + j <= b < k + n ==> v[i[b] + h] > x)
  }

  lemma SelectFirst(i: seq<int>, v: seq<int>, h: nat, k: nat, hi: nat)
    requires KeysExist(i, v, h, k, hi) && k < hi
    ensures 0 <= i[k] && i[k] + h < |v| && Shuffled(i, i, k, hi)
    ensures Selected(i, v, h, v[i[k] + h], k, 1, 1)
  {
    ShuffledReflexive(i, k, hi);
  }

  // A larger key stays where it is; a key equal to the smallest joins the
  // others; a new smallest key starts over at the front.
  lemma SelectNext(i: seq<int>, v: seq<int>, h: nat, x: int, k: nat, j: nat, n: nat, hi: nat)
    requires Selected(i, v, h, x, k, j, n) && KeysExist(i, v, h, k, hi) && k + n < hi
    ensures 0 <= i[k + n] && i[k + n] + h < |v| && j <= n
    ensures var y := v[i[k + n] + h];
      && (y > x ==> Selected(i, v, h, x, k, j, n + 1))
      && (y == x ==> Selected(Swapped(i, k + j, k + n), v, h, x, k, j + 1, n + 1))
      && (y < x ==> Selected(Swapped(i, k, k + n), v, h, y, k, 1, n + 1))
  {
  }

  // Bring the entries with the smallest key of k..hi to the front; j of them.
  method SelectSmallest(I: array<int>, V: array<int>, k: nat, hi: nat, h: nat) returns (j: nat, ghost x: int)
    requires I != V && k < hi <= I.Length && KeysExist(I[..], V[..], h, k, hi)
    modifies I
    ensures 1 <= j <= hi - k
    ensures Shuffled(old(I[..]), I[..], k, hi)
    ensures Selected(I[..], V[..], h, x, k, j, hi - k)
  {
    hide Shuffled, Selected, KeysExist, Swapped;
    ghost var v, base := V[..], I[..];
    SelectFirst(base, v, h, k, hi);
    j := 1;
    var least := V[I[k] + h];
    var i := 1;
    while k + i < hi
      invariant 1 <= j <= i <= hi - k
      invariant V[..] == v && |base| == I.Length
      invariant Shuffled(base, I[..], k, hi) && KeysExist(I[..], v, h, k, hi)
      invariant Selected(I[..], v, h, least, k, j, i)
    {
      ghost var now := I[..];
      SelectNext(now, v, h, least, k, j, i, hi);
      if V[I[k + i] + h] < least {
        least := V[I[k + i] + h];
        j := 0;
      }
      if V[I[k + i] + h] == least {
        Exchange(I, k + j, k + i, base, k, hi);
        ShuffleKeepsKeys(base, I[..], v, h, k, hi);
        j := j + 1;
      }
      i := i + 1;
    }
    x := least;
  }

  // ----- Counting keys on each side of the pivot -----

  function Side(x: int, key: int): int {
    if key < x then -1 else if key == x then 0 else 1
  }

  ghost function Sides(i: seq<int>, v: seq<int>, h: nat, x: int, lo: nat, hi: nat): (r: seq<int>)
    requires KeysExist(i, v, h, lo, hi)
    ensures |r| == hi - lo && forall p :: 0 <= p < |r| ==> r[p] == Side(x, v[i[lo + p] + h])
  {
    seq(hi - lo, k requires 0 <= k < hi - lo => Side(x, v[i[lo + k] + h]))
  }

  ghost function Count(s: seq<int>, c: int): nat {
    if s == [] then 0
    else Count(s[..|s| - 1], c) + (if s[|s| - 1] == c then 1 else 0)
  }

  lemma {:induction false} CountUpdate(s: seq<int>, p: nat, x: int, c: int)
    requires p < |s|
    ensures Count(s[p := x], c) + (if s[p] == c then 1 else 0) == Count(s, c) + (if x == c then 1 else 0)
  {
    var last := |s| - 1;
    if p < last {
      CountUpdate(s[..last], p, x, c);
      assert s[p := x][..last] == s[..last][p := x];
    } else {
      assert s[p := x][..last] == s[..last];
    }
  }

  lemma CountSwap(s: seq<int>, p: nat, q: nat, c: int)
    requires p < |s| && q < |s|
    ensures Count(Swapped(s, p, q), c) == Count(s, c)
  {
    CountUpdate(s, p, s[q], c);
    CountUpdate(s[p := s[q]], q, s[p], c);
  }

  // A block of c leaves no room for more than Count(s, c) of them elsewhere.
  lemma {:induction false} CountBlock(s: seq<int>, c: int, a: nat, b: nat)
    requires a <= b <= |s| && forall k :: a <= k < b ==> s[k] == c
    ensures Count(s, c) >= b - a
    ensures forall p :: 0 <= p < |s| && !(a <= p < b) && s[p] == c ==> Count(s, c) > b - a
  {
    if s != [] {
      var last := |s| - 1;
      if a < b == |s| {
        CountBlock(s[..last], c, a, b - 1);
      } else if b <= last {
        CountBlock(s[..last], c, a, b);
      } else {
        CountBlock(s[..last], c, last, last);
      }
    }
  }

  lemma {:induction false} CountSides(s: seq<int>)
    requires forall k :: 0 <= k < |s| ==> -1 <= s[k] <= 1
    ensures Count(s, -1) + Count(s, 0) + Count(s, 1) == |s|
  {
    if s != [] {
      CountSides(s[..|s| - 1]);
    }
  }

  // ----- The three-way partition -----

  // s has m entries -1, n - m entries 0 and |s| - n entries 1; of these the
  // blocks 0..a, m..m + j and n..n + k are in place.
  ghost predicate Sorting(s: seq<int>, m: nat, n: nat, a: nat, j: nat, k: nat) {
    && a <= m && m + j <= n && n + k <= |s|
    && Count(s, -1) == m && Count(s, 0) == n - m && Count(s, 1) == |s| - n
    && (forall p :: 0 <= p < a ==> s[p] == -1)
    && (forall p :: m <= p < m + j ==> s[p] == 0)
    && (forall p :: n <= p < n + k ==> s[p] == 1)
  }

  // An entry outside the block it belongs to finds room at the block's end.
  lemma SortingHasRoom(s: seq<int>, m: nat, n: nat, a: nat, j: nat, k: nat, p: nat)
    requires Sorting(s, m, n, a, j, k) && p < |s|
    ensures a <= p && s[p] == -1 ==> a < m
    ensures !(m <= p < m + j) && s[p] == 0 ==> m + j < n
    ensures !(n <= p < n + k) && s[p] == 1 ==> n + k < |s|
  {
    CountBlock(s, -1, 0, a);
    CountBlock(s, 0, m, m + j);
    CountBlock(s, 1, n, n + k);
  }

  // Exchanging it with the entry there puts it in place.
  lemma SortingSwap(s: seq<int>, m: nat, n: nat, a: nat, j: nat, k: nat, p: nat)
    requires Sorting(s, m, n, a, j, k) && (a <= p < m || (a == m && m + j <= p < n))
    ensures s[p] == 0 && p < m && m + j < n ==> Sorting(Swapped(s, p, m + j), m, n, a, j + 1, k)
    ensures s[p] == 1 && n + k < |s| ==> Sorting(Swapped(s, p, n + k), m, n, a, j, k + 1)
  {
    hide Count;
    var q := if s[p] == 0 then m + j else n + k;
    if q < |s| {
      CountSwap(s, p, q, -1);
      CountSwap(s, p, q, 0);
      CountSwap(s, p, q, 1);
    }
  }

  // The first loop's choices at its index a.
  lemma SortingLeft(s: seq<int>, m: nat, n: nat, a: nat, j: nat, k: nat)
    requires Sorting(s, m, n, a, j, k) && a < m
    ensures m + j <= n && n + k <= |s|
    ensures s[a] == -1 ==> Sorting(s, m, n, a + 1, j, k)
    ensures s[a] == 0 ==> m + j < n && Sorting(Swapped(s, a, m + j), m, n, a, j + 1, k)
    ensures s[a] == 1 ==> n + k < |s| && Sorting(Swapped(s, a, n + k), m, n, a, j, k + 1)
  {
    hide Count;
    SortingHasRoom(s, m, n, a, j, k, a);
    SortingSwap(s, m, n, a, j, k, a);
  }

  // The second loop's choices at its index m + j.
  lemma SortingMiddle(s: seq<int>, m: nat, n: nat, j: nat, k: nat)
    requires Sorting(s, m, n, m, j, k) && m + j < n
    ensures n + k <= |s|
    ensures s[m + j] != -1
    ensures s[m + j] == 0 ==> Sorting(s, m, n, m, j + 1, k)
    ensures s[m + j] == 1 ==> n + k < |s| && Sorting(Swapped(s, m + j, n + k), m, n, m, j, k + 1)
  {
    hide Count;
    SortingHasRoom(s, m, n, m, j, k, m + j);
    SortingSwap(s, m, n, m, j, k, m + j);
  }

  ghost predicate Parting(i: seq<int>, v: seq<int>, h: nat, x: int, lo: nat, hi: nat,
                          jj: nat, kk: nat, a: nat, j: nat, k: nat)
  {
    && KeysExist(i, v, h, lo, hi)
    && lo <= a && lo <= jj && lo <= kk
    && Sorting(Sides(i, v, h, x, lo, hi), jj - lo, kk - lo, a - lo, j, k)
  }

  // The segment lo..hi in three parts: keys below x, equal to x, above x.
  ghost predicate Parted(i: seq<int>, v: seq<int>, h: nat, x: int, lo: nat, jj: nat, kk: nat, hi: nat) {
    && KeysExist(i, v, h, lo, hi) && lo <= jj <= kk <= hi
    && (forall p :: lo <= p < jj ==> v[i[p] + h] < x)
    && (forall p :: jj <= p < kk ==> v[i[p] + h] == x)
    && (forall p :: kk <= p < hi ==> v[i[p] + h] > x)
  }

  lemma SwapKeepsKeys(i: seq<int>, v: seq<int>, h: nat, lo: nat, hi: nat, p: nat, q: nat)
    requires KeysExist(i, v, h, lo, hi) && lo <= p < hi && lo <= q < hi
    ensures KeysExist(Swapped(i, p, q), v, h, lo, hi)
  {
    SwapShuffles(i, lo, hi, p, q);
    ShuffleKeepsKeys(i, Swapped(i, p, q), v, h, lo, hi);
  }

  lemma SwapSides(i: seq<int>, v: seq<int>, h: nat, x: int, lo: nat, hi: nat, p: nat, q: nat)
    requires KeysExist(i, v, h, lo, hi) && lo <= p < hi && lo <= q < hi
    requires KeysExist(Swapped(i, p, q), v, h, lo, hi)
    ensures var s := Sides(i, v, h, x, lo, hi);
      Sides(Swapped(i, p, q), v, h, x, lo, hi) == Swapped(s, p - lo, q - lo)
  {
    var s := Sides(i, v, h, x, lo, hi);
    assert Sides(Swapped(i, p, q), v, h, x, lo, hi) == Swapped(s, p - lo, q - lo);
  }

  lemma PartingSwap(i: seq<int>, v: seq<int>, h: nat, x: int, lo: nat, hi: nat,
                    jj: nat, kk: nat, a: nat, j: nat, k: nat, p: nat, q: nat)
    requires KeysExist(i, v, h, lo, hi) && lo <= p < hi && lo <= q < hi
    requires lo <= a && lo <= jj && lo <= kk
    requires var s := Sides(i, v, h, x, lo, hi);
      Sorting(Swapped(s, p - lo, q - lo), jj - lo, kk - lo, a - lo, j, k)
    ensures Parting(Swapped(i, p, q), v, h, x, lo, hi, jj, kk, a, j, k)
  {
    hide Sorting;
    SwapKeepsKeys(i, v, h, lo, hi, p, q);
    SwapSides(i, v, h, x, lo, hi, p, q);
  }

  // What the first partition loop may do at its index a.
  lemma PartingLeft(i: seq<int>, v: seq<int>, h: nat, x: int, lo: nat, hi: nat,
                    jj: nat, kk: nat, a: nat, j: nat, k: nat)
    requires Parting(i, v, h, x, lo, hi, jj, kk, a, j, k) && a < jj
    ensures jj + j <= kk && kk + k <= hi <= |i| && 0 <= i[a] && i[a] + h < |v|
    ensures v[i[a] + h] < x ==> Parting(i, v, h, x, lo, hi, jj, kk, a + 1, j, k)
    ensures v[i[a] + h] == x ==>
      jj + j < kk && Parting(Swapped(i, a, jj + j), v, h, x, lo, hi, jj, kk, a, j + 1, k)
    ensures v[i[a] + h] > x ==>
      kk + k < hi && Parting(Swapped(i, a, kk + k), v, h, x, lo, hi, jj, kk, a, j, k + 1)
  {
    hide Sorting, Count;
    var s := Sides(i, v, h, x, lo, hi);
    SortingLeft(s, jj - lo, kk - lo, a - lo, j, k);
    assert s[a - lo] == Side(x, v[i[lo + (a - lo)] + h]);
    if v[i[a] + h] == x {
      PartingSwap(i, v, h, x, lo, hi, jj, kk, a, j + 1, k, a, jj + j);
    } else if v[i[a] + h] > x {
      PartingSwap(i, v, h, x, lo, hi, jj, kk, a, j, k + 1, a, kk + k);
    }
  }

  // What the second partition loop may do at its index jj + j.
  lemma PartingMiddle(i: seq<int>, v: seq<int>, h: nat, x: int, lo: nat, hi: nat,
                      jj: nat, kk: nat, j: nat, k: nat)
    requires Parting(i, v, h, x, lo, hi, jj, kk, jj, j, k) && jj + j < kk
    ensures kk + k <= hi <= |i| && 0 <= i[jj + j] && i[jj + j] + h < |v|
    ensures v[i[jj + j] + h] == x ==> Parting(i, v, h, x, lo, hi, jj, kk, jj, j + 1, k)
    ensures v[i[jj + j] + h] != x ==>
      kk + k < hi && Parting(Swapped(i, jj + j, kk + k), v, h, x, lo, hi, jj, kk, jj, j, k + 1)
  {
    hide Sorting, Count;
    var s := Sides(i, v, h, x, lo, hi);
    var p := jj + j;
    SortingMiddle(s, jj - lo, kk - lo, j, k);
    assert s[p - lo] == Side(x, v[i[lo + (p - lo)] + h]);
    if v[i[p] + h] != x {
      PartingSwap(i, v, h, x, lo, hi, jj, kk, jj, j, k + 1, p, kk + k);
    }
  }

  lemma PartingStart(i: seq<int>, v: seq<int>, h: nat, x: int, lo: nat, hi: nat, below: nat, equal: nat)
    requires KeysExist(i, v, h, lo, hi)
    requires below == Count(Sides(i, v, h, x, lo, hi), -1)
    requires equal == Count(Sides(i, v, h, x, lo, hi), 0)
    ensures lo + below + equal <= hi <= |i| && Shuffled(i, i, lo, hi)
    ensures Parting(i, v, h, x, lo, hi, lo + below, lo + below + equal, lo, 0, 0)
  {
    hide Count, Shuffled;
    ShuffledReflexive(i, lo, hi);
    CountSides(Sides(i, v, h, x, lo, hi));
  }

  lemma PivotCounts(i: seq<int>, v: seq<int>, h: nat, x: int, lo: nat, hi: nat, k: nat)
    requires KeysExist(i, v, h, lo, hi) && lo <= k < hi && v[i[k] + h] == x
    ensures Count(Sides(i, v, h, x, lo, hi), 0) > 0
  {
    var s := Sides(i, v, h, x, lo, hi);
    assert s[k - lo] == Side(x, v[i[lo + (k - lo)] + h]);
    CountBlock(s, 0, 0, 0);
  }

  // With the first two blocks complete, all that is left is above the pivot.
  lemma PartingDone(i: seq<int>, v: seq<int>, h: nat, x: int, lo: nat, hi: nat, jj: nat, kk: nat, j: nat, k: nat)
    requires Parting(i, v, h, x, lo, hi, jj, kk, jj, j, k) && jj + j == kk
    ensures Parted(i, v, h, x, lo, jj, kk, hi)
  {
    var s := Sides(i, v, h, x, lo, hi);
    forall p | lo <= p < hi
      ensures s[p - lo] == Side(x, v[i[p] + h])
      ensures kk <= p ==> s[p - lo] == 1
    {
      SortingHasRoom(s, jj - lo, kk - lo, jj - lo, j, k, p - lo);
    }
  }

  // How many keys of lo..hi are below x, and how many equal to it.
  method CountKeys(I: array<int>, V: array<int>, lo: nat, hi: nat, h: nat, x: int) returns (below: nat, equal: nat)
    requires I != V && KeysExist(I[..], V[..], h, lo, hi)
    ensures below == Count(Sides(I[..], V[..], h, x, lo, hi), -1)
    ensures equal == Count(Sides(I[..], V[..], h, x, lo, hi), 0)
  {
    ghost var s := Sides(I[..], V[..], h, x, lo, hi);
    below, equal := 0, 0;
    for i := lo to hi
      invariant below == Count(s[..i - lo], -1) && equal == Count(s[..i - lo], 0)
    {
      assert s[..i + 1 - lo][..i - lo] == s[..i - lo];
      if V[I[i] + h] < x {
        below := below + 1;
      }
      if V[I[i] + h] == x {
        equal := equal + 1;
      }
    }
    assert s[..hi - lo] == s;
  }

  // First partition loop: leave only keys below x in lo..jj.
  method PlaceBelow(I: array<int>, V: array<int>, lo: nat, hi: nat, h: nat, x: int, jj: nat, kk: nat,
                    ghost base: seq<int>)
    returns (j: nat, k: nat)
    requires I != V && lo <= jj <= kk <= hi && |base| == I.Length
    requires Shuffled(base, I[..], lo, hi) && Parting(I[..], V[..], h, x, lo, hi, jj, kk, lo, 0, 0)
    modifies I
    ensures Shuffled(base, I[..], lo, hi) && Parting(I[..], V[..], h, x, lo, hi, jj, kk, jj, j, k)
    ensures jj + j <= kk && kk + k <= hi
  {
    hide Shuffled, Parting, Swapped;
    ghost var v := V[..];
    var i := lo;
    j, k := 0, 0;
    while i < jj
      invariant lo <= i <= jj && V[..] == v && jj + j <= kk && kk + k <= hi
      invariant Shuffled(base, I[..], lo, hi) && Parting(I[..], v, h, x, lo, hi, jj, kk, i, j, k)
      decreases (jj - i) + (kk - jj - j) + (hi - kk - k)
    {
      PartingLeft(I[..], v, h, x, lo, hi, jj, kk, i, j, k);
      if V[I[i] + h] < x {
        i := i + 1;
      } else if V[I[i] + h] == x {
        Exchange(I, i, jj + j, base, lo, hi);
        j := j + 1;
      } else {
        Exchange(I, i, kk + k, base, lo, hi);
        k := k + 1;
      }
    }
  }

  // Second partition loop: leave only keys equal to x in jj..kk.
  method PlaceEqual(I: array<int>, V: array<int>, ghost lo: nat, ghost hi: nat, h: nat, x: int, jj: nat, kk: nat,
                    j0: nat, k0: nat, ghost base: seq<int>)
    requires I != V && lo <= jj && jj + j0 <= kk && kk + k0 <= hi && |base| == I.Length
    requires Shuffled(base, I[..], lo, hi) && Parting(I[..], V[..], h, x, lo, hi, jj, kk, jj, j0, k0)
    modifies I
    ensures Shuffled(base, I[..], lo, hi)
    ensures Parted(I[..], V[..], h, x, lo, jj, kk, hi)
  {
    hide Shuffled, Parting, Parted, Swapped;
    ghost var v := V[..];
    var j, k := j0, k0;
    while jj + j < kk
      invariant jj + j <= kk && kk + k <= hi && V[..] == v
      invariant Shuffled(base, I[..], lo, hi) && Parting(I[..], v, h, x, lo, hi, jj, kk, jj, j, k)
      decreases (kk - jj - j) + (hi - kk - k)
    {
      PartingMiddle(I[..], v, h, x, lo, hi, jj, kk, j, k);
      if V[I[jj + j] + h] == x {
        j := j + 1;
      } else {
        Exchange(I, jj + j, kk + k, base, lo, hi);
        k := k + 1;
      }
    }
    PartingDone(I[..], v, h, x, lo, hi, jj, kk, j, k);
  }

  // The three-way partition of lo..hi around the key of entry m: count, then
  // two loops of exchanges, each of which puts one more entry in its part.
  method PartitionAround(I: array<int>, V: array<int>, lo: nat, hi: nat, h: nat, m: nat)
    returns (jj: nat, kk: nat, ghost x: int)
    requires I != V && lo <= m < hi <= I.Length && KeysExist(I[..], V[..], h, lo, hi)
    modifies I
    ensures Shuffled(old(I[..]), I[..], lo, hi)
    ensures Parted(I[..], V[..], h, x, lo, jj, kk, hi) && lo <= jj < kk <= hi
  {
    hide Shuffled, Parting, Parted, Count, Sides;
    ghost var base := I[..];
    var key := V[I[m] + h];
    x := key;
    PivotCounts(base, V[..], h, x, lo, hi, m);
    jj, kk := CountKeys(I, V, lo, hi, h, key);
    PartingStart(base, V[..], h, x, lo, hi, jj, kk);
    jj := jj + lo;
    kk := kk + jj;
    var j, k := PlaceBelow(I, V, lo, hi, h, key, jj, kk, base);
    PlaceEqual(I, V, lo, hi, h, key, jj, kk, j, k, base);
  }
}
