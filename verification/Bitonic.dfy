/** The networks of bitonicMerge and bitonicSort (Lab 2), and what they do to every array. */
module Bitonic {
  import opened Comparators
  import opened Naturals

  // ----- the networks, in the order of the sequential recursion

  /** The loop of bitonicMerge from index i on. */
  function CleanNet(low: nat, k: nat, i: nat, dir: int): (net: seq<Comparator>)
    requires low <= i <= low + k
    ensures Within(net, low, low + 2 * k) && |net| == low + k - i
    decreases low + k - i
  {
    if i == low + k then [] else [Comparator(i, i + k, dir)] + CleanNet(low, k, i + 1, dir)
  }

  /** bitonicMerge(low, cnt, dir); an odd cnt leaves its last position alone. */
  function MergeNet(low: nat, cnt: nat, dir: int): (net: seq<Comparator>)
    ensures Within(net, low, low + cnt / 2 * 2)
    decreases cnt
  {
    if cnt <= 1 then [] else
      var k := cnt / 2;
      CleanNet(low, k, low, dir) + (MergeNet(low, k, dir) + MergeNet(low + k, k, dir))
  }

  /** bitonicSort(low, cnt, dir). */
  function SortNet(low: nat, cnt: nat, dir: int): (net: seq<Comparator>)
    ensures Within(net, low, low + cnt / 2 * 2)
    decreases cnt
  {
    if cnt <= 1 then [] else
      var k := cnt / 2;
      SortNet(low, k, 1) + SortNet(low + k, k, 0) + MergeNet(low, cnt, dir)
  }

  predicate IsPow2(n: nat) {
    n == 1 || (n > 0 && n % 2 == 0 && IsPow2(n / 2))
  }

  // ----- bitonic sequences

  ghost predicate Bits(s: seq<int>, lo: int, hi: int)
    requires 0 <= lo <= hi <= |s|
  {
    forall x :: lo <= x < hi ==> 0 <= s[x] <= 1
  }

  /** The slice [lo, hi) holds c on [a, b) and the other bit elsewhere. */
  ghost predicate Arc(s: seq<int>, lo: int, hi: int, a: int, b: int, c: int)
    requires 0 <= lo <= hi <= |s|
  {
    lo <= a <= b <= hi && 0 <= c <= 1 &&
    forall x :: lo <= x < hi ==> s[x] == if a <= x < b then c else 1 - c
  }

  /** The slice holds bits that change at most twice around the cycle. */
  ghost predicate BitonicBits(s: seq<int>, lo: int, hi: int)
    requires 0 <= lo <= hi <= |s|
  {
    exists a, b, c :: Arc(s, lo, hi, a, b, c)
  }

  /** Cyclic bitonic integers: for every t the truth values of "at least t" change at most twice
      around the cycle. */
  ghost predicate Bitonic(s: seq<int>, lo: int, hi: int)
    requires 0 <= lo <= hi <= |s|
  {
    forall t :: BitonicBits(Threshold(s, t), lo, hi)
  }

  /** Every element of the left half comes, for the direction, before every one of the right half. */
  ghost predicate Bounded(s: seq<int>, lo: int, mid: int, hi: int, dir: int)
    requires 0 <= lo <= mid <= hi <= |s|
  {
    forall x, y :: lo <= x < mid <= y < hi ==> if dir == 1 then s[x] <= s[y] else s[x] >= s[y]
  }

  // ----- one half-cleaner pass

  function Lower(x: int, y: int, dir: int): int {
    if (dir == 1) == (x <= y) then x else y
  }

  function Upper(x: int, y: int, dir: int): int {
    if (dir == 1) == (x <= y) then y else x
  }

  /** After the loop from index i, partners from i on are ordered for the direction. */
  ghost predicate Cleaned(s: seq<int>, r: seq<int>, low: nat, k: nat, i: nat, dir: int)
    requires low <= i <= low + k && low + 2 * k <= |s| == |r|
  {
    && (forall x :: i <= x < low + k ==> r[x] == Lower(s[x], s[x + k], dir))
    && (forall y :: i + k <= y < low + 2 * k ==> r[y] == Upper(s[y - k], s[y], dir))
    && (forall x :: low <= x < i || low + k <= x < i + k ==> r[x] == s[x])
  }

  lemma CleanedStep(s: seq<int>, s1: seq<int>, r: seq<int>, low: nat, k: nat, i: nat, dir: int)
    requires low <= i < low + k && low + 2 * k <= |s| == |s1| == |r| && 0 <= dir <= 1
    requires s1 == CompareSwap(s, Comparator(i, i + k, dir)) && Cleaned(s1, r, low, k, i + 1, dir)
    ensures Cleaned(s, r, low, k, i, dir)
  {
    assert s1[i] == Lower(s[i], s[i + k], dir) && s1[i + k] == Upper(s[i], s[i + k], dir);
    assert forall x :: 0 <= x < |s| && x != i && x != i + k ==> s1[x] == s[x];
  }

  lemma {:induction false} CleanEffect(s: seq<int>, low: nat, k: nat, i: nat, dir: int)
    requires low <= i <= low + k && low + 2 * k <= |s| && 0 <= dir <= 1
    ensures Cleaned(s, Apply(s, CleanNet(low, k, i, dir)), low, k, i, dir)
    decreases low + k - i
  {
    if i < low + k {
      var c := Comparator(i, i + k, dir);
      var s1 := CompareSwap(s, c);
      var rest := CleanNet(low, k, i + 1, dir);
      assert ([c] + rest)[1..] == rest;
      CleanEffect(s1, low, k, i + 1, dir);
      CleanedStep(s, s1, Apply(s1, rest), low, k, i, dir);
    }
  }

  /** The slice of r at off holds c where both partners (or, with both false, either partner) of
      the slice of s at low hold c. */
  ghost predicate Combined(s: seq<int>, r: seq<int>, low: nat, k: nat, off: nat, c: int, both: bool)
    requires low + 2 * k <= |s| == |r| && off + k <= |s|
  {
    forall y :: off <= y < off + k ==>
      var u, v := s[y - off + low], s[y - off + low + k];
      r[y] == if (u == c && v == c) || (!both && (u == c || v == c)) then c else 1 - c
  }

  lemma BothHalf(s: seq<int>, r: seq<int>, low: nat, k: nat, off: nat, a: int, b: int, c: int)
    requires low + 2 * k <= |s| == |r| && off + k <= |s|
    requires Arc(s, low, low + 2 * k, a, b, c) && Combined(s, r, low, k, off, c, true)
    ensures BitonicBits(r, off, off + k)
    ensures b - a <= k ==> Constant(r, off, off + k, 1 - c)
  {
    var d := off - low;
    if b - a <= k {
      assert Arc(r, off, off + k, off, off, c);
    } else {
      assert Arc(r, off, off + k, a + d, b - k + d, c);
    }
  }

  lemma EitherHalf(s: seq<int>, r: seq<int>, low: nat, k: nat, off: nat, a: int, b: int, c: int)
    requires low + 2 * k <= |s| == |r| && off + k <= |s|
    requires Arc(s, low, low + 2 * k, a, b, c) && Combined(s, r, low, k, off, c, false)
    ensures BitonicBits(r, off, off + k)
    ensures b - a > k ==> Constant(r, off, off + k, c)
  {
    var d := off - low;
    if b <= low + k {
      assert Arc(r, off, off + k, a + d, b + d, c);
    } else if low + k <= a {
      assert Arc(r, off, off + k, a - k + d, b - k + d, c);
    } else if b - a > k {
      assert Arc(r, off, off + k, off, off + k, c);
    } else {
      assert Arc(r, off, off + k, b - k + d, a + d, 1 - c);
    }
  }

  /** On bits, the left half combines partners by "both" for the bit dir and the right half by
      "either"; for the other bit it is the other way around. */
  lemma CleanedCombines(s: seq<int>, r: seq<int>, low: nat, k: nat, dir: int, c: int)
    requires low + 2 * k <= |s| == |r| && 0 <= dir <= 1 && 0 <= c <= 1
    requires Cleaned(s, r, low, k, low, dir) && Bits(s, low, low + 2 * k)
    ensures Combined(s, r, low, k, low, c, c == dir)
    ensures Combined(s, r, low, k, low + k, c, c != dir)
  {
    forall y | low <= y < low + k
      ensures var u, v := s[y], s[y + k];
        r[y] == if (u == c && v == c) || (c != dir && (u == c || v == c)) then c else 1 - c
    {
      assert r[y] == Lower(s[y], s[y + k], dir);
    }
    forall y | low + k <= y < low + 2 * k
      ensures var u, v := s[y - k], s[y];
        r[y] == if (u == c && v == c) || (c == dir && (u == c || v == c)) then c else 1 - c
    {
      assert r[y] == Upper(s[y - k], s[y], dir);
    }
  }

  ghost predicate Constant(s: seq<int>, lo: int, hi: int, v: int)
    requires 0 <= lo <= hi <= |s|
  {
    forall x :: lo <= x < hi ==> s[x] == v
  }

  /** On bits: both halves stay bitonic and one of them becomes constant. */
  ghost predicate CleanHalves(r: seq<int>, low: nat, k: nat, dir: int)
    requires low + 2 * k <= |r|
  {
    && BitonicBits(r, low, low + k) && BitonicBits(r, low + k, low + 2 * k)
    && (Constant(r, low, low + k, 1 - dir) || Constant(r, low + k, low + 2 * k, dir))
  }

  lemma CleanedHalves(s: seq<int>, r: seq<int>, low: nat, k: nat, dir: int, a: int, b: int, c: int)
    requires low + 2 * k <= |s| == |r| && 0 <= dir <= 1
    requires Cleaned(s, r, low, k, low, dir) && Arc(s, low, low + 2 * k, a, b, c)
    ensures CleanHalves(r, low, k, dir)
  {
    CleanedCombines(s, r, low, k, dir, c);
    hide Cleaned, Combined, Arc, BitonicBits;
    if c == dir {
      BothHalf(s, r, low, k, low, a, b, c);
      EitherHalf(s, r, low, k, low + k, a, b, c);
    } else {
      EitherHalf(s, r, low, k, low, a, b, c);
      BothHalf(s, r, low, k, low + k, a, b, c);
    }
  }

  lemma CleanBits(s: seq<int>, low: nat, k: nat, dir: int)
    requires low + 2 * k <= |s| && 0 <= dir <= 1 && BitonicBits(s, low, low + 2 * k)
    ensures CleanHalves(Apply(s, CleanNet(low, k, low, dir)), low, k, dir)
  {
    var a, b, c :| Arc(s, low, low + 2 * k, a, b, c);
    CleanEffect(s, low, k, low, dir);
    CleanedHalves(s, Apply(s, CleanNet(low, k, low, dir)), low, k, dir, a, b, c);
  }

  /** One half-cleaner pass on integers. */
  lemma HalfCleaner(s: seq<int>, low: nat, k: nat, dir: int)
    requires low + 2 * k <= |s| && 0 <= dir <= 1 && Bitonic(s, low, low + 2 * k)
    ensures
      var r := Apply(s, CleanNet(low, k, low, dir));
      && Bitonic(r, low, low + k) && Bitonic(r, low + k, low + 2 * k)
      && Bounded(r, low, low + k, low + 2 * k, dir)
  {
    var net := CleanNet(low, k, low, dir);
    var r := Apply(s, net);
    forall t ensures CleanHalves(Threshold(r, t), low, k, dir) {
      ThresholdApply(s, net, t);
      CleanBits(Threshold(s, t), low, k, dir);
    }
    hide Apply, CleanNet;
    HalvesByThresholds(r, low, k, dir);
  }

  lemma HalvesByThresholds(r: seq<int>, low: nat, k: nat, dir: int)
    requires low + 2 * k <= |r| && 0 <= dir <= 1
    requires forall t :: CleanHalves(Threshold(r, t), low, k, dir)
    ensures Bitonic(r, low, low + k) && Bitonic(r, low + k, low + 2 * k)
    ensures Bounded(r, low, low + k, low + 2 * k, dir)
  {
    hide BitonicBits;
    forall t
      ensures BitonicBits(Threshold(r, t), low, low + k)
      ensures BitonicBits(Threshold(r, t), low + k, low + 2 * k)
    {
      assert CleanHalves(Threshold(r, t), low, k, dir);
    }
    forall x, y | low <= x < low + k <= y < low + 2 * k
      ensures if dir == 1 then r[x] <= r[y] else r[x] >= r[y]
    {
      var t := if dir == 1 then r[x] else r[y];
      assert CleanHalves(Threshold(r, t), low, k, dir);
    }
  }

  // ----- bitonicMerge

  /** bitonicMerge as three networks one after the other. */
  lemma MergeParts(s: seq<int>, low: nat, cnt: nat, dir: int)
    requires cnt > 1 && low + cnt <= |s|
    ensures
      var k := cnt / 2;
      var r0 := Apply(s, CleanNet(low, k, low, dir));
      var r1 := Apply(r0, MergeNet(low, k, dir));
      Apply(s, MergeNet(low, cnt, dir)) == Apply(r1, MergeNet(low + k, k, dir))
  {
    var k := cnt / 2;
    MergeOnce(low, cnt, dir);
    hide MergeNet, CleanNet;
    ApplyRight(s, CleanNet(low, k, low, dir), MergeNet(low, k, dir), MergeNet(low + k, k, dir));
  }

  /** Two sorted halves of bits, one of them constant on its side, are sorted together. */
  lemma JoinHalves(r: seq<int>, low: nat, k: nat, dir: int)
    requires low + 2 * k <= |r| && 0 <= dir <= 1
    requires Bits(r, low, low + 2 * k)
    requires Sorted(r, low, low + k, dir) && Sorted(r, low + k, low + 2 * k, dir)
    requires Constant(r, low, low + k, 1 - dir) || Constant(r, low + k, low + 2 * k, dir)
    ensures Sorted(r, low, low + 2 * k, dir)
  {
  }

  lemma {:induction false} MergeBits(s: seq<int>, low: nat, cnt: nat, dir: int)
    requires IsPow2(cnt) && low + cnt <= |s| && 0 <= dir <= 1 && BitonicBits(s, low, low + cnt)
    ensures Sorted(Apply(s, MergeNet(low, cnt, dir)), low, low + cnt, dir)
    decreases cnt, 1
  {
    if cnt > 1 {
      MergeBitsStep(s, low, cnt / 2, dir);
    }
  }

  lemma {:induction false} MergeBitsStep(s: seq<int>, low: nat, k: nat, dir: int)
    requires IsPow2(k) && low + 2 * k <= |s| && 0 <= dir <= 1 && BitonicBits(s, low, low + 2 * k)
    ensures Sorted(Apply(s, MergeNet(low, 2 * k, dir)), low, low + 2 * k, dir)
    decreases 2 * k, 0
  {
    hide MergeNet, CleanNet, Apply, BitonicBits, Sorted, Constant;
    MergeParts(s, low, 2 * k, dir);
    var r0 := Apply(s, CleanNet(low, k, low, dir));
    CleanBits(s, low, k, dir);
    var r1 := MergeLeft(r0, low, k, dir);
    var r2 := MergeRight(r1, low, k, dir);
    JoinHalves(r2, low, k, dir);
  }

  /** Sorting the left half of a cleaned slice of bits. */
  lemma {:induction false} MergeLeft(s: seq<int>, low: nat, k: nat, dir: int) returns (r: seq<int>)
    requires IsPow2(k) && low + 2 * k <= |s| && 0 <= dir <= 1
    requires BitonicBits(s, low, low + k) && BitonicBits(s, low + k, low + 2 * k)
    ensures r == Apply(s, MergeNet(low, k, dir)) && Sorted(r, low, low + k, dir)
    ensures BitonicBits(r, low + k, low + 2 * k) && Bits(r, low, low + k)
    ensures Constant(s, low + k, low + 2 * k, dir) ==> Constant(r, low + k, low + 2 * k, dir)
    ensures Constant(s, low, low + k, 1 - dir) ==> r == s
    decreases k, 2
  {
    hide MergeNet, Apply, Sorted, Bits, Constant, BitonicBits;
    var net := MergeNet(low, k, dir);
    r := Apply(s, net);
    MergeBits(s, low, k, dir);
    ArcBits(s, low, low + k);
    ApplyOutside(s, net, low, low + k);
    BitsTransfer(s, r, low + k, low + 2 * k);
    SameSlice(s, r, low + k, low + 2 * k, dir);
    BitsStay(s, net, low, low + k);
    if Constant(s, low, low + k, 1 - dir) {
      ConstantStays(s, net, low, low + k, 1 - dir);
    }
  }

  lemma ArcBits(s: seq<int>, lo: int, hi: int)
    requires 0 <= lo <= hi <= |s| && BitonicBits(s, lo, hi)
    ensures Bits(s, lo, hi)
  {
  }

  /** Sorting the right half after the left one. */
  lemma {:induction false} MergeRight(s: seq<int>, low: nat, k: nat, dir: int) returns (r: seq<int>)
    requires IsPow2(k) && low + 2 * k <= |s| && 0 <= dir <= 1 && BitonicBits(s, low + k, low + 2 * k)
    requires Sorted(s, low, low + k, dir) && Bits(s, low, low + k)
    ensures r == Apply(s, MergeNet(low + k, k, dir))
    ensures Sorted(r, low, low + k, dir) && Sorted(r, low + k, low + 2 * k, dir) && Bits(r, low, low + 2 * k)
    ensures Constant(s, low, low + k, 1 - dir) ==> Constant(r, low, low + k, 1 - dir)
    ensures Constant(s, low + k, low + 2 * k, dir) ==> r == s
    decreases k, 2
  {
    hide MergeNet, Apply, Sorted, Bits, Constant, BitonicBits;
    var net := MergeNet(low + k, k, dir);
    r := Apply(s, net);
    MergeBits(s, low + k, k, dir);
    ApplyOutside(s, net, low + k, low + 2 * k);
    SameSlice(s, r, low, low + k, dir);
    ArcBits(s, low + k, low + 2 * k);
    BitsStay(s, net, low + k, low + 2 * k);
    JoinBits(r, low, low + k, low + 2 * k);
    if Constant(s, low + k, low + 2 * k, dir) {
      ConstantStays(s, net, low + k, low + 2 * k, dir);
    }
  }

  /** A slice that did not change keeps its order and its bits. */
  lemma SameSlice(s: seq<int>, r: seq<int>, lo: int, hi: int, dir: int)
    requires 0 <= lo <= hi <= |s| == |r|
    requires forall x :: lo <= x < hi ==> r[x] == s[x]
    ensures Sorted(r, lo, hi, dir) <==> Sorted(s, lo, hi, dir)
    ensures Bits(r, lo, hi) <==> Bits(s, lo, hi)
    ensures forall v :: Constant(r, lo, hi, v) <==> Constant(s, lo, hi, v)
  {
  }

  lemma JoinBits(s: seq<int>, lo: int, mid: int, hi: int)
    requires 0 <= lo <= mid <= hi <= |s| && Bits(s, lo, mid) && Bits(s, mid, hi)
    ensures Bits(s, lo, hi)
  {
  }

  lemma ConstantStays(s: seq<int>, net: seq<Comparator>, lo: int, hi: int, v: int)
    requires 0 <= lo <= hi <= |s| && Within(net, lo, hi) && Constant(s, lo, hi, v)
    ensures Within(net, 0, |s|) && Apply(s, net) == s
  {
    ApplyConstant(s, net, lo, hi, v);
  }

  lemma BitsTransfer(s: seq<int>, r: seq<int>, lo: int, hi: int)
    requires 0 <= lo <= hi <= |s| == |r| && BitonicBits(s, lo, hi)
    requires forall x :: lo <= x < hi ==> r[x] == s[x]
    ensures BitonicBits(r, lo, hi)
  {
    var a, b, c :| Arc(s, lo, hi, a, b, c);
    assert Arc(r, lo, hi, a, b, c);
  }

  /** A slice of bits stays a slice of bits. */
  lemma {:induction false} BitsStay(s: seq<int>, net: seq<Comparator>, lo: int, hi: int)
    requires 0 <= lo <= hi <= |s| && Within(net, lo, hi)
    requires Bits(s, lo, hi)
    ensures Bits(Apply(s, net), lo, hi)
    decreases |net|
  {
    if net != [] {
      BitsStay(CompareSwap(s, net[0]), net[1..], lo, hi);
    }
  }

  /** bitonicMerge sorts every cyclic bitonic slice whose length is a power of two. */
  lemma MergeSorts(s: seq<int>, low: nat, cnt: nat, dir: int)
    requires IsPow2(cnt) && low + cnt <= |s| && 0 <= dir <= 1 && Bitonic(s, low, low + cnt)
    ensures Sorted(Apply(s, MergeNet(low, cnt, dir)), low, low + cnt, dir)
  {
    var net := MergeNet(low, cnt, dir);
    forall t ensures Sorted(Threshold(Apply(s, net), t), low, low + cnt, dir) {
      ThresholdApply(s, net, t);
      MergeBits(Threshold(s, t), low, cnt, dir);
    }
    SortedByThresholds(Apply(s, net), low, low + cnt, dir);
  }

  // ----- bitonicSort

  /** Where the values of a slice sorted in direction dir start (or stop) to be at least t. */
  lemma {:induction false} Boundary(s: seq<int>, lo: int, hi: int, dir: int, t: int) returns (b: int)
    requires 0 <= lo <= hi <= |s| && 0 <= dir <= 1 && Sorted(s, lo, hi, dir)
    ensures lo <= b <= hi
    ensures forall x :: lo <= x < hi ==> (s[x] >= t <==> if dir == 1 then b <= x else x < b)
    decreases hi - lo
  {
    if lo == hi || (s[lo] >= t) == (dir == 1) {
      b := lo;
    } else {
      b := Boundary(s, lo + 1, hi, dir, t);
    }
  }

  /** Ascending and then descending is bitonic. */
  lemma UpDownIsBitonic(s: seq<int>, lo: int, mid: int, hi: int)
    requires 0 <= lo <= mid <= hi <= |s| && Sorted(s, lo, mid, 1) && Sorted(s, mid, hi, 0)
    ensures Bitonic(s, lo, hi)
  {
    forall t ensures BitonicBits(Threshold(s, t), lo, hi) {
      var a := Boundary(s, lo, mid, 1, t);
      var b := Boundary(s, mid, hi, 0, t);
      assert Arc(Threshold(s, t), lo, hi, a, b, 1);
    }
  }

  /** bitonicSort as three networks one after the other. */
  lemma SortParts(s: seq<int>, low: nat, cnt: nat, dir: int)
    requires cnt > 1 && low + cnt <= |s|
    ensures
      var k := cnt / 2;
      var r1 := Apply(s, SortNet(low, k, 1));
      var r2 := Apply(r1, SortNet(low + k, k, 0));
      Apply(s, SortNet(low, cnt, dir)) == Apply(r2, MergeNet(low, cnt, dir))
  {
    var k := cnt / 2;
    var left, right, merge := SortNet(low, k, 1), SortNet(low + k, k, 0), MergeNet(low, cnt, dir);
    assert SortNet(low, cnt, dir) == left + right + merge;
    hide SortNet, MergeNet;
    ApplyThree(s, SortNet(low, k, 1), SortNet(low + k, k, 0), MergeNet(low, cnt, dir));
  }

  /** bitonicSort sorts every slice whose length is a power of two. */
  lemma {:induction false} SortSorts(s: seq<int>, low: nat, cnt: nat, dir: int)
    requires IsPow2(cnt) && low + cnt <= |s| && 0 <= dir <= 1
    ensures Sorted(Apply(s, SortNet(low, cnt, dir)), low, low + cnt, dir)
    decreases cnt, 1
  {
    if cnt > 1 {
      SortSortsStep(s, low, cnt / 2, dir);
    }
  }

  lemma {:induction false} SortSortsStep(s: seq<int>, low: nat, k: nat, dir: int)
    requires IsPow2(k) && low + 2 * k <= |s| && 0 <= dir <= 1
    ensures Sorted(Apply(s, SortNet(low, 2 * k, dir)), low, low + 2 * k, dir)
    decreases 2 * k, 0
  {
    hide SortNet, MergeNet, Apply, Sorted, Bitonic;
    SortParts(s, low, 2 * k, dir);
    var r1 := Apply(s, SortNet(low, k, 1));
    SortSorts(s, low, k, 1);
    var r2 := SortRight(r1, low, k);
    UpDownIsBitonic(r2, low, low + k, low + 2 * k);
    MergeSorts(r2, low, 2 * k, dir);
  }

  lemma {:induction false} SortRight(s: seq<int>, low: nat, k: nat) returns (r: seq<int>)
    requires IsPow2(k) && low + 2 * k <= |s| && Sorted(s, low, low + k, 1)
    ensures r == Apply(s, SortNet(low + k, k, 0))
    ensures Sorted(r, low, low + k, 1) && Sorted(r, low + k, low + 2 * k, 0)
    decreases k, 2
  {
    hide SortNet, Apply, Sorted;
    r := Apply(s, SortNet(low + k, k, 0));
    SortSorts(s, low + k, k, 0);
    ApplyOutside(s, SortNet(low + k, k, 0), low + k, low + 2 * k);
    SameSlice(s, r, low, low + k, 1);
  }

  /** A network inside [lo, hi) permutes the slice and leaves the rest of the array as it was. */
  lemma SlicePermuted(s: seq<int>, net: seq<Comparator>, lo: nat, hi: nat)
    requires lo <= hi <= |s| && Within(net, lo, hi)
    ensures
      var r := Apply(s, net);
      && multiset(r[lo..hi]) == multiset(s[lo..hi])
      && r[..lo] == s[..lo] && r[hi..] == s[hi..]
  {
    ApplyOutside(s, net, lo, hi);
    ApplyPermutes(s, net);
    assert Within(net, 0, |s|);
    PermutedInside(s, Apply(s, net), lo, hi);
  }

  lemma PermutedInside(s: seq<int>, r: seq<int>, lo: nat, hi: nat)
    requires lo <= hi <= |s| == |r| && multiset(r) == multiset(s)
    requires forall x :: 0 <= x < |s| && !(lo <= x < hi) ==> r[x] == s[x]
    ensures multiset(r[lo..hi]) == multiset(s[lo..hi])
    ensures r[..lo] == s[..lo] && r[hi..] == s[hi..]
  {
    assert r[..lo] == s[..lo] && r[hi..] == s[hi..];
    ThreePieces(s, lo, hi);
    ThreePieces(r, lo, hi);
    CancelSides(multiset(s[..lo]), multiset(r[lo..hi]), multiset(s[lo..hi]), multiset(s[hi..]));
  }

  lemma ThreePieces(s: seq<int>, lo: nat, hi: nat)
    requires lo <= hi <= |s|
    ensures multiset(s) == multiset(s[..lo]) + multiset(s[lo..hi]) + multiset(s[hi..])
  {
    assert s == s[..lo] + s[lo..hi] + s[hi..];
  }

  lemma CancelSides(x: multiset<int>, a: multiset<int>, b: multiset<int>, y: multiset<int>)
    requires x + a + y == x + b + y
    ensures a == b
  {
    forall v ensures a[v] == b[v] {
      assert (x + a + y)[v] == x[v] + a[v] + y[v];
      assert (x + b + y)[v] == x[v] + b[v] + y[v];
    }
  }

  // ----- lengths that are not powers of two

  /** The largest odd divisor. */
  function OddPart(n: nat): (m: nat)
    requires n > 0
    ensures m % 2 == 1 && Multiple(n, m) && (IsPow2(n) <==> m == 1)
  {
    if n % 2 == 1 then n else
      AddMultiple(n / 2, n / 2, OddPart(n / 2));
      OddPart(n / 2)
  }

  /** Whether the position is last in its block of m positions. */
  predicate Last(x: nat, m: nat)
    requires m > 0
  {
    Multiple(x + 1, m)
  }

  /** The comparators join last positions only with last positions. */
  ghost predicate Separates(net: seq<Comparator>, m: nat)
    requires m > 0
  {
    forall x :: 0 <= x < |net| ==> (Last(net[x].i, m) <==> Last(net[x].j, m))
  }

  lemma SeparatesThree(a: seq<Comparator>, b: seq<Comparator>, c: seq<Comparator>, m: nat)
    requires m > 0 && Separates(a, m) && Separates(b, m) && Separates(c, m)
    ensures Separates(a + b + c, m) && Separates(a + (b + c), m)
  {
  }

  lemma ShortSeparates(net: seq<Comparator>, low: nat, m: nat)
    requires m > 0 && Multiple(low, m) && Within(net, low, low + m - 1)
    ensures Separates(net, m)
  {
    forall y: nat | low <= y < low + m - 1 ensures !Last(y, m) {
      NoMultipleBetween(low, y + 1 - low, m);
    }
  }

  lemma {:induction false} CleanSeparates(low: nat, k: nat, i: nat, dir: int, m: nat)
    requires low <= i <= low + k && m > 0 && Multiple(k, m)
    ensures Separates(CleanNet(low, k, i, dir), m)
    decreases low + k - i
  {
    if i < low + k {
      AddMultiple(i + 1, k, m);
      CleanSeparates(low, k, i + 1, dir, m);
    }
  }

  lemma MergeOnce(low: nat, cnt: nat, dir: int)
    requires cnt > 1
    ensures var k := cnt / 2;
      MergeNet(low, cnt, dir) == CleanNet(low, k, low, dir) + (MergeNet(low, k, dir) + MergeNet(low + k, k, dir))
  {
    hide CleanNet;
  }

  lemma SortOnce(low: nat, cnt: nat, dir: int)
    requires cnt > 1
    ensures var k := cnt / 2;
      SortNet(low, cnt, dir) == SortNet(low, k, 1) + SortNet(low + k, k, 0) + MergeNet(low, cnt, dir)
  {
    hide MergeNet;
  }

  lemma {:induction false} MergeSeparates(low: nat, cnt: nat, dir: int)
    requires cnt > 0 && Multiple(low, OddPart(cnt))
    ensures Separates(MergeNet(low, cnt, dir), OddPart(cnt))
    decreases cnt, 1
  {
    if cnt % 2 == 1 {
      ShortSeparates(MergeNet(low, cnt, dir), low, cnt);
    } else {
      MergeSeparatesEven(low, cnt, dir);
    }
  }

  lemma {:induction false} MergeSeparatesEven(low: nat, cnt: nat, dir: int)
    requires cnt > 0 && cnt % 2 == 0 && Multiple(low, OddPart(cnt))
    ensures Separates(MergeNet(low, cnt, dir), OddPart(cnt))
    decreases cnt, 0
  {
    hide MergeNet, CleanNet, Separates;
    var k, m := cnt / 2, OddPart(cnt);
    MergeOnce(low, cnt, dir);
    CleanSeparates(low, k, low, dir, m);
    AddMultiple(low, k, m);
    MergeSeparates(low, k, dir);
    MergeSeparates(low + k, k, dir);
    SeparatesThree(CleanNet(low, k, low, dir), MergeNet(low, k, dir), MergeNet(low + k, k, dir), m);
  }

  lemma {:induction false} SortSeparates(low: nat, cnt: nat, dir: int)
    requires cnt > 0 && Multiple(low, OddPart(cnt))
    ensures Separates(SortNet(low, cnt, dir), OddPart(cnt))
    decreases cnt, 1
  {
    if cnt % 2 == 1 {
      ShortSeparates(SortNet(low, cnt, dir), low, cnt);
    } else {
      SortSeparatesEven(low, cnt, dir);
    }
  }

  lemma {:induction false} SortSeparatesEven(low: nat, cnt: nat, dir: int)
    requires cnt > 0 && cnt % 2 == 0 && Multiple(low, OddPart(cnt))
    ensures Separates(SortNet(low, cnt, dir), OddPart(cnt))
    decreases cnt, 0
  {
    hide MergeNet, SortNet, Separates;
    var k, m := cnt / 2, OddPart(cnt);
    SortOnce(low, cnt, dir);
    AddMultiple(low, k, m);
    SortSeparates(low, k, 1);
    SortSeparates(low + k, k, 0);
    MergeSeparates(low, cnt, dir);
    SeparatesThree(SortNet(low, k, 1), SortNet(low + k, k, 0), MergeNet(low, cnt, dir), m);
  }

  lemma {:induction false} LastStaysZero(s: seq<int>, net: seq<Comparator>, m: nat)
    requires m > 0 && Within(net, 0, |s|) && Separates(net, m)
    requires forall x :: 0 <= x < |s| && Last(x, m) ==> s[x] == 0
    ensures forall x :: 0 <= x < |s| && Last(x, m) ==> Apply(s, net)[x] == 0
    decreases |net|
  {
    if net != [] {
      LastStaysZero(CompareSwap(s, net[0]), net[1..], m);
    }
  }

  /** The array 1, 0, ..., 0 is not sorted when the length has an odd factor above 1. */
  lemma OddFactorFails(n: nat) returns (s: seq<int>)
    requires n > 0 && !IsPow2(n)
    ensures |s| == n && !Sorted(Apply(s, SortNet(0, n, 1)), 0, n, 1)
  {
    var m := OddPart(n);
    s := [1] + seq(n - 1, _ => 0);
    SortSeparates(0, n, 1);
    LastStaysZero(s, SortNet(0, n, 1), m);
    var r := Apply(s, SortNet(0, n, 1));
    assert !Last(0, m);
    assert Last(n - 1, m);
    ApplyPermutes(s, SortNet(0, n, 1));
    assert s[0] in multiset(r);
    var x :| 0 <= x < n && r[x] == 1;
    assert r[x] > r[n - 1];
  }

  /** bitonicSort of a whole array is correct for every content exactly when the length is zero or
      a power of two. */
  lemma SortsExactlyPowersOfTwo(n: nat)
    ensures (forall s: seq<int> :: |s| == n ==> Sorted(Apply(s, SortNet(0, n, 1)), 0, n, 1))
       <==> (n == 0 || IsPow2(n))
  {
    if n == 0 || IsPow2(n) {
      forall s: seq<int> | |s| == n ensures Sorted(Apply(s, SortNet(0, n, 1)), 0, n, 1) {
        if n > 0 { SortSorts(s, 0, n, 1); }
      }
    } else {
      var s := OddFactorFails(n);
    }
  }

  // ----- number of comparisons

  /** The exponent of a power of two. */
  lemma {:induction false} Pow2Exponent(n: nat) returns (k: nat)
    requires IsPow2(n)
    ensures n == Pow2(k)
  {
    k := 0;
    if n > 1 {
      k := Pow2Exponent(n / 2);
      k := k + 1;
    }
  }

  lemma MergeCountStep(low: nat, k: nat, dir: int)
    requires k > 0
    ensures
      var h := Pow2(k - 1);
      |MergeNet(low, Pow2(k), dir)| == h + |MergeNet(low, h, dir)| + |MergeNet(low + h, h, dir)|
  {
  }

  lemma SortCountStep(low: nat, k: nat, dir: int)
    requires k > 0
    ensures
      var h := Pow2(k - 1);
      |SortNet(low, Pow2(k), dir)|
        == |SortNet(low, h, 1)| + |SortNet(low + h, h, 0)| + |MergeNet(low, Pow2(k), dir)|
  {
    hide MergeNet;
  }

  lemma {:induction false} MergeCount(low: nat, k: nat, dir: int)
    ensures 2 * |MergeNet(low, Pow2(k), dir)| == Pow2(k) * k
    decreases k
  {
    if k > 0 {
      var h := Pow2(k - 1);
      MergeCountStep(low, k, dir);
      MergeCount(low, k - 1, dir);
      MergeCount(low + h, k - 1, dir);
      MergeArithmetic(|MergeNet(low, h, dir)|, |MergeNet(low + h, h, dir)|, h, k);
    }
  }

  lemma MergeArithmetic(a: int, b: int, h: int, k: int)
    requires 2 * a == h * (k - 1) && 2 * b == h * (k - 1)
    ensures 2 * (h + a + b) == 2 * h * k
  {
  }

  /** n * k * (k + 1), four times the number of comparisons for n = 2^k. */
  function FourTimesCount(n: int, k: int): int {
    n * k * (k + 1)
  }

  /** Sorting n = 2^k elements makes exactly n * k * (k + 1) / 4 comparisons. */
  lemma {:induction false} SortCount(low: nat, k: nat, dir: int)
    ensures 4 * |SortNet(low, Pow2(k), dir)| == FourTimesCount(Pow2(k), k)
    decreases k, 1
  {
    if k > 0 {
      SortCountInduction(low, k, dir);
    }
  }

  lemma {:induction false} SortCountInduction(low: nat, k: nat, dir: int)
    requires k > 0
    ensures 4 * |SortNet(low, Pow2(k), dir)| == FourTimesCount(Pow2(k), k)
    decreases k, 0
  {
    hide FourTimesCount, SortNet, MergeNet;
    var h := Pow2(k - 1);
    SortCountStep(low, k, dir);
    SortCount(low, k - 1, 1);
    SortCount(low + h, k - 1, 0);
    MergeCount(low, k, dir);
    CountArithmetic(|MergeNet(low, Pow2(k), dir)|, h, k);
  }

  /** Every accepted length above 0 is 2^k for some k, and sorting takes n * k * (k + 1) / 4 comparisons. */
  lemma CountForLength(n: nat) returns (k: nat)
    requires IsPow2(n)
    ensures n == Pow2(k) && 4 * |SortNet(0, n, 1)| == n * k * (k + 1)
  {
    k := Pow2Exponent(n);
    SortCount(0, k, 1);
  }

  lemma CountArithmetic(c: int, h: int, k: int)
    requires 2 * c == 2 * h * k
    ensures 2 * FourTimesCount(h, k - 1) + 4 * c == FourTimesCount(2 * h, k)
  {
    assert k * (k - 1) + 2 * k == k * (k + 1);
    assert 2 * (h * (k * (k - 1))) + 2 * h * (2 * k) == 2 * h * (k * (k + 1));
  }
}
