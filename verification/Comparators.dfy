/** Compare-and-swap steps on a sequence of integers, and the lists of such steps (networks) that
    the bitonic recursion of Lab 2 performs. A network fixes which positions are compared and in
    which direction, never on the values, so it is the data-oblivious meaning of the code. */
module Comparators {

  /** One call compareAndSwap(arr, i, j, dir). */
  datatype Comparator = Comparator(i: nat, j: nat, dir: int)

  predicate Touches(c: Comparator, lo: int, hi: int) {
    lo <= c.i < hi && lo <= c.j < hi
  }

  /** Every comparator of the network has both positions in [lo, hi). */
  predicate Within(net: seq<Comparator>, lo: int, hi: int) {
    forall x :: 0 <= x < |net| ==> Touches(net[x], lo, hi)
  }

  /** The test of the source compares the direction with the truth value of "greater". */
  function CompareSwap(s: seq<int>, c: Comparator): (r: seq<int>)
    requires Touches(c, 0, |s|)
    ensures |r| == |s|
  {
    if c.dir == (if s[c.i] > s[c.j] then 1 else 0)
    then s[c.i := s[c.j]][c.j := s[c.i]]
    else s
  }

  /** Runs a network from left to right. */
  function Apply(s: seq<int>, net: seq<Comparator>): (r: seq<int>)
    requires Within(net, 0, |s|)
    ensures |r| == |s|
    decreases |net|
  {
    if net == [] then s else Apply(CompareSwap(s, net[0]), net[1..])
  }

  lemma {:induction false} ApplyConcat(s: seq<int>, a: seq<Comparator>, b: seq<Comparator>)
    requires Within(a, 0, |s|) && Within(b, 0, |s|)
    ensures Within(a + b, 0, |s|)
    ensures Apply(s, a + b) == Apply(Apply(s, a), b)
    decreases |a|
  {
    if a == [] {
      assert a + b == b;
    } else {
      assert (a + b)[1..] == a[1..] + b;
      ApplyConcat(CompareSwap(s, a[0]), a[1..], b);
    }
  }

  lemma ApplyThree(s: seq<int>, a: seq<Comparator>, b: seq<Comparator>, c: seq<Comparator>)
    requires Within(a, 0, |s|) && Within(b, 0, |s|) && Within(c, 0, |s|)
    ensures Within(a + b + c, 0, |s|)
    ensures Apply(s, a + b + c) == Apply(Apply(Apply(s, a), b), c)
  {
    ApplyConcat(s, a, b);
    ApplyConcat(s, a + b, c);
  }

  lemma ApplyRight(s: seq<int>, a: seq<Comparator>, b: seq<Comparator>, c: seq<Comparator>)
    requires Within(a, 0, |s|) && Within(b, 0, |s|) && Within(c, 0, |s|)
    ensures Within(a + (b + c), 0, |s|)
    ensures Apply(s, a + (b + c)) == Apply(Apply(Apply(s, a), b), c)
  {
    ApplyConcat(s, a, b + c);
    ApplyConcat(Apply(s, a), b, c);
  }

  /** A network permutes the values. */
  lemma {:induction false} ApplyPermutes(s: seq<int>, net: seq<Comparator>)
    requires Within(net, 0, |s|)
    ensures multiset(Apply(s, net)) == multiset(s)
    decreases |net|
  {
    if net != [] {
      ApplyPermutes(CompareSwap(s, net[0]), net[1..]);
    }
  }

  /** A network changes only positions it names. */
  lemma {:induction false} ApplyOutside(s: seq<int>, net: seq<Comparator>, lo: int, hi: int)
    requires Within(net, 0, |s|) && Within(net, lo, hi)
    ensures forall x :: 0 <= x < |s| && !(lo <= x < hi) ==> Apply(s, net)[x] == s[x]
    decreases |net|
  {
    if net != [] {
      ApplyOutside(CompareSwap(s, net[0]), net[1..], lo, hi);
    }
  }

  /** A slice of equal values stays as it is under a network that works inside the slice. */
  lemma {:induction false} ApplyConstant(s: seq<int>, net: seq<Comparator>, lo: int, hi: int, v: int)
    requires 0 <= lo <= hi <= |s| && Within(net, lo, hi)
    requires forall x :: lo <= x < hi ==> s[x] == v
    ensures Apply(s, net) == s
    decreases |net|
  {
    if net != [] {
      assert CompareSwap(s, net[0]) == s;
      ApplyConstant(s, net[1..], lo, hi, v);
    }
  }

  lemma SwapsCommute(s: seq<int>, c: Comparator, d: Comparator, mid: int)
    requires Touches(c, 0, mid) && Touches(d, mid, |s|) && mid <= |s|
    ensures CompareSwap(CompareSwap(s, c), d) == CompareSwap(CompareSwap(s, d), c)
  {
  }

  /** A comparator right of mid can be moved in front of any network left of mid. */
  lemma {:induction false} CommutePast(s: seq<int>, left: seq<Comparator>, d: Comparator, mid: int)
    requires Within(left, 0, mid) && Touches(d, mid, |s|) && mid <= |s|
    ensures Within(left, 0, |s|)
    ensures CompareSwap(Apply(s, left), d) == Apply(CompareSwap(s, d), left)
    decreases |left|
  {
    if left != [] {
      SwapsCommute(s, left[0], d, mid);
      CommutePast(CompareSwap(s, left[0]), left[1..], d, mid);
    }
  }

  /** Networks on the two sides of mid can run in either order. */
  lemma {:induction false} NetworksCommute(s: seq<int>, left: seq<Comparator>, right: seq<Comparator>, mid: int)
    requires Within(left, 0, mid) && Within(right, mid, |s|) && 0 <= mid <= |s|
    ensures Within(left, 0, |s|) && Within(right, 0, |s|)
    ensures Apply(Apply(s, left), right) == Apply(Apply(s, right), left)
    decreases |right|
  {
    if right != [] {
      CommutePast(s, left, right[0], mid);
      NetworksCommute(CompareSwap(s, right[0]), left, right[1..], mid);
    }
  }

  // ----- the 0-1 principle

  function Threshold(s: seq<int>, t: int): (r: seq<int>)
    ensures |r| == |s|
    ensures forall x :: 0 <= x < |s| ==> r[x] == if s[x] >= t then 1 else 0
  {
    seq(|s|, x requires 0 <= x < |s| => if s[x] >= t then 1 else 0)
  }

  /** Thresholding before or after a network gives the same 0-1 sequence. */
  lemma {:induction false} ThresholdApply(s: seq<int>, net: seq<Comparator>, t: int)
    requires Within(net, 0, |s|)
    ensures Threshold(Apply(s, net), t) == Apply(Threshold(s, t), net)
    decreases |net|
  {
    if net != [] {
      ThresholdSwap(s, net[0], t);
      ThresholdApply(CompareSwap(s, net[0]), net[1..], t);
    }
  }

  lemma ThresholdSwap(s: seq<int>, c: Comparator, t: int)
    requires Touches(c, 0, |s|)
    ensures Threshold(CompareSwap(s, c), t) == CompareSwap(Threshold(s, t), c)
  {
    var a, b := Threshold(CompareSwap(s, c), t), CompareSwap(Threshold(s, t), c);
    assert forall x :: 0 <= x < |s| ==> a[x] == b[x];
  }

  /** Ascending for direction 1, descending for direction 0. */
  ghost predicate Sorted(s: seq<int>, lo: int, hi: int, dir: int)
    requires 0 <= lo <= hi <= |s|
  {
    forall x, y :: lo <= x < y < hi ==> if dir == 1 then s[x] <= s[y] else s[x] >= s[y]
  }

  lemma SortedByThresholds(s: seq<int>, lo: int, hi: int, dir: int)
    requires 0 <= lo <= hi <= |s|
    requires forall t :: Sorted(Threshold(s, t), lo, hi, dir)
    ensures Sorted(s, lo, hi, dir)
  {
    forall x, y | lo <= x < y < hi
      ensures if dir == 1 then s[x] <= s[y] else s[x] >= s[y]
    {
      assert Sorted(Threshold(s, s[x]), lo, hi, dir);
      assert Sorted(Threshold(s, s[y]), lo, hi, dir);
    }
  }
}
