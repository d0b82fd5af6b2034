/** bitonicMerge and bitonicSort of Lab 2 in their own form: in-place recursion on an array, with the
    thread budget. A branch that takes a permit runs the two recursive calls one after the other
    here; module ForkJoin treats every interleaving of them. */
module BitonicArray {
  import opened Comparators
  import opened Bitonic
  import opened Naturals

  class Sorter {
    const arr: array<int>
    const maxThreads: int
    var activeThreads: int

    constructor (arr: array<int>, maxThreads: int)
      ensures this.arr == arr && this.maxThreads == maxThreads && activeThreads == 0
    {
      this.arr := arr;
      this.maxThreads := maxThreads;
      activeThreads := 0;
    }

    method CompareAndSwap(i: nat, j: nat, dir: int)
      requires i < arr.Length && j < arr.Length
      modifies arr
      ensures arr[..] == CompareSwap(old(arr[..]), Comparator(i, j, dir))
      ensures var x, y := old(arr[i]), old(arr[j]);
        if (dir == 1 && x > y) || (dir == 0 && x <= y) then arr[i] == y && arr[j] == x else arr[..] == old(arr[..])
      ensures forall k :: 0 <= k < arr.Length && k != i && k != j ==> arr[k] == old(arr[k])
    {
      if dir == (if arr[i] > arr[j] then 1 else 0) {
        arr[i], arr[j] := arr[j], arr[i];
      }
    }

    /** The loop of bitonicMerge. */
    method Clean(low: nat, k: nat, dir: int)
      requires low + 2 * k <= arr.Length
      modifies arr
      ensures arr[..] == Apply(old(arr[..]), CleanNet(low, k, low, dir))
    {
      var i := low;
      while i < low + k
        invariant low <= i <= low + k
        invariant Apply(arr[..], CleanNet(low, k, i, dir)) == Apply(old(arr[..]), CleanNet(low, k, low, dir))
      {
        ghost var s := arr[..];
        CompareAndSwap(i, i + k, dir);
        assert CleanNet(low, k, i, dir)[1..] == CleanNet(low, k, i + 1, dir);
        i := i + 1;
      }
    }

    method Merge(low: nat, cnt: nat, dir: int)
      requires low + cnt <= arr.Length
      modifies this`activeThreads, arr
      ensures activeThreads == old(activeThreads)
      ensures arr[..] == Apply(old(arr[..]), MergeNet(low, cnt, dir))
      decreases cnt
    {
      hide MergeNet, CleanNet, Apply;
      if cnt > 1 {
        var k := cnt / 2;
        MergeParts(arr[..], low, cnt, dir);
        Clean(low, k, dir);
        if k < 1024 {
          Merge(low, k, dir);
          Merge(low + k, k, dir);
        } else if activeThreads + 1 <= maxThreads {
          activeThreads := activeThreads + 1;
          Merge(low, k, dir);
          Merge(low + k, k, dir);
          activeThreads := activeThreads - 1;
        } else {
          Merge(low, k, dir);
          Merge(low + k, k, dir);
        }
      } else {
        NothingToDo(arr[..], low, cnt, dir);
      }
    }

    method Sort(low: nat, cnt: nat, dir: int)
      requires low + cnt <= arr.Length
      modifies this`activeThreads, arr
      ensures activeThreads == old(activeThreads)
      ensures arr[..] == Apply(old(arr[..]), SortNet(low, cnt, dir))
      ensures SortContract(old(arr[..]), arr[..], low, cnt, dir)
      decreases cnt
    {
      hide SortNet, MergeNet, Apply, SortContract;
      ghost var s := arr[..];
      if cnt > 1 {
        var k := cnt / 2;
        SortParts(s, low, cnt, dir);
        if activeThreads + 2 <= maxThreads {
          activeThreads := activeThreads + 2;
          Sort(low, k, 1);
          Sort(low + k, k, 0);
          activeThreads := activeThreads - 2;
        } else {
          Sort(low, k, 1);
          Sort(low + k, k, 0);
        }
        Merge(low, cnt, dir);
      } else {
        NothingToDo(s, low, cnt, dir);
      }
      ContractHolds(s, low, cnt, dir);
    }
  }

  lemma NothingToDo(s: seq<int>, low: nat, cnt: nat, dir: int)
    requires low + cnt <= |s| && cnt <= 1
    ensures Apply(s, MergeNet(low, cnt, dir)) == s && Apply(s, SortNet(low, cnt, dir)) == s
  {
  }

  /** What a caller of bitonicSort relies on: the slice is permuted, and in order when its length is a
      power of two, and the rest of the array is as it was. */
  ghost predicate SortContract(s: seq<int>, r: seq<int>, low: nat, cnt: nat, dir: int)
    requires low + cnt <= |s|
  {
    && |r| == |s|
    && (IsPow2(cnt) && 0 <= dir <= 1 ==> Sorted(r, low, low + cnt, dir))
    && multiset(r[low..low + cnt]) == multiset(s[low..low + cnt])
    && r[..low] == s[..low] && r[low + cnt..] == s[low + cnt..]
  }

  lemma ContractHolds(s: seq<int>, low: nat, cnt: nat, dir: int)
    requires low + cnt <= |s|
    ensures SortContract(s, Apply(s, SortNet(low, cnt, dir)), low, cnt, dir)
  {
    hide SortNet, Apply, IsPow2, Sorted;
    var r := Apply(s, SortNet(low, cnt, dir));
    SliceLaws(s, SortNet(low, cnt, dir), low, cnt);
    if IsPow2(cnt) && 0 <= dir <= 1 {
      SortSorts(s, low, cnt, dir);
    }
  }

  lemma SliceLaws(s: seq<int>, net: seq<Comparator>, low: nat, cnt: nat)
    requires low + cnt <= |s| && Within(net, low, low + cnt / 2 * 2)
    ensures Within(net, low, low + cnt)
    ensures
      var r := Apply(s, net);
      && multiset(r[low..low + cnt]) == multiset(s[low..low + cnt])
      && r[..low] == s[..low] && r[low + cnt..] == s[low + cnt..]
  {
    SlicePermuted(s, net, low, low + cnt);
  }

  // ----- the guard of main

  /** Bitwise and of two non-negative integers. */
  function BitAnd(a: nat, b: nat): nat {
    if a == 0 || b == 0 then 0 else 2 * BitAnd(a / 2, b / 2) + (if a % 2 == 1 && b % 2 == 1 then 1 else 0)
  }

  /** The 32 bits of an int. */
  function Word(n: int): nat
    requires IsInt(n)
  {
    if n < 0 then n + 0x1_0000_0000 else n
  }

  predicate IsInt(n: int) {
    -0x8000_0000 <= n < 0x8000_0000
  }

  /** The test (n & (n - 1)) == 0 of main; for the smallest int n - 1 overflows, which is undefined. */
  predicate PassesGuard(n: int)
    requires IsInt(n) && IsInt(n - 1)
  {
    BitAnd(Word(n), Word(n - 1)) == 0
  }

  lemma {:induction false} AndItself(n: nat)
    ensures BitAnd(n, n) == n
    decreases n
  {
    if n > 0 {
      AndItself(n / 2);
    }
  }

  lemma {:induction false} AndPredecessor(n: nat)
    requires n > 0
    ensures BitAnd(n, n - 1) == 0 <==> IsPow2(n)
    decreases n
  {
    if n > 1 {
      if n % 2 == 0 {
        assert (n - 1) / 2 == n / 2 - 1;
        AndPredecessor(n / 2);
      } else {
        AndItself(n / 2);
      }
    }
  }

  lemma {:induction false} CommonTopBit(x: nat, y: nat, k: nat)
    requires Pow2(k) <= x < 2 * Pow2(k) && Pow2(k) <= y < 2 * Pow2(k)
    ensures BitAnd(x, y) > 0
    decreases k
  {
    if k > 0 {
      CommonTopBit(x / 2, y / 2, k - 1);
    }
  }

  /** The guard refuses every negative number and lets 0 and the powers of two pass. */
  lemma GuardMeansPow2(n: int)
    requires IsInt(n) && IsInt(n - 1)
    ensures PassesGuard(n) <==> n == 0 || (n > 0 && IsPow2(n))
  {
    if n < 0 {
      assert Pow2(8) == 0x100;
      assert Pow2(16) == 0x1_0000;
      assert Pow2(24) == 0x100_0000;
      assert Pow2(31) == 0x8000_0000;
      CommonTopBit(Word(n), Word(n - 1), 31);
    } else if n > 0 {
      AndPredecessor(n);
    }
  }

  /** main accepts exactly the lengths on which sorting is correct for every content. */
  lemma GuardIsExact(n: nat)
    requires IsInt(n)
    ensures PassesGuard(n)
       <==> (forall s: seq<int> :: |s| == n ==> Sorted(Apply(s, SortNet(0, n, 1)), 0, n, 1))
  {
    GuardMeansPow2(n);
    SortsExactlyPowersOfTwo(n);
  }

  /** An accepted positive length is 2^k for some k, and sorting takes n * k * (k + 1) / 4 comparisons. */
  lemma GuardCount(n: int) returns (k: nat)
    requires IsInt(n) && n > 0 && PassesGuard(n)
    ensures n == Pow2(k) && 4 * |SortNet(0, n, 1)| == n * k * (k + 1)
  {
    GuardMeansPow2(n);
    k := CountForLength(n);
  }

  /** What main does with the size it was given and an array of that size: refuse it, or sort all of the
      array in ascending order. */
  method SortWhole(n: int, arr: array<int>, maxThreads: int) returns (accepted: bool)
    requires IsInt(n) && IsInt(n - 1) && (n >= 0 ==> arr.Length == n)
    modifies arr
    ensures accepted <==> n == 0 || (n > 0 && IsPow2(n))
    ensures accepted ==> Sorted(arr[..], 0, arr.Length, 1) && multiset(arr[..]) == multiset(old(arr[..]))
    ensures !accepted ==> arr[..] == old(arr[..])
  {
    GuardMeansPow2(n);
    accepted := PassesGuard(n);
    if accepted {
      var sorter := new Sorter(arr, maxThreads);
      hide IsPow2, SortNet;
      sorter.Sort(0, n, 1);
      WholeSlice(arr);
    }
  }

  twostate lemma WholeSlice(arr: array<int>)
    ensures arr[0..arr.Length] == arr[..] && old(arr[0..arr.Length]) == old(arr[..])
  {
  }
}
