/** The page pool of McKusickAllocator as a value: page states, bucket lists, live pointers. */
module McKusickPool {
  import opened Naturals
  import opened Wrappers

  const PAGE: nat := 4096
  const MIN_BLOCK: nat := 32
  const MAX_BLOCK: nat := 4096
  const BUCKETS: nat := 8

  // ----- sizes and buckets

  /** 64 - __builtin_clzl(x) for x > 0: the number of binary digits of x. */
  function BitLength(x: nat): nat
    requires x > 0
  {
    if x == 1 then 1 else 1 + BitLength(x / 2)
  }

  /** __builtin_ctz(x) for x > 0. */
  function TrailingZeros(x: nat): nat
    requires x > 0
  {
    if x % 2 == 1 then 0 else 1 + TrailingZeros(x / 2)
  }

  function Max(a: nat, b: nat): nat {
    if a < b then b else a
  }

  /** get_bucket_index; the source leaves size 0 and 1 undefined (clz of 0). */
  function BucketIndex(size: nat): (r: int)
    requires size >= 2
  {
    if size > MAX_BLOCK then BUCKETS
    else TrailingZeros(Max(MIN_BLOCK, Pow2(BitLength(size - 1)))) - 5
  }

  /** MIN_BLOCK_SIZE << k */
  function BlockSize(k: nat): nat {
    MIN_BLOCK * Pow2(k)
  }

  lemma {:induction false} BitLengthBounds(x: nat)
    requires x > 0
    ensures Pow2(BitLength(x) - 1) <= x < Pow2(BitLength(x))
    decreases x
  {
    if x > 1 {
      BitLengthBounds(x / 2);
    }
  }

  lemma {:induction false} BitLengthAtMost(x: nat, k: nat)
    requires 0 < x < Pow2(k)
    ensures BitLength(x) <= k
    decreases x
  {
    if x > 1 {
      BitLengthAtMost(x / 2, k - 1);
    }
  }

  lemma {:induction false} TrailingZerosOfPow2(k: nat)
    ensures TrailingZeros(Pow2(k)) == k
  {
    if k > 0 {
      TrailingZerosOfPow2(k - 1);
    }
  }

  lemma BlockSizes()
    ensures BlockSize(0) == 32 && BlockSize(1) == 64 && BlockSize(2) == 128 && BlockSize(3) == 256
    ensures BlockSize(4) == 512 && BlockSize(5) == 1024 && BlockSize(6) == 2048 && BlockSize(7) == 4096
  {
    assert Pow2(2) == 4 && Pow2(4) == 16 && Pow2(6) == 64;
  }

  lemma Exponent(b: nat)
    ensures TrailingZeros(Max(MIN_BLOCK, Pow2(b))) == if b < 5 then 5 else b
  {
    assert Pow2(5) == 32;
    if b < 5 {
      Pow2Monotone(b, 5);
      TrailingZerosOfPow2(5);
    } else {
      Pow2Monotone(5, b);
      TrailingZerosOfPow2(b);
    }
  }

  lemma {:induction false} BlockSizeIsPow2(k: nat)
    ensures BlockSize(k) == Pow2(k + 5)
    decreases k
  {
    if k > 0 {
      BlockSizeIsPow2(k - 1);
    } else {
      assert Pow2(5) == 32;
    }
  }

  /** The bucket of a small request is the one with the smallest blocks that hold it. */
  lemma BucketIndexIsTight(size: nat)
    requires 2 <= size <= MAX_BLOCK
    ensures var k := BucketIndex(size);
      0 <= k < BUCKETS && size <= BlockSize(k) && (k > 0 ==> BlockSize(k - 1) < size)
  {
    var b := BitLength(size - 1);
    BitLengthBounds(size - 1);
    Exponent(b);
    assert Pow2(12) == 4096;
    BitLengthAtMost(size - 1, 12);
    hide Pow2, BitLength, TrailingZeros, BlockSize;
    if b < 5 {
      Pow2Monotone(b, 5);
      BlockSizeIsPow2(0);
    } else {
      BlockSizeIsPow2(b - 5);
      if b > 5 { BlockSizeIsPow2(b - 6); }
    }
  }

  // ----- pages

  /** The one state each data page is in. */
  datatype PageState =
    | FreePage
    | Split(k: nat)          // cut into blocks of bucket k, for good
    | LargeStart(size: nat)  // first page of a large allocation of that many bytes
    | LargeRest(start: nat)  // a later page of the allocation that starts at that page

  function RequiredPages(size: nat): nat {
    (size + PAGE - 1) / PAGE
  }

  /** The lowest free page from a page on: the free list in address order. */
  function NextFree(pages: seq<PageState>, from: nat): (r: Option<nat>)
    requires from <= |pages|
    ensures r.None? ==> forall q :: from <= q < |pages| ==> !pages[q].FreePage?
    ensures r.Some? ==> from <= r.value < |pages| && pages[r.value].FreePage?
    ensures r.Some? ==> forall q :: from <= q < r.value ==> !pages[q].FreePage?
    decreases |pages| - from
  {
    if from == |pages| then None else if pages[from].FreePage? then Some(from) else NextFree(pages, from + 1)
  }

  /** m free pages in a row from page p on. */
  predicate RunAt(pages: seq<PageState>, p: nat, m: nat) {
    p + m <= |pages| && forall q :: p <= q < p + m ==> pages[q].FreePage?
  }

  /** The lowest run of m free pages from a page on. */
  function FirstRun(pages: seq<PageState>, m: nat, from: nat): (r: Option<nat>)
    requires from <= |pages|
    ensures r.None? ==> forall p :: from <= p <= |pages| ==> !RunAt(pages, p, m)
    ensures r.Some? ==> from <= r.value && RunAt(pages, r.value, m)
    ensures r.Some? ==> forall p :: from <= p < r.value ==> !RunAt(pages, p, m)
    decreases |pages| - from
  {
    if RunAt(pages, from, m) then Some(from) else if from == |pages| then None else FirstRun(pages, m, from + 1)
  }

  /** The pages after a large allocation of m pages at page p. */
  function TakeRun(pages: seq<PageState>, p: nat, m: nat, size: nat): (r: seq<PageState>)
    ensures |r| == |pages|
    ensures forall q :: 0 <= q < |pages| ==>
      r[q] == if q == p then LargeStart(size) else if p < q < p + m then LargeRest(p) else pages[q]
  {
    seq(|pages|, q requires 0 <= q < |pages| =>
      if q == p then LargeStart(size) else if p < q < p + m then LargeRest(p) else pages[q])
  }

  /** The pages after m pages from page p on were given back. */
  function GiveBack(pages: seq<PageState>, p: nat, m: nat): (r: seq<PageState>)
    ensures |r| == |pages|
    ensures forall q :: 0 <= q < |pages| ==> r[q] == if p <= q < p + m then FreePage else pages[q]
  {
    seq(|pages|, q requires 0 <= q < |pages| => if p <= q < p + m then FreePage else pages[q])
  }

  // ----- the pool

  datatype Pool = Pool(base: nat, pages: seq<PageState>, buckets: seq<seq<nat>>)

  function PageAddr(base: nat, p: nat): nat {
    base + p * PAGE
  }

  /** find_page_info: the page of an address, when it lies in the pool. */
  function PageOf(pool: Pool, a: nat): Option<nat> {
    if a < pool.base || (a - pool.base) / PAGE >= |pool.pages| then None else Some((a - pool.base) / PAGE)
  }

  /** The addresses from a on, one every step bytes, below end. */
  function Stride(a: nat, end: nat, step: nat): seq<nat>
    requires step > 0
    decreases end - a
  {
    if a >= end then [] else [a] + Stride(a + step, end, step)
  }

  /** The addresses of the blocks of bucket k in page p, ascending. */
  function PageBlocks(base: nat, p: nat, k: nat): seq<nat> {
    Stride(PageAddr(base, p), PageAddr(base, p) + PAGE, BlockSize(k))
  }

  /** a is the address of a block of bucket k in page p. */
  predicate BlockAt(base: nat, p: nat, k: nat, a: nat) {
    PageAddr(base, p) <= a < PageAddr(base, p) + PAGE && Multiple(a - PageAddr(base, p), BlockSize(k))
  }

  /** split_page for the lowest free page, if there is one. */
  function SplitFirst(pool: Pool, k: nat): Pool
    requires k < |pool.buckets|
  {
    match NextFree(pool.pages, 0)
    case None => pool
    case Some(p) =>
      pool.(pages := pool.pages[p := Split(k)],
            buckets := pool.buckets[k := PageBlocks(pool.base, p, k) + pool.buckets[k]])
  }

  function Pop(pool: Pool, k: nat): (Pool, Option<nat>)
    requires k < |pool.buckets|
  {
    if pool.buckets[k] == [] then (pool, None)
    else (pool.(buckets := pool.buckets[k := pool.buckets[k][1..]]), Some(pool.buckets[k][0]))
  }

  function Alloc(pool: Pool, size: nat): (Pool, Option<nat>)
    requires |pool.buckets| == BUCKETS && size != 1
  {
    if size == 0 then (pool, None)
    else if size <= MAX_BLOCK then
      BucketIndexIsTight(size);
      var k := BucketIndex(size);
      Pop(if pool.buckets[k] == [] then SplitFirst(pool, k) else pool, k)
    else
      var m := RequiredPages(size);
      match FirstRun(pool.pages, m, 0)
      case None => (pool, None)
      case Some(p) => (pool.(pages := TakeRun(pool.pages, p, m, size)), Some(PageAddr(pool.base, p)))
  }

  /** free of null or of a pointer outside the pool does nothing; otherwise the page decides. */
  function Free(pool: Pool, a: nat): Pool
    requires |pool.buckets| == BUCKETS
  {
    match PageOf(pool, a)
    case None => pool
    case Some(p) =>
      match pool.pages[p]
      case Split(k) => if k < BUCKETS then pool.(buckets := pool.buckets[k := [a] + pool.buckets[k]]) else pool
      case LargeStart(size) => pool.(pages := GiveBack(pool.pages, p, RequiredPages(size)))
      case _ => pool
  }

  // ----- the invariant

  ghost predicate NoRepeats(s: seq<nat>) {
    forall i, j :: 0 <= i < j < |s| ==> s[i] != s[j]
  }

  /** The pages of large allocations belong together. */
  ghost predicate LargePagesOk(pages: seq<PageState>) {
    && (forall p :: 0 <= p < |pages| && pages[p].LargeStart? ==>
          pages[p].size > MAX_BLOCK && p + RequiredPages(pages[p].size) <= |pages|)
    && (forall p, q :: 0 <= p < q < |pages| && pages[p].LargeStart? && q < p + RequiredPages(pages[p].size) ==>
          pages[q] == LargeRest(p))
    && (forall q :: 0 <= q < |pages| && pages[q].LargeRest? ==>
          var p := pages[q].start; p < q && pages[p].LargeStart? && q < p + RequiredPages(pages[p].size))
  }

  /** What lies on a bucket list is a block of a page split for that bucket, and lies there once. */
  ghost predicate BucketOk(pool: Pool, k: nat)
    requires k < |pool.buckets|
  {
    && NoRepeats(pool.buckets[k])
    && forall a :: a in pool.buckets[k] ==>
         PageOf(pool, a).Some? && pool.pages[PageOf(pool, a).value] == Split(k)
         && BlockAt(pool.base, PageOf(pool, a).value, k, a)
  }

  ghost predicate Inv(pool: Pool) {
    && pool.base > 0 && |pool.buckets| == BUCKETS
    && (forall p :: 0 <= p < |pool.pages| && pool.pages[p].Split? ==> pool.pages[p].k < BUCKETS)
    && LargePagesOk(pool.pages)
    && forall k :: 0 <= k < BUCKETS ==> BucketOk(pool, k)
  }

  /** The addresses that are handed out: blocks of split pages that are on no list, and the first
      bytes of large allocations. */
  ghost predicate Held(pool: Pool, a: nat)
    requires |pool.buckets| == BUCKETS
  {
    && PageOf(pool, a).Some?
    && var p := PageOf(pool, a).value;
       match pool.pages[p]
       case Split(k) => k < BUCKETS && BlockAt(pool.base, p, k, a) && a !in pool.buckets[k]
       case LargeStart(_) => a == PageAddr(pool.base, p)
       case _ => false
  }

  lemma PageOfAddr(pool: Pool, p: nat)
    requires p < |pool.pages|
    ensures PageOf(pool, PageAddr(pool.base, p)) == Some(p)
  {
  }

  lemma BlockInPage(pool: Pool, p: nat, k: nat, a: nat)
    requires p < |pool.pages| && BlockAt(pool.base, p, k, a)
    ensures PageOf(pool, a) == Some(p)
  {
  }

  lemma {:induction false} StrideMember(a: nat, end: nat, step: nat, x: nat)
    requires step > 0
    ensures x in Stride(a, end, step) <==> a <= x < end && Multiple(x - a, step)
    decreases end - a
  {
    if a < end {
      StrideMember(a + step, end, step, x);
      if x > a {
        assert Multiple(x - a, step) <==> x >= a + step && Multiple(x - (a + step), step);
      }
    }
  }

  lemma {:induction false} StrideNoRepeats(a: nat, end: nat, step: nat)
    requires step > 0
    ensures NoRepeats(Stride(a, end, step))
    decreases end - a
  {
    if a < end {
      StrideNoRepeats(a + step, end, step);
      StrideMember(a + step, end, step, a);
    }
  }

  /** PageBlocks lists exactly the blocks of the page, each once. */
  lemma PageBlocksExact(base: nat, p: nat, k: nat)
    ensures forall a: nat :: a in PageBlocks(base, p, k) <==> BlockAt(base, p, k, a)
    ensures NoRepeats(PageBlocks(base, p, k)) && PageBlocks(base, p, k) != []
  {
    StrideNoRepeats(PageAddr(base, p), PageAddr(base, p) + PAGE, BlockSize(k));
    forall a: nat ensures a in PageBlocks(base, p, k) <==> BlockAt(base, p, k, a) {
      StrideMember(PageAddr(base, p), PageAddr(base, p) + PAGE, BlockSize(k), a);
    }
  }

  lemma {:induction false} PageIsMultiple(k: nat)
    requires k < BUCKETS
    ensures Multiple(PAGE, BlockSize(k))
    decreases BUCKETS - k
  {
    BlockSizes();
    if k < 7 {
      PageIsMultiple(k + 1);
      TwiceMultiple(PAGE, BlockSize(k));
    }
  }

  lemma {:induction false} TwiceMultiple(x: nat, m: nat)
    requires m > 0 && Multiple(x, 2 * m)
    ensures Multiple(x, m)
    decreases x
  {
    if x > 0 {
      TwiceMultiple(x - 2 * m, m);
    }
  }

  /** A block lies inside its page, and blocks of one page do not overlap. */
  lemma BlocksApart(base: nat, p: nat, k: nat, a: nat, b: nat)
    requires k < BUCKETS && BlockAt(base, p, k, a) && BlockAt(base, p, k, b) && a <= b
    ensures b + BlockSize(k) <= PageAddr(base, p) + PAGE
    ensures a < b ==> a + BlockSize(k) <= b
  {
    PageIsMultiple(k);
    MultiplesApart(b - PageAddr(base, p), PAGE, BlockSize(k));
    if a < b {
      MultiplesApart(a - PageAddr(base, p), b - PageAddr(base, p), BlockSize(k));
    }
  }

  // ----- every operation keeps the invariant and changes what is held by exactly one address

  /** The page of an address that is held before and after did not change its state. */
  ghost predicate Steady(pool: Pool, r: Pool)
    requires |pool.buckets| == |r.buckets| == BUCKETS
  {
    && r.base == pool.base && |r.pages| == |pool.pages|
    && forall a :: Held(pool, a) && Held(r, a) ==>
         r.pages[PageOf(pool, a).value] == pool.pages[PageOf(pool, a).value]
  }

  lemma PopKeeps(pool: Pool, k: nat)
    requires Inv(pool) && k < BUCKETS && pool.buckets[k] != []
    ensures var (r, a) := Pop(pool, k);
      && Inv(r) && Steady(pool, r) && !Held(pool, a.value)
      && forall x :: Held(r, x) <==> Held(pool, x) || x == a.value
  {
    var (r, a) := Pop(pool, k);
    var list, rest := pool.buckets[k], r.buckets[k];
    assert BucketOk(pool, k);
    assert list == [list[0]] + rest;
    forall j | 0 <= j < BUCKETS ensures BucketOk(r, j) {
      assert BucketOk(pool, j);
    }
    assert a.value in list && list[0] !in rest;
    hide BlockAt, BucketOk, LargePagesOk;
  }

  lemma SplitKeeps(pool: Pool, k: nat)
    requires Inv(pool) && k < BUCKETS && pool.buckets[k] == [] && NextFree(pool.pages, 0).Some?
    ensures var r := SplitFirst(pool, k);
      && Inv(r) && Steady(pool, r) && r.buckets[k] != []
      && forall x :: Held(r, x) <==> Held(pool, x)
  {
    var p, r := NextFree(pool.pages, 0).value, SplitFirst(pool, k);
    PageBlocksExact(pool.base, p, k);
    assert r.buckets[k] == PageBlocks(pool.base, p, k);
    hide PageBlocks, BlockAt;
    forall j | 0 <= j < BUCKETS ensures BucketOk(r, j) {
      assert BucketOk(pool, j);
      if j == k {
        forall a | a in r.buckets[k] ensures PageOf(r, a) == Some(p) {
          BlockInPage(r, p, k, a);
        }
      }
    }
    hide BucketOk;
    SplitLargePages(pool.pages, p, k);
  }

  lemma SplitLargePages(pages: seq<PageState>, p: nat, k: nat)
    requires LargePagesOk(pages) && p < |pages| && pages[p].FreePage?
    ensures LargePagesOk(pages[p := Split(k)])
  {
  }

  lemma TakeRunLargePages(pages: seq<PageState>, p: nat, m: nat, size: nat)
    requires LargePagesOk(pages) && RunAt(pages, p, m) && size > MAX_BLOCK && m == RequiredPages(size)
    ensures LargePagesOk(TakeRun(pages, p, m, size))
  {
  }

  /** Bucket lists and held blocks depend only on the split pages and on where large ranges start. */
  lemma PagesChanged(pool: Pool, pages: seq<PageState>)
    requires |pool.buckets| == BUCKETS && |pages| == |pool.pages|
    requires forall q :: 0 <= q < |pages| ==> (pages[q].Split? || pool.pages[q].Split?) ==> pages[q] == pool.pages[q]
    requires forall j :: 0 <= j < BUCKETS ==> BucketOk(pool, j)
    ensures var r := pool.(pages := pages);
      && (forall j :: 0 <= j < BUCKETS ==> BucketOk(r, j))
      && forall a :: PageOf(pool, a).Some? && pages[PageOf(pool, a).value].Split? ==> Held(r, a) == Held(pool, a)
  {
    hide BlockAt, NoRepeats;
    var r := pool.(pages := pages);
    forall j | 0 <= j < BUCKETS ensures BucketOk(r, j) {
      assert BucketOk(pool, j);
    }
  }

  lemma TakeRunKeeps(pool: Pool, p: nat, size: nat)
    requires Inv(pool) && size > MAX_BLOCK && RunAt(pool.pages, p, RequiredPages(size))
    ensures var r := pool.(pages := TakeRun(pool.pages, p, RequiredPages(size), size));
      && Inv(r) && Steady(pool, r) && !Held(pool, PageAddr(pool.base, p))
      && forall x :: Held(r, x) <==> Held(pool, x) || x == PageAddr(pool.base, p)
  {
    var m := RequiredPages(size);
    TakeRunLargePages(pool.pages, p, m, size);
    PagesChanged(pool, TakeRun(pool.pages, p, m, size));
    TakeRunHeld(pool, p, m, size);
    hide LargePagesOk, Held, BucketOk, RunAt, Steady, RequiredPages;
  }

  lemma TakeRunHeld(pool: Pool, p: nat, m: nat, size: nat)
    requires |pool.buckets| == BUCKETS && RunAt(pool.pages, p, m) && m > 0
    ensures var r := pool.(pages := TakeRun(pool.pages, p, m, size));
      && Steady(pool, r) && !Held(pool, PageAddr(pool.base, p))
      && forall x :: Held(r, x) <==> Held(pool, x) || x == PageAddr(pool.base, p)
  {
    hide BlockAt, TakeRun;
    PageOfAddr(pool, p);
  }

  lemma GiveBackLargePages(pages: seq<PageState>, p: nat)
    requires LargePagesOk(pages) && p < |pages| && pages[p].LargeStart?
    ensures LargePagesOk(GiveBack(pages, p, RequiredPages(pages[p].size)))
  {
    hide RequiredPages;
    var m := RequiredPages(pages[p].size);
    assert forall q :: p < q < p + m ==> pages[q] == LargeRest(p);
  }

  lemma GiveBackKeeps(pool: Pool, a: nat)
    requires Inv(pool) && Held(pool, a) && pool.pages[PageOf(pool, a).value].LargeStart?
    ensures var r := Free(pool, a);
      && Inv(r) && Steady(pool, r) && forall x :: Held(r, x) <==> Held(pool, x) && x != a
  {
    var p := PageOf(pool, a).value;
    var m := RequiredPages(pool.pages[p].size);
    GiveBackLargePages(pool.pages, p);
    assert m > 0 && forall q :: p < q < p + m ==> pool.pages[q] == LargeRest(p);
    hide LargePagesOk, BlockAt, BucketOk, RequiredPages, Steady;
    PagesChanged(pool, GiveBack(pool.pages, p, m));
    GiveBackHeld(pool, p, m);
  }

  lemma GiveBackHeld(pool: Pool, p: nat, m: nat)
    requires |pool.buckets| == BUCKETS && p < |pool.pages| && pool.pages[p].LargeStart? && m > 0
    requires forall q :: p < q < p + m && q < |pool.pages| ==> pool.pages[q] == LargeRest(p)
    ensures var r := pool.(pages := GiveBack(pool.pages, p, m));
      Steady(pool, r) && forall x :: Held(r, x) <==> Held(pool, x) && x != PageAddr(pool.base, p)
  {
    hide BlockAt;
    PageOfAddr(pool, p);
  }

  lemma PushKeeps(pool: Pool, a: nat)
    requires Inv(pool) && Held(pool, a) && pool.pages[PageOf(pool, a).value].Split?
    ensures var r := Free(pool, a);
      && Inv(r) && Steady(pool, r) && forall x :: Held(r, x) <==> Held(pool, x) && x != a
  {
    PushBuckets(pool, a);
    PushHeld(pool, a);
    assert Free(pool, a).pages == pool.pages && Free(pool, a).base == pool.base;
    hide LargePagesOk, BucketOk, Held, Steady, PageOf;
  }

  lemma PushHeld(pool: Pool, a: nat)
    requires |pool.buckets| == BUCKETS && Held(pool, a) && pool.pages[PageOf(pool, a).value].Split?
    ensures var r := Free(pool, a);
      |r.buckets| == BUCKETS && Steady(pool, r) && forall x :: Held(r, x) <==> Held(pool, x) && x != a
  {
    hide BlockAt;
    var k := pool.pages[PageOf(pool, a).value].k;
    var r := Free(pool, a);
    assert r == pool.(buckets := pool.buckets[k := [a] + pool.buckets[k]]);
    assert forall x: nat :: x in r.buckets[k] <==> x == a || x in pool.buckets[k];
    hide Free;
  }

  lemma PushBuckets(pool: Pool, a: nat)
    requires Inv(pool) && Held(pool, a) && pool.pages[PageOf(pool, a).value].Split?
    ensures forall j :: 0 <= j < BUCKETS ==> |Free(pool, a).buckets| == BUCKETS && BucketOk(Free(pool, a), j)
  {
    hide LargePagesOk, BlockAt;
    var r := Free(pool, a);
    forall j | 0 <= j < BUCKETS ensures BucketOk(r, j) {
      assert BucketOk(pool, j);
    }
  }

  // ----- whole runs

  /** The pool together with the pointers handed out and not yet freed, and the sizes asked for. */
  datatype Heap = Heap(pool: Pool, live: map<nat, nat>)

  datatype Op = AllocOp(size: nat) | FreeOp(ptr: nat)

  /** free may only be given null or a live pointer; a request of one byte is undefined in the source. */
  predicate Legal(h: Heap, op: Op) {
    match op
    case AllocOp(size) => size != 1
    case FreeOp(ptr) => ptr == 0 || ptr in h.live
  }

  /** Illegal operations, which never occur on a legal run, are left without effect. */
  function Step(h: Heap, op: Op): Heap {
    if |h.pool.buckets| != BUCKETS || op == AllocOp(1) then h else
    match op
    case AllocOp(size) =>
      var (pool, r) := Alloc(h.pool, size);
      Heap(pool, if r.Some? then h.live[r.value := size] else h.live)
    case FreeOp(ptr) => if ptr == 0 then h else Heap(Free(h.pool, ptr), h.live - {ptr})
  }

  /** The memory behind a held address is the kind of memory that this request gets. */
  ghost predicate Serves(pool: Pool, a: nat, size: nat)
    requires |pool.buckets| == BUCKETS && Held(pool, a)
  {
    match pool.pages[PageOf(pool, a).value]
    case Split(k) => 2 <= size <= MAX_BLOCK && BucketIndex(size) == k
    case LargeStart(n) => n == size
    case _ => false
  }

  ghost predicate Good(h: Heap) {
    && Inv(h.pool)
    && (forall a :: a in h.live <==> Held(h.pool, a))
    && forall a :: a in h.live ==> Serves(h.pool, a, h.live[a])
  }

  lemma LiveAfterAlloc(h: Heap, r: Heap, a: nat, size: nat)
    requires Good(h) && Inv(r.pool) && Steady(h.pool, r.pool) && r.live == h.live[a := size]
    requires forall x :: Held(r.pool, x) <==> Held(h.pool, x) || x == a
    requires Serves(r.pool, a, size)
    ensures Good(r)
  {
    hide Inv, Held, BucketIndex;
  }

  lemma LiveAfterFree(h: Heap, r: Heap, a: nat)
    requires Good(h) && Inv(r.pool) && Steady(h.pool, r.pool) && r.live == h.live - {a}
    requires forall x :: Held(r.pool, x) <==> Held(h.pool, x) && x != a
    ensures Good(r)
  {
    hide Inv, Held, BucketIndex;
  }

  lemma PopStep(h: Heap, k: nat, size: nat)
    requires Good(h) && 2 <= size <= MAX_BLOCK && k == BucketIndex(size) < BUCKETS && h.pool.buckets[k] != []
    ensures var (pool, a) := Pop(h.pool, k);
      a.value !in h.live && Good(Heap(pool, h.live[a.value := size]))
  {
    hide BucketIndex;
    PopKeeps(h.pool, k);
    var (pool, a) := Pop(h.pool, k);
    assert BucketOk(h.pool, k) && a.value in h.pool.buckets[k];
    assert Held(pool, a.value);
    LiveAfterAlloc(h, Heap(pool, h.live[a.value := size]), a.value, size);
  }

  lemma SplitStep(h: Heap, k: nat)
    requires Good(h) && k < BUCKETS && h.pool.buckets[k] == [] && NextFree(h.pool.pages, 0).Some?
    ensures Good(Heap(SplitFirst(h.pool, k), h.live)) && SplitFirst(h.pool, k).buckets[k] != []
  {
    hide BucketIndex, Inv, Held, SplitFirst, NextFree;
    SplitKeeps(h.pool, k);
  }

  /** alloc keeps everything in order and never hands out an address that is already live. */
  lemma AllocStep(h: Heap, size: nat)
    requires Good(h) && size != 1
    ensures Good(Step(h, AllocOp(size)))
    ensures Alloc(h.pool, size).1.Some? ==> Alloc(h.pool, size).1.value !in h.live
  {
    hide LargePagesOk, BucketOk, Held, Serves, SplitFirst;
    if 2 <= size <= MAX_BLOCK {
      BucketIndexIsTight(size);
      var k := BucketIndex(size);
      if h.pool.buckets[k] != [] {
        PopStep(h, k, size);
      } else if NextFree(h.pool.pages, 0).Some? {
        SplitStep(h, k);
        PopStep(Heap(SplitFirst(h.pool, k), h.live), k, size);
      } else {
        SplitNothing(h.pool, k);
      }
    } else if size > MAX_BLOCK {
      LargeStep(h, size);
    }
  }

  lemma SplitNothing(pool: Pool, k: nat)
    requires k < |pool.buckets| && NextFree(pool.pages, 0).None?
    ensures SplitFirst(pool, k) == pool
  {
  }

  lemma LargeStep(h: Heap, size: nat)
    requires Good(h) && size > MAX_BLOCK
    ensures Good(Step(h, AllocOp(size)))
    ensures Alloc(h.pool, size).1.Some? ==> Alloc(h.pool, size).1.value !in h.live
  {
    match FirstRun(h.pool.pages, RequiredPages(size), 0)
    case None =>
    case Some(p) =>
      TakeRunKeeps(h.pool, p, size);
      PageOfAddr(h.pool, p);
      LiveAfterAlloc(h, Step(h, AllocOp(size)), PageAddr(h.pool.base, p), size);
  }

  lemma FreeStep(h: Heap, ptr: nat)
    requires Good(h) && Legal(h, FreeOp(ptr))
    ensures Good(Step(h, FreeOp(ptr)))
  {
    if ptr != 0 {
      if h.pool.pages[PageOf(h.pool, ptr).value].LargeStart? {
        GiveBackKeeps(h.pool, ptr);
      } else {
        PushKeeps(h.pool, ptr);
      }
      LiveAfterFree(h, Step(h, FreeOp(ptr)), ptr);
    }
  }

  predicate LegalRun(h: Heap, ops: seq<Op>)
    decreases |ops|
  {
    ops != [] ==> Legal(h, ops[0]) && LegalRun(Step(h, ops[0]), ops[1..])
  }

  function Exec(h: Heap, ops: seq<Op>): Heap
    decreases |ops|
  {
    if ops == [] then h else Exec(Step(h, ops[0]), ops[1..])
  }

  /** What the constructor leaves behind: all n data pages free. */
  function Fresh(base: nat, n: nat): Heap {
    Heap(Pool(base, seq(n, _ => FreePage), seq(BUCKETS, _ => [])), map[])
  }

  lemma {:induction false} RunFrom(h: Heap, ops: seq<Op>)
    requires Good(h) && LegalRun(h, ops)
    ensures Good(Exec(h, ops))
    decreases |ops|
  {
    hide Good, Step, Legal;
    if ops != [] {
      StepKeepsGood(h, ops[0]);
      RunFrom(Step(h, ops[0]), ops[1..]);
    }
  }

  lemma StepKeepsGood(h: Heap, op: Op)
    requires Good(h) && Legal(h, op)
    ensures Good(Step(h, op))
  {
    hide Good, Step;
    if op.AllocOp? {
      AllocStep(h, op.size);
    } else {
      FreeStep(h, op.ptr);
    }
  }

  /** A split page stays as it is in every call. */
  lemma SplitStays(h: Heap, op: Op, p: nat)
    requires Good(h) && Legal(h, op) && p < |h.pool.pages| && h.pool.pages[p].Split?
    ensures var r := Step(h, op).pool.pages; |r| == |h.pool.pages| && r[p] == h.pool.pages[p]
  {
    if op.FreeOp? && op.ptr != 0 {
      LargeAlone(h.pool, PageOf(h.pool, op.ptr).value, p);
    }
    hide Inv, Held, BucketIndex, RequiredPages;
  }

  /** No page of a large allocation is split. */
  lemma LargeAlone(pool: Pool, q: nat, p: nat)
    requires Inv(pool) && q < |pool.pages| && p < |pool.pages| && pool.pages[p].Split?
    ensures pool.pages[q].LargeStart? ==> !(q <= p < q + RequiredPages(pool.pages[q].size))
  {
    hide BucketOk, RequiredPages;
  }

  /** A page once split keeps its block size however the calls go on. */
  lemma {:induction false} SplitForever(h: Heap, ops: seq<Op>, p: nat)
    requires Good(h) && LegalRun(h, ops) && p < |h.pool.pages| && h.pool.pages[p].Split?
    ensures var r := Exec(h, ops).pool.pages; |r| == |h.pool.pages| && r[p] == h.pool.pages[p]
    decreases |ops|
  {
    hide Good, Step, Legal;
    if ops != [] {
      SplitStays(h, ops[0], p);
      StepKeepsGood(h, ops[0]);
      SplitForever(Step(h, ops[0]), ops[1..], p);
    }
  }

  /** A legal sequence of calls, cut after the first i. */
  lemma {:induction false} RunInTwo(h: Heap, ops: seq<Op>, i: nat)
    requires LegalRun(h, ops) && i <= |ops|
    ensures LegalRun(h, ops[..i]) && LegalRun(Exec(h, ops[..i]), ops[i..])
    ensures Exec(h, ops) == Exec(Exec(h, ops[..i]), ops[i..])
    decreases i
  {
    hide Step, Legal;
    if i > 0 {
      assert ops[..i][1..] == ops[1..][..i - 1] && ops[1..][i - 1..] == ops[i..];
      RunInTwo(Step(h, ops[0]), ops[1..], i - 1);
    } else {
      assert ops[..0] == [] && ops[0..] == ops;
    }
  }

  /** A page that is split after the first i calls is the same after all of them. */
  ghost predicate SplitOnceForAll(base: nat, n: nat, ops: seq<Op>, i: nat, p: nat)
    requires i <= |ops|
  {
    var was, now := Exec(Fresh(base, n), ops[..i]).pool.pages, Exec(Fresh(base, n), ops).pool.pages;
    p < |was| && was[p].Split? ==> p < |now| && now[p] == was[p]
  }

  lemma SplitStaysSplit(base: nat, n: nat, ops: seq<Op>, i: nat, p: nat)
    requires base > 0 && LegalRun(Fresh(base, n), ops) && i <= |ops|
    ensures SplitOnceForAll(base, n, ops, i, p)
  {
    hide Good, Step, Legal, Exec, LegalRun, Fresh;
    RunInTwo(Fresh(base, n), ops, i);
    FreshIsGood(base, n);
    RunFrom(Fresh(base, n), ops[..i]);
    var h := Exec(Fresh(base, n), ops[..i]);
    if p < |h.pool.pages| && h.pool.pages[p].Split? {
      SplitForever(h, ops[i..], p);
    }
  }

  lemma FreshIsGood(base: nat, n: nat)
    requires base > 0
    ensures Good(Fresh(base, n))
  {
  }

  /** The pool after any legal sequence of alloc and free on fresh memory. */
  lemma EveryRun(base: nat, n: nat, ops: seq<Op>)
    requires base > 0 && LegalRun(Fresh(base, n), ops)
    ensures var h := Exec(Fresh(base, n), ops);
      && Good(h)
      && forall a, b :: a in h.live && b in h.live ==> LiveApart(h, a, b)
    ensures forall i: nat, p: nat :: i <= |ops| ==> SplitOnceForAll(base, n, ops, i, p)
  {
    hide SplitOnceForAll;
    forall i: nat, p: nat | i <= |ops| ensures SplitOnceForAll(base, n, ops, i, p) {
      SplitStaysSplit(base, n, ops, i, p);
    }
    FreshIsGood(base, n);
    RunFrom(Fresh(base, n), ops);
    var h := Exec(Fresh(base, n), ops);
    forall a, b | a in h.live && b in h.live ensures LiveApart(h, a, b) {
      LiveRanges(h, a, b);
    }
  }

  /** A live range lies in the data pages and ends before any live range that starts later. */
  ghost predicate LiveApart(h: Heap, a: nat, b: nat)
    requires a in h.live && b in h.live
  {
    && h.pool.base <= a && a + h.live[a] <= PageAddr(h.pool.base, |h.pool.pages|)
    && (a < b ==> a + h.live[a] <= b)
  }

  /** The bytes that belong to a held address. */
  function Extent(pool: Pool, a: nat): nat
    requires PageOf(pool, a).Some?
  {
    match pool.pages[PageOf(pool, a).value]
    case Split(k) => BlockSize(k)
    case LargeStart(size) => RequiredPages(size) * PAGE
    case _ => 0
  }

  lemma LiveFits(h: Heap, a: nat)
    requires Good(h) && a in h.live
    ensures 0 < h.live[a] <= Extent(h.pool, a)
  {
    if h.pool.pages[PageOf(h.pool, a).value].Split? {
      BucketIndexIsTight(h.live[a]);
    }
  }

  lemma HeldEnds(pool: Pool, a: nat)
    requires Inv(pool) && Held(pool, a)
    ensures a + Extent(pool, a) <= PageAddr(pool.base, |pool.pages|)
    ensures var p := PageOf(pool, a).value;
      pool.pages[p].Split? ==> a + Extent(pool, a) <= PageAddr(pool.base, p + 1)
  {
    var p := PageOf(pool, a).value;
    if pool.pages[p].Split? {
      BlocksApart(pool.base, p, pool.pages[p].k, a, a);
    }
  }

  lemma HeldApart(pool: Pool, a: nat, b: nat)
    requires Inv(pool) && Held(pool, a) && Held(pool, b) && a < b
    ensures a + Extent(pool, a) <= b
  {
    var p, q := PageOf(pool, a).value, PageOf(pool, b).value;
    HeldEnds(pool, a);
    if pool.pages[p].Split? {
      if p == q {
        BlocksApart(pool.base, p, pool.pages[p].k, a, b);
      }
    } else {
      assert !(p < q < p + RequiredPages(pool.pages[p].size));
    }
  }

  lemma LiveRanges(h: Heap, a: nat, b: nat)
    requires Good(h) && a in h.live && b in h.live
    ensures LiveApart(h, a, b)
  {
    LiveFits(h, a);
    HeldEnds(h.pool, a);
    if a < b {
      HeldApart(h.pool, a, b);
    }
  }

  // ----- large allocations

  /** First fit: null exactly when no run of pages is long enough, otherwise the lowest run, which
      loses its pages; nothing else changes. */
  lemma LargeIsFirstFit(pool: Pool, size: nat)
    requires Inv(pool) && size > MAX_BLOCK
    ensures var m := RequiredPages(size);
      match Alloc(pool, size)
      case (r, None) => r == pool && forall p :: 0 <= p ==> !RunAt(pool.pages, p, m)
      case (r, Some(a)) => exists p: nat ::
        && a == PageAddr(pool.base, p) && RunAt(pool.pages, p, m)
        && (forall q :: 0 <= q < p ==> !RunAt(pool.pages, q, m))
        && (m - 1) * PAGE < size <= m * PAGE
        && r.pages[p] == LargeStart(size) && r.buckets == pool.buckets && r.base == pool.base
        && (forall q :: p < q < p + m ==> r.pages[q] == LargeRest(p))
        && forall q :: 0 <= q < |pool.pages| && !(p <= q < p + m) ==> r.pages[q] == pool.pages[q]
  {
    var m := RequiredPages(size);
    if FirstRun(pool.pages, m, 0).Some? {
      var p := FirstRun(pool.pages, m, 0).value;
      assert RunAt(pool.pages, p, m);
    }
  }

  ghost predicate Ascending(s: seq<nat>) {
    forall i, j :: 0 <= i < j < |s| ==> s[i] < s[j]
  }

  lemma {:induction false} StrideAscending(a: nat, end: nat, step: nat)
    requires step > 0
    ensures Ascending(Stride(a, end, step))
    decreases end - a
  {
    if a < end {
      StrideAscending(a + step, end, step);
      var rest := Stride(a + step, end, step);
      forall x | x in rest ensures a < x {
        StrideMember(a + step, end, step, x);
      }
      assert forall j :: 0 <= j < |rest| ==> rest[j] in rest;
    }
  }

  /** k is the bucket with the smallest blocks that hold size bytes. */
  predicate IsBucketOf(k: nat, size: nat) {
    k < BUCKETS && size <= BlockSize(k) && (k > 0 ==> BlockSize(k - 1) < size)
  }

  lemma BucketIndexIs(k: nat, size: nat)
    requires 2 <= size <= MAX_BLOCK && IsBucketOf(k, size)
    ensures BucketIndex(size) == k
  {
    BucketIndexIsTight(size);
    BlockSizes();
    hide BucketIndex, BlockSize;
    var b := BucketIndex(size);
    assert b == 0 || b == 1 || b == 2 || b == 3 || b == 4 || b == 5 || b == 6 || b == 7;
    assert k == 0 || k == 1 || k == 2 || k == 3 || k == 4 || k == 5 || k == 6 || k == 7;
  }

  /** Page p, the lowest free one, was cut into blocks of bucket k, and the first of them handed out: the
      others are the new list, in ascending order. */
  ghost predicate CutForBucket(pool: Pool, r: Pool, k: nat, p: nat)
    requires |pool.buckets| == BUCKETS && k < BUCKETS
  {
    && p < |pool.pages| && pool.pages[p].FreePage? && (forall q :: 0 <= q < p ==> !pool.pages[q].FreePage?)
    && r.base == pool.base && r.pages == pool.pages[p := Split(k)] && |r.buckets| == BUCKETS
    && (forall j :: 0 <= j < BUCKETS && j != k ==> r.buckets[j] == pool.buckets[j])
    && Ascending(r.buckets[k])
    && forall x: nat :: x in r.buckets[k] <==> BlockAt(pool.base, p, k, x) && x != PageAddr(pool.base, p)
  }

  /** A small request gets null if and only if its list is empty and no page is free. Otherwise it gets the
      head of its list or, when that is empty, the first block of the lowest free page, which is cut up
      for the list. All other pages and lists stay. */
  lemma SmallAllocExact(pool: Pool, size: nat, k: nat)
    requires Inv(pool) && 2 <= size <= MAX_BLOCK && IsBucketOf(k, size)
    ensures var (r, a) := Alloc(pool, size);
      && (a.None? <==> pool.buckets[k] == [] && forall q :: 0 <= q < |pool.pages| ==> !pool.pages[q].FreePage?)
      && (a.None? ==> r == pool)
      && (pool.buckets[k] != [] ==>
            a == Some(pool.buckets[k][0]) && r == pool.(buckets := pool.buckets[k := pool.buckets[k][1..]]))
      && (pool.buckets[k] == [] && a.Some? ==>
            exists p: nat :: a.value == PageAddr(pool.base, p) && CutForBucket(pool, r, k, p))
  {
    hide BucketIndex, BlockAt, LargePagesOk, BucketOk;
    BucketIndexIs(k, size);
    if pool.buckets[k] == [] {
      var first := NextFree(pool.pages, 0);
      if first.Some? {
        FirstBlockOut(pool, k, first.value);
      } else {
        SplitNothing(pool, k);
      }
    }
  }

  lemma FirstBlockOut(pool: Pool, k: nat, p: nat)
    requires |pool.buckets| == BUCKETS && k < BUCKETS && pool.buckets[k] == [] && NextFree(pool.pages, 0) == Some(p)
    ensures var (r, a) := Pop(SplitFirst(pool, k), k);
      a == Some(PageAddr(pool.base, p)) && CutForBucket(pool, r, k, p)
  {
    var list := PageBlocks(pool.base, p, k);
    PageBlocksExact(pool.base, p, k);
    StrideAscending(PageAddr(pool.base, p), PageAddr(pool.base, p) + PAGE, BlockSize(k));
    assert list[0] == PageAddr(pool.base, p) && list == [list[0]] + list[1..];
    assert SplitFirst(pool, k).buckets[k] == list;
    hide PageBlocks, Stride, BlockAt;
  }

  /** free of a block puts it in front of its page's list; free of a large allocation of m pages makes just
      these pages free. Nothing else changes. */
  lemma FreeExact(pool: Pool, a: nat, m: nat)
    requires Inv(pool) && Held(pool, a)
    ensures var r, p := Free(pool, a), PageOf(pool, a).value;
      match pool.pages[p]
      case Split(k) => r == pool.(buckets := pool.buckets[k := [a] + pool.buckets[k]])
      case LargeStart(size) => (m - 1) * PAGE < size <= m * PAGE ==>
        && r.base == pool.base && r.buckets == pool.buckets && |r.pages| == |pool.pages| && p + m <= |r.pages|
        && forall q :: 0 <= q < |r.pages| ==> r.pages[q] == if p <= q < p + m then FreePage else pool.pages[q]
      case _ => true
  {
    hide BlockAt, BucketOk;
  }

  /** A large alloc followed by free of its result gives the same pool back: pages, free list, buckets. */
  lemma LargeAllocFree(pool: Pool, size: nat)
    requires Inv(pool) && size > MAX_BLOCK && Alloc(pool, size).1.Some?
    ensures var (r, a) := Alloc(pool, size); Free(r, a.value) == pool
  {
    var m := RequiredPages(size);
    var p := FirstRun(pool.pages, m, 0).value;
    var (r, a) := Alloc(pool, size);
    PageOfAddr(r, p);
    assert GiveBack(r.pages, p, m) == pool.pages;
  }

  /** A small alloc served from its list followed by free gives the same pool back. */
  lemma SmallAllocFree(pool: Pool, size: nat, k: nat)
    requires Inv(pool) && 2 <= size <= MAX_BLOCK && k == BucketIndex(size) < BUCKETS && Alloc(pool, size).1.Some?
    ensures var (r, a) := Alloc(pool, size);
      Free(r, a.value) == if pool.buckets[k] != [] then pool else SplitFirst(pool, k)
  {
    hide BucketIndex, Held, BlockAt, LargePagesOk;
    if pool.buckets[k] == [] {
      if NextFree(pool.pages, 0).Some? { SplitKeeps(pool, k); } else { SplitNothing(pool, k); }
    }
    var full := if pool.buckets[k] != [] then pool else SplitFirst(pool, k);
    var list := full.buckets[k];
    assert BucketOk(full, k) && list[0] in list;
    assert [list[0]] + list[1..] == list;
    var (r, a) := Pop(full, k);
    assert Free(r, a.value).buckets == full.buckets;
  }
}
