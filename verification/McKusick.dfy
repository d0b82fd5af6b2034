/** McKusickAllocator in its own form: a table of page records whose next fields make the sorted free
    list, an array of bucket heads, and the links stored in free blocks. */
module McKusick {
  import opened McKusickPool
  import opened Naturals
  import opened Wrappers

  /** One record of the metadata array; next is the index of another record. */
  datatype PageInfo = PageInfo(pageAddr: nat, size: nat, next: Option<nat>, isStart: bool)

  /** sizeof(PageInfo) */
  const RECORD: nat := 32

  // ----- what the fields mean, on values

  /** The size and flag that a page of this state has in its record. */
  predicate Records(r: PageInfo, base: nat, p: nat, st: PageState) {
    && r.pageAddr == PageAddr(base, p)
    && match st
       case FreePage => r.size == 0 && !r.isStart
       case Split(k) => r.size == BlockSize(k) && !r.isStart
       case LargeStart(size) => r.size == size && r.isStart
       case LargeRest(_) => r.size == 0 && !r.isStart
  }

  /** The next free page after each free page is the one its record names. */
  ghost predicate ListOk(info: seq<PageInfo>, first: Option<nat>, pages: seq<PageState>)
    requires |info| == |pages|
  {
    && first == NextFree(pages, 0)
    && forall p {:trigger NextOk(info, pages, p)} :: 0 <= p < |pages| && pages[p].FreePage? ==> NextOk(info, pages, p)
  }

  predicate NextOk(info: seq<PageInfo>, pages: seq<PageState>, p: nat)
    requires p < |info| == |pages|
  {
    info[p].next == NextFree(pages, p + 1)
  }

  ghost predicate RecordsOk(info: seq<PageInfo>, base: nat, pages: seq<PageState>)
    requires |info| == |pages|
  {
    forall p :: 0 <= p < |pages| ==> Records(info[p], base, p, pages[p])
  }

  /** The free pages from a page on, ascending. */
  function FreeFrom(pages: seq<PageState>, from: nat): (r: seq<nat>)
    requires from <= |pages|
    decreases |pages| - from
  {
    match NextFree(pages, from)
    case None => []
    case Some(p) => [p] + FreeFrom(pages, p + 1)
  }

  /** Following the next fields from first visits exactly this list and then stops. */
  ghost predicate Walk(info: seq<PageInfo>, first: Option<nat>, list: seq<nat>)
    decreases |list|
  {
    if list == [] then first == None
    else first == Some(list[0]) && list[0] < |info| && Walk(info, info[list[0]].next, list[1..])
  }

  lemma {:induction false} WalkFrom(info: seq<PageInfo>, pages: seq<PageState>, from: nat)
    requires |info| == |pages| && from <= |pages| && ListOk(info, NextFree(pages, 0), pages)
    ensures Walk(info, NextFree(pages, from), FreeFrom(pages, from))
    ensures forall i :: 0 <= i < |FreeFrom(pages, from)| ==> from <= FreeFrom(pages, from)[i] < |pages|
    ensures forall i, j :: 0 <= i < j < |FreeFrom(pages, from)| ==>
      FreeFrom(pages, from)[i] < FreeFrom(pages, from)[j]
    ensures forall p: nat :: p in FreeFrom(pages, from) <==> from <= p < |pages| && pages[p].FreePage?
    decreases |pages| - from
  {
    if NextFree(pages, from).Some? {
      var p := NextFree(pages, from).value;
      assert NextOk(info, pages, p);
      WalkFrom(info, pages, p + 1);
    }
  }

  /** The linked free list is in strictly ascending address order, finite, and holds each free page once
      and no other page. */
  lemma FreeListAscending(info: seq<PageInfo>, first: Option<nat>, pages: seq<PageState>)
    requires |info| == |pages| && ListOk(info, first, pages)
    ensures var list := FreeFrom(pages, 0);
      && Walk(info, first, list)
      && (forall i, j :: 0 <= i < j < |list| ==> list[i] < list[j])
      && forall p: nat :: p in list <==> p < |pages| && pages[p].FreePage?
  {
    WalkFrom(info, pages, 0);
  }

  /** The links in free blocks from a list head on spell the list; 0 ends it. */
  ghost predicate Chain(link: map<nat, nat>, first: nat, list: seq<nat>)
    decreases |list|
  {
    if list == [] then first == 0
    else first == list[0] != 0 && first in link && Chain(link, link[first], list[1..])
  }

  lemma {:induction false} ChainFrame(link: map<nat, nat>, first: nat, list: seq<nat>, a: nat, v: nat)
    requires Chain(link, first, list) && a !in list
    ensures Chain(link[a := v], first, list)
    decreases |list|
  {
    if list != [] {
      assert list[0] in list;
      ChainFrame(link, link[first], list[1..], a, v);
    }
  }

  /** The next free page is determined by what it promises. */
  lemma {:induction false} NextFreeIs(pages: seq<PageState>, from: nat, r: Option<nat>)
    requires from <= |pages|
    requires r.None? ==> forall q :: from <= q < |pages| ==> !pages[q].FreePage?
    requires r.Some? ==> from <= r.value < |pages| && pages[r.value].FreePage?
    requires r.Some? ==> forall q :: from <= q < r.value ==> !pages[q].FreePage?
    ensures NextFree(pages, from) == r
  {
  }

  lemma NextAfterInsert(pages: seq<PageState>, page: nat, from: nat)
    requires page < |pages| && from <= |pages|
    ensures var n := NextFree(pages, from);
      NextFree(pages[page := FreePage], from)
        == if from <= page && (n.None? || page < n.value) then Some(page) else n
  {
    var n := NextFree(pages, from);
    NextFreeIs(pages[page := FreePage], from, if from <= page && (n.None? || page < n.value) then Some(page) else n);
  }

  lemma NextAfterRemove(pages: seq<PageState>, p: nat, m: nat, size: nat, from: nat)
    requires RunAt(pages, p, m) && from <= |pages| && m > 0
    ensures var n := NextFree(pages, from);
      NextFree(TakeRun(pages, p, m, size), from)
        == if n.Some? && p <= n.value < p + m then NextFree(pages, p + m) else n
  {
    var n := NextFree(pages, from);
    NextFreeIs(TakeRun(pages, p, m, size), from, if n.Some? && p <= n.value < p + m then NextFree(pages, p + m) else n);
  }

  /** prev is the free page before p, if there is one. */
  ghost predicate Before(pages: seq<PageState>, p: nat, prev: Option<nat>)
    requires p <= |pages|
  {
    match prev
    case None => forall q :: 0 <= q < p ==> !pages[q].FreePage?
    case Some(v) => v < p && pages[v].FreePage? && forall q :: v < q < p ==> !pages[q].FreePage?
  }

  /** The free page that follows any page other than prev does not lie in [p, |pages|) before prev. */
  lemma BeforeSkips(pages: seq<PageState>, p: nat, prev: Option<nat>, q: nat)
    requires p <= |pages| && q < |pages| && pages[q].FreePage? && Before(pages, p, prev) && prev != Some(q)
    ensures q < p ==> NextFree(pages, q + 1).Some? && NextFree(pages, q + 1).value < p
  {
  }

  /** Putting page into the list behind prev (in front when there is none). */
  lemma InsertList(info: seq<PageInfo>, after: seq<PageInfo>, pages: seq<PageState>, page: nat,
                   first: Option<nat>, first': Option<nat>, prev: Option<nat>)
    requires |info| == |pages| == |after| && page < |pages| && !pages[page].FreePage?
    requires ListOk(info, first, pages) && Before(pages, page, prev)
    requires forall q :: 0 <= q < |pages| && q != page && prev != Some(q) ==> after[q].next == info[q].next
    requires prev.Some? ==> after[prev.value].next == Some(page) && first' == first
    requires prev.None? ==> first' == Some(page)
    requires after[page].next == NextFree(pages, page + 1)
    ensures ListOk(after, first', pages[page := FreePage])
  {
    var pages' := pages[page := FreePage];
    InsertHead(pages, page, prev);
    hide Before, NextFree;
    forall q | 0 <= q < |pages| && pages'[q].FreePage?
      ensures NextOk(after, pages', q)
    {
      InsertOne(pages, page, prev, q);
      assert q != page ==> NextOk(info, pages, q);
    }
  }

  lemma InsertHead(pages: seq<PageState>, page: nat, prev: Option<nat>)
    requires page < |pages| && !pages[page].FreePage? && Before(pages, page, prev)
    ensures NextFree(pages[page := FreePage], 0) == if prev.None? then Some(page) else NextFree(pages, 0)
  {
    NextAfterInsert(pages, page, 0);
  }

  lemma InsertOne(pages: seq<PageState>, page: nat, prev: Option<nat>, q: nat)
    requires page < |pages| && !pages[page].FreePage? && q < |pages| && (pages[q].FreePage? || q == page)
    requires Before(pages, page, prev)
    ensures NextFree(pages[page := FreePage], q + 1)
      == if prev == Some(q) then Some(page) else NextFree(pages, q + 1)
  {
    NextAfterInsert(pages, page, q + 1);
    if q != page && prev != Some(q) {
      BeforeSkips(pages, page, prev, q);
    }
  }

  /** Taking the run of m pages at p, all free, out of the list; prev is the free page before it. */
  lemma RemoveRun(info: seq<PageInfo>, after: seq<PageInfo>, pages: seq<PageState>, p: nat, m: nat, size: nat,
                  first: Option<nat>, first': Option<nat>, prev: Option<nat>)
    requires |info| == |pages| == |after| && RunAt(pages, p, m) && m > 0
    requires ListOk(info, first, pages) && Before(pages, p, prev)
    requires forall q :: 0 <= q < |pages| && !(p <= q < p + m) && prev != Some(q) ==> after[q].next == info[q].next
    requires prev.Some? ==> after[prev.value].next == NextFree(pages, p + m) && first' == first
    requires prev.None? ==> first' == NextFree(pages, p + m)
    ensures ListOk(after, first', TakeRun(pages, p, m, size))
  {
    var pages' := TakeRun(pages, p, m, size);
    RemoveHead(pages, p, m, size, prev);
    hide Before, NextFree;
    forall q | 0 <= q < |pages| && pages'[q].FreePage?
      ensures NextOk(after, pages', q)
    {
      RemoveOne(pages, p, m, size, prev, q);
      assert NextOk(info, pages, q);
    }
  }

  lemma RemoveHead(pages: seq<PageState>, p: nat, m: nat, size: nat, prev: Option<nat>)
    requires RunAt(pages, p, m) && m > 0 && Before(pages, p, prev)
    ensures NextFree(TakeRun(pages, p, m, size), 0) == if prev.None? then NextFree(pages, p + m) else NextFree(pages, 0)
  {
    NextAfterRemove(pages, p, m, size, 0);
  }

  lemma RemoveOne(pages: seq<PageState>, p: nat, m: nat, size: nat, prev: Option<nat>, q: nat)
    requires RunAt(pages, p, m) && m > 0 && Before(pages, p, prev)
    requires q < |pages| && pages[q].FreePage? && !(p <= q < p + m)
    ensures NextFree(TakeRun(pages, p, m, size), q + 1)
      == if prev == Some(q) then NextFree(pages, p + m) else NextFree(pages, q + 1)
  {
    NextAfterRemove(pages, p, m, size, q + 1);
    if prev != Some(q) {
      BeforeSkips(pages, p, prev, q);
    }
  }

  /** Taking the first free page out of the list. */
  lemma RemoveFirst(info: seq<PageInfo>, pages: seq<PageState>, p: nat, st: PageState)
    requires |info| == |pages| && ListOk(info, Some(p), pages) && !st.FreePage?
    ensures p < |pages| && ListOk(info, info[p].next, pages[p := st])
  {
    var pages' := pages[p := st];
    assert NextOk(info, pages, p);
    NextFreeIs(pages', 0, info[p].next);
    forall q | 0 <= q < |pages| && pages'[q].FreePage?
      ensures NextOk(info, pages', q)
    {
      assert NextOk(info, pages, q);
      NextFreeIs(pages', q + 1, NextFree(pages, q + 1));
    }
  }

  // ----- the chain of a page that was just split

  /** Every block of the stretch points to the block step bytes on, the last one to first. */
  ghost predicate StrideLinked(link: map<nat, nat>, a: nat, end: nat, step: nat, first: nat)
    requires step > 0
  {
    forall x :: x in Stride(a, end, step) ==> x in link && link[x] == if x + step < end then x + step else first
  }

  lemma {:induction false} StrideChain(link: map<nat, nat>, a: nat, end: nat, step: nat, first: nat, list: seq<nat>)
    requires step > 0 && 0 < a < end && StrideLinked(link, a, end, step, first) && Chain(link, first, list)
    ensures Chain(link, a, Stride(a, end, step) + list)
    decreases end - a
  {
    var rest := Stride(a + step, end, step);
    assert a in Stride(a, end, step);
    assert (Stride(a, end, step) + list)[1..] == rest + list;
    assert Stride(a, end, step)[1..] == rest;
    if a + step < end {
      assert forall x :: x in rest ==> x in Stride(a, end, step);
      assert StrideLinked(link, a + step, end, step, first);
      hide StrideLinked;
      StrideChain(link, a + step, end, step, first, list);
    } else {
      assert rest + list == list;
    }
  }

  lemma PerPage(k: nat)
    requires k < BUCKETS
    ensures BlockSize(k) <= PAGE && PAGE / BlockSize(k) * BlockSize(k) == PAGE
  {
    BlockSizes();
  }

  /** get_bucket_index of a block size is its own bucket. */
  lemma BucketOfBlockSize(k: nat)
    requires k < BUCKETS
    ensures 2 <= BlockSize(k) <= MAX_BLOCK && BucketIndex(BlockSize(k)) == k
  {
    PerPage(k);
    BucketIndexIsTight(BlockSize(k));
    var r := BucketIndex(BlockSize(k));
    hide BucketIndex;
    if r < k { Pow2Monotone(r, k - 1); }
    if r > k { Pow2Monotone(k, r - 1); }
  }

  lemma FirstRunIs(pages: seq<PageState>, m: nat, p: nat)
    requires RunAt(pages, p, m) && forall q :: 0 <= q < p ==> !RunAt(pages, q, m)
    ensures FirstRun(pages, m, 0) == Some(p)
  {
  }

  lemma NoRunBetween(pages: seq<PageState>, m: nat, from: nat, to: nat)
    requires m > 0 && from <= to && to <= |pages| + 1
    requires forall q :: from <= q < to && q < |pages| ==> !pages[q].FreePage?
    ensures forall q :: from <= q < to ==> !RunAt(pages, q, m)
  {
    forall q | from <= q < to ensures !RunAt(pages, q, m) {
      assert q < |pages| ==> !pages[q].FreePage?;
    }
  }

  /** No address of a page that is not split lies on a bucket list. */
  ghost predicate OffLists(buckets: seq<seq<nat>>, from: nat, end: nat) {
    forall j, a :: 0 <= j < |buckets| && from <= a < end ==> a !in buckets[j]
  }

  lemma UnsplitOffLists(pool: Pool, p: nat)
    requires Inv(pool) && p < |pool.pages| && !pool.pages[p].Split?
    ensures OffLists(pool.buckets, PageAddr(pool.base, p), PageAddr(pool.base, p) + PAGE)
  {
    forall j, a | 0 <= j < BUCKETS && PageAddr(pool.base, p) <= a < PageAddr(pool.base, p) + PAGE
      ensures a !in pool.buckets[j]
    {
      assert BucketOk(pool, j);
      assert PageOf(pool, a) == Some(p);
    }
  }

  class McKusickAllocator {
    const base: nat
    const info: array<PageInfo>
    const freelist: array<nat>
    var freePage: Option<nat>
    /** The next pointers stored in free blocks, by block address; 0 is null. */
    var link: map<nat, nat>
    ghost var pool: Pool

    /** The page records and the sorted free list describe these pages. */
    ghost predicate Tables(pages: seq<PageState>)
      reads this, info
    {
      info.Length == |pages| && RecordsOk(info[..], base, pages) && ListOk(info[..], freePage, pages)
    }

    ghost predicate Lists(buckets: seq<seq<nat>>)
      reads this, freelist
    {
      && freelist.Length == |buckets| == BUCKETS
      && forall k :: 0 <= k < BUCKETS ==> Chain(link, freelist[k], buckets[k])
    }

    ghost predicate Valid()
      reads this, info, freelist
    {
      && pool.base == base && base % PAGE == 0 && Inv(pool)
      && Tables(pool.pages) && Lists(pool.buckets)
    }

    /** The constructor on memory_size bytes mapped at a page boundary: records first, then data pages.
        With less than two pages the source has no data page and underflows. */
    constructor (memorySize: nat, memory: nat)
      requires memory > 0 && memory % PAGE == 0 && memorySize > PAGE
      ensures Valid() && fresh(info) && fresh(freelist)
      ensures info.Length > 0 && pool == Fresh(base, info.Length).pool
      ensures memory + info.Length * RECORD <= base
      ensures memory + RequiredPages(memorySize) * RECORD <= base < memory + RequiredPages(memorySize) * RECORD + PAGE
      ensures PageAddr(base, info.Length) == memory + RequiredPages(memorySize) * PAGE
    {
      var totalPages := (memorySize + PAGE - 1) / PAGE;
      var totalMetaPages := totalPages * RECORD / PAGE;
      if totalMetaPages * PAGE < totalPages * RECORD {
        totalMetaPages := totalMetaPages + 1;
      }
      PageCounts(totalPages, totalMetaPages);
      var n := totalPages - totalMetaPages;
      base := memory + PAGE * totalMetaPages;
      info := new PageInfo[n];
      freelist := new nat[BUCKETS](_ => 0);
      freePage, link, pool := Some(0), map[], Fresh(memory + PAGE * totalMetaPages, n).pool;
      new;
      FillRecords(n);
      FreshList(info[..], n);
      forall k | 0 <= k < BUCKETS ensures Chain(link, freelist[k], pool.buckets[k]) {
      }
    }

    /** The two loops of the constructor over the records. */
    method FillRecords(n: nat)
      requires info.Length == n > 0
      modifies info
      ensures forall p :: 0 <= p < n ==>
        info[p] == PageInfo(PageAddr(base, p), 0, if p + 1 < n then Some(p + 1) else None, false)
    {
      for i := 0 to n
        invariant forall p :: 0 <= p < i ==>
          info[p].pageAddr == PageAddr(base, p) && info[p].size == 0 && !info[p].isStart
      {
        info[i] := info[i].(pageAddr := base + i * PAGE, size := 0, isStart := false);
      }
      for i := 0 to n - 1
        invariant forall p :: 0 <= p < n ==>
          info[p].pageAddr == PageAddr(base, p) && info[p].size == 0 && !info[p].isStart
        invariant forall p :: 0 <= p < i ==> info[p].next == Some(p + 1)
      {
        info[i] := info[i].(next := Some(i + 1));
      }
      info[n - 1] := info[n - 1].(next := None);
    }

    /** insert_sorted */
    method InsertSorted(page: nat, ghost pages: seq<PageState>)
      requires info.Length == |pages| && page < |pages| && !pages[page].FreePage?
      requires RecordsOk(info[..], base, pages[page := FreePage]) && ListOk(info[..], freePage, pages)
      modifies this`freePage, info
      ensures Tables(pages[page := FreePage])
    {
      ghost var before := info[..];
      ghost var first := freePage;
      if freePage.None? || info[page].pageAddr < info[freePage.value].pageAddr {
        info[page] := info[page].(next := freePage);
        freePage := Some(page);
        InsertList(before, info[..], pages, page, first, freePage, None);
        return;
      }
      var current := freePage.value;
      assert NextOk(before, pages, current);
      while info[current].next.Some? && info[info[current].next.value].pageAddr < info[page].pageAddr
        invariant current < page && pages[current].FreePage? && NextOk(before, pages, current)
        invariant info[..] == before && freePage == first
        decreases |pages| - current
      {
        current := info[current].next.value;
        assert NextOk(before, pages, current);
      }
      info[page] := info[page].(next := info[current].next);
      info[current] := info[current].(next := Some(page));
      InsertList(before, info[..], pages, page, first, freePage, Some(current));
    }

    /** The inner loop of find_consecutive_pages: how many of the next m pages from start on are free. */
    method ScanRun(start: nat, m: nat, ghost pages: seq<PageState>) returns (found: nat, walker: nat)
      requires Tables(pages) && start < |pages| && pages[start].FreePage? && m > 0
      ensures 1 <= found <= m && walker == start + found - 1 && RunAt(pages, start, found)
      ensures found < m ==> !RunAt(pages, start, m)
    {
      found, walker := 1, start;
      assert NextOk(info[..], pages, walker);
      while found < m && info[walker].next.Some?
        invariant 1 <= found <= m && walker == start + found - 1 && RunAt(pages, start, found)
        invariant NextOk(info[..], pages, walker)
      {
        var expected := info[start].pageAddr + found * PAGE;
        if info[info[walker].next.value].pageAddr != expected {
          break;
        }
        walker := info[walker].next.value;
        found := found + 1;
        assert NextOk(info[..], pages, walker);
      }
    }

    /** Links the m records from start on to each other and marks the first one. */
    method Relink(start: nat, m: nat)
      requires m > 0 && start + m <= info.Length
      modifies info
      ensures forall q :: 0 <= q < info.Length && !(start <= q < start + m) ==> info[q] == old(info[q])
      ensures forall q :: start <= q < start + m ==>
        info[q] == old(info[q]).(next := if q + 1 < start + m then Some(q + 1) else None,
                                 isStart := q == start && m > 1)
    {
      var walker := start;
      var i := 0;
      while i < m - 1
        invariant 0 <= i <= m - 1 && walker == start + i
        invariant forall q :: 0 <= q < info.Length && !(start <= q < walker) ==> info[q] == old(info[q])
        invariant forall q :: start <= q < walker ==>
          info[q] == old(info[q]).(next := Some(q + 1), isStart := q == start)
      {
        info[walker] := info[walker].(isStart := i == 0);
        info[walker] := info[walker].(next := Some(walker + 1));
        walker := info[walker].next.value;
        i := i + 1;
      }
      info[walker] := info[walker].(next := None);
      info[walker] := info[walker].(isStart := false);
    }

    /** find_consecutive_pages. The caller still has to write the size of the first record. */
    method FindConsecutive(m: nat, ghost size: nat, ghost pages: seq<PageState>) returns (start: Option<nat>)
      requires Tables(pages) && m > 0
      modifies this`freePage, info
      ensures start == FirstRun(pages, m, 0)
      ensures start.None? ==> info[..] == old(info[..]) && freePage == old(freePage)
      ensures start.Some? ==>
        var p := start.value;
        && ListOk(info[..], freePage, TakeRun(pages, p, m, size))
        && RecordsOk(info[..][p := info[p].(size := size, isStart := true)], base, TakeRun(pages, p, m, size))
    {
      var current := freePage;
      var prev: Option<nat> := None;
      ghost var from := 0;
      while current.Some?
        invariant Tables(pages) && info[..] == old(info[..]) && freePage == old(freePage)
        invariant from <= |pages| && current == NextFree(pages, from) && Before(pages, from, prev)
        invariant from == if prev.None? then 0 else prev.value + 1
        invariant forall q :: 0 <= q < from ==> !RunAt(pages, q, m)
        decreases |pages| - from
      {
        NoRunBetween(pages, m, from, current.value);
        var found, walker := ScanRun(current.value, m, pages);
        if found == m {
          Detach(current.value, m, walker, prev, size, pages);
          FirstRunIs(pages, m, current.value);
          return current;
        }
        assert NextOk(info[..], pages, current.value);
        prev, from := current, current.value + 1;
        current := info[current.value].next;
      }
      NoRunBetween(pages, m, from, |pages| + 1);
      return None;
    }

    /** Takes the run of m pages at p out of the list and links its records to each other. */
    method Detach(p: nat, m: nat, walker: nat, prev: Option<nat>, ghost size: nat, ghost pages: seq<PageState>)
      requires Tables(pages) && m > 0 && RunAt(pages, p, m) && walker == p + m - 1 && Before(pages, p, prev)
      modifies this`freePage, info
      ensures ListOk(info[..], freePage, TakeRun(pages, p, m, size))
      ensures RecordsOk(info[..][p := info[p].(size := size, isStart := true)], base, TakeRun(pages, p, m, size))
    {
      ghost var before, first := info[..], freePage;
      assert NextOk(before, pages, walker);
      var next := info[walker].next;
      if prev.Some? {
        info[prev.value] := info[prev.value].(next := next);
      } else {
        freePage := next;
      }
      Relink(p, m);
      RemoveRun(before, info[..], pages, p, m, size, first, freePage, prev);
    }

    /** find_page_info. An address below the data pages wraps to an index far beyond the table. */
    method FindPageInfo(ptr: nat) returns (r: Option<nat>)
      requires Valid()
      ensures r == PageOf(pool, ptr)
    {
      if ptr == 0 { return None; }
      var pageAddr := ptr / PAGE * PAGE;
      if pageAddr < base { return None; }
      var index := (pageAddr - base) / PAGE;
      PageIndex(base, ptr);
      if index >= info.Length { return None; }
      return Some(index);
    }

    /** split_page: links the blocks of the page and puts them in front of their bucket list. */
    method SplitPage(p: nat, k: nat, ghost buckets: seq<seq<nat>>)
      requires Lists(buckets) && k < BUCKETS && p < info.Length && info[p].pageAddr == PageAddr(base, p) > 0
      requires OffLists(buckets, PageAddr(base, p), PageAddr(base, p) + PAGE)
      modifies this`link, info, freelist
      ensures info[..] == old(info[..])[p := old(info[p]).(size := BlockSize(k), isStart := false)]
      ensures Lists(buckets[k := PageBlocks(base, p, k) + buckets[k]])
    {
      hide BlockSize, Stride, BucketIndex, Lists, OffLists, StrideTo;
      BucketOfBlockSize(k);
      var size := BlockSize(k);
      info[p] := info[p].(size := size, isStart := false);
      var bucket := BucketIndex(size);
      var last := LinkBlocks(info[p].pageAddr, size, k, buckets);
      LinkLast(info[p].pageAddr, last, size, bucket, buckets);
    }

    /** The loop of split_page: every block but the last points to the one after it. */
    method LinkBlocks(start: nat, size: nat, ghost k: nat, ghost buckets: seq<seq<nat>>) returns (last: nat)
      requires Lists(buckets) && k < BUCKETS && size == BlockSize(k)
      requires OffLists(buckets, start, start + PAGE)
      modifies this`link
      ensures Lists(buckets) && StrideTo(link, start, last, size) && last + size == start + PAGE
    {
      hide BlockSize, Stride, Lists, OffLists, StrideTo;
      PerPage(k);
      var blocks := PAGE / size;
      last := start;
      StrideStart(link, start, size);
      var i := 0;
      while i < blocks - 1
        invariant 0 <= i <= blocks - 1 && start <= last && last + (blocks - i) * size == start + PAGE
        invariant StrideTo(link, start, last, size) && Lists(buckets)
      {
        ghost var linkBefore := link;
        OneLess(blocks - i, size);
        WriteLink(last, last + size, start, start + PAGE, buckets);
        StrideStep(linkBefore, link, start, last, size);
        last := last + size;
        i := i + 1;
      }
    }

    /** The last block points to the old list, and the list now begins with the first block. */
    method LinkLast(start: nat, last: nat, size: nat, bucket: nat, ghost buckets: seq<seq<nat>>)
      requires Lists(buckets) && bucket < BUCKETS && size > 0 && start > 0
      requires StrideTo(link, start, last, size) && OffLists(buckets, start, last + size)
      modifies this`link, freelist
      ensures Lists(buckets[bucket := Stride(start, last + size, size) + buckets[bucket]])
    {
      assert freelist.Length == BUCKETS && start <= last;
      hide Stride, Lists, OffLists, StrideTo;
      ghost var linkBefore, first := link, freelist[bucket];
      WriteLink(last, freelist[bucket], start, last + size, buckets);
      StrideFinish(linkBefore, link, start, last, size, first);
      SetHead(bucket, start, Stride(start, last + size, size), buckets);
    }

    /** A bucket list now begins with the blocks from head on, which end where the list began. */
    method SetHead(bucket: nat, head: nat, ghost front: seq<nat>, ghost buckets: seq<seq<nat>>)
      requires Lists(buckets) && bucket < BUCKETS
      requires Chain(link, freelist[bucket], buckets[bucket]) ==> Chain(link, head, front + buckets[bucket])
      modifies freelist
      ensures Lists(buckets[bucket := front + buckets[bucket]])
    {
      freelist[bucket] := head;
    }

    /** Stores a link in a block that is on no list. */
    method WriteLink(a: nat, v: nat, ghost start: nat, ghost end: nat, ghost buckets: seq<seq<nat>>)
      requires Lists(buckets) && OffLists(buckets, start, end) && start <= a < end
      modifies this`link
      ensures link == old(link)[a := v] && Lists(buckets)
    {
      forall k | 0 <= k < BUCKETS ensures Chain(link[a := v], freelist[k], buckets[k]) {
        ChainFrame(link, freelist[k], buckets[k], a, v);
      }
      link := link[a := v];
    }

    /** alloc; 0 stands for null, and a request of one byte is undefined in the source. */
    method Alloc(size: nat) returns (ptr: nat)
      requires Valid() && size != 1
      modifies this, info, freelist
      ensures Valid() && (size == 0 ==> ptr == 0) && (ptr == 0 ==> pool == old(pool))
      ensures (pool, if ptr == 0 then None else Some(ptr)) == McKusickPool.Alloc(old(pool), size)
    {
      if size == 0 {
        return 0;
      }
      if size <= MAX_BLOCK {
        ptr := AllocSmall(size);
      } else {
        ptr := AllocLarge(size);
      }
    }

    method AllocSmall(size: nat) returns (ptr: nat)
      requires Valid() && 2 <= size <= MAX_BLOCK
      modifies this, info, freelist
      ensures Valid()
      ensures (pool, if ptr == 0 then None else Some(ptr)) == McKusickPool.Alloc(old(pool), size)
    {
      hide BucketIndex, Inv, RecordsOk, SplitFirst;
      BucketIndexIsTight(size);
      var bucket := BucketIndex(size);
      HeadIsNull(link, freelist[bucket], pool.buckets[bucket]);
      if freelist[bucket] == 0 {
        if freePage == None {
          NothingFree(pool, bucket);
          return 0;
        }
        SplitFree(bucket);
      }
      ptr := Take(bucket);
    }

    /** Takes the first free page off the list and splits it for an empty bucket. */
    method SplitFree(bucket: nat)
      requires Valid() && bucket < BUCKETS && pool.buckets[bucket] == [] && freePage.Some?
      modifies this, info, freelist
      ensures Valid() && pool == SplitFirst(old(pool), bucket) && pool.buckets[bucket] != []
    {
      ghost var was, before := pool, info[..];
      var page := freePage.value;
      SplitKeeps(was, bucket);
      UnsplitOffLists(was, page);
      RemoveFirst(before, was.pages, page, Split(bucket));
      freePage := info[page].next;
      pool := SplitFirst(was, bucket);
      hide Inv, Chain, OffLists, LargePagesOk, NextFree;
      SplitPage(page, bucket, was.buckets);
      SameNext(before, info[..], freePage, pool.pages);
    }

    /** Takes the first block off a bucket list. */
    method Take(bucket: nat) returns (ptr: nat)
      requires Valid() && bucket < BUCKETS && pool.buckets[bucket] != []
      modifies this`pool, freelist
      ensures Valid() && ptr != 0 && (pool, Some(ptr)) == Pop(old(pool), bucket)
    {
      PopKeeps(pool, bucket);
      hide Inv;
      ptr := freelist[bucket];
      freelist[bucket] := link[ptr];
      pool := Pop(pool, bucket).0;
    }

    method AllocLarge(size: nat) returns (ptr: nat)
      requires Valid() && size > MAX_BLOCK
      modifies this, info
      ensures Valid()
      ensures (pool, if ptr == 0 then None else Some(ptr)) == McKusickPool.Alloc(old(pool), size)
    {
      var m := RequiredPages(size);
      var start := FindConsecutive(m, size, pool.pages);
      if start == None {
        return 0;
      }
      var p := start.value;
      ghost var linked := info[..];
      info[p] := info[p].(size := size, isStart := true);
      assert info[..] == linked[p := linked[p].(size := size, isStart := true)];
      TakeRunKeeps(pool, p, size);
      pool := pool.(pages := TakeRun(pool.pages, p, m, size));
      SameNext(linked, info[..], freePage, pool.pages);
      return info[p].pageAddr;
    }

    /** free of null or of an address outside the data pages does nothing; any other pointer must be held. */
    method Free(ptr: nat)
      requires Valid() && (PageOf(pool, ptr).None? || Held(pool, ptr))
      modifies this, info, freelist
      ensures Valid() && pool == McKusickPool.Free(old(pool), ptr)
      ensures ptr < base || PageAddr(base, info.Length) <= ptr ==> pool == old(pool)
    {
      var page := FindPageInfo(ptr);
      if page == None {
        return;
      }
      assert Records(info[page.value], base, page.value, pool.pages[page.value]);
      SizeTells(pool, page.value);
      if info[page.value].size <= MAX_BLOCK {
        GiveBlock(ptr, page.value);
      } else if info[page.value].isStart {
        GivePages(ptr, page.value);
      }
    }

    /** Puts a block in front of its page's bucket list. */
    method GiveBlock(ptr: nat, page: nat)
      requires Valid() && Held(pool, ptr) && PageOf(pool, ptr) == Some(page) && pool.pages[page].Split?
      modifies this`link, this`pool, freelist
      ensures Valid() && pool == McKusickPool.Free(old(pool), ptr)
    {
      ghost var k := pool.pages[page].k;
      BucketOfBlockSize(k);
      assert Records(info[page], base, page, pool.pages[page]);
      var bucket := BucketIndex(info[page].size);
      PushKeeps(pool, ptr);
      HeldOffLists(pool, ptr);
      hide Inv, BucketIndex, BlockSize, Lists, Held;
      assert freelist.Length == BUCKETS;
      WriteLink(ptr, freelist[bucket], ptr, ptr + 1, pool.buckets);
      SetHead(bucket, ptr, [ptr], pool.buckets);
      pool := McKusickPool.Free(pool, ptr);
    }

    /** Gives the pages of a large allocation back one by one. */
    method GivePages(ptr: nat, page: nat)
      requires Valid() && Held(pool, ptr) && PageOf(pool, ptr) == Some(page) && pool.pages[page].LargeStart?
      modifies this`freePage, this`pool, info
      ensures Valid() && pool == McKusickPool.Free(old(pool), ptr)
    {
      ghost var was := pool;
      GiveBackKeeps(was, ptr);
      LargeInPool(was, page);
      assert Records(info[page], base, page, was.pages[page]);
      var count := RequiredPages(info[page].size);
      hide Inv, LargePagesOk, RequiredPages;
      GiveAll(page, count, was.pages);
      pool := McKusickPool.Free(was, ptr);
    }

    /** The loop of free over the pages of the allocation. */
    method GiveAll(page: nat, count: nat, ghost pages: seq<PageState>)
      requires Tables(pages) && page + count <= |pages|
      requires forall q :: page <= q < page + count ==> !pages[q].FreePage?
      modifies this`freePage, info
      ensures Tables(GiveBack(pages, page, count))
    {
      hide Tables;
      assert GiveBack(pages, page, 0) == pages;
      var i := 0;
      while i < count
        invariant 0 <= i <= count
        invariant Tables(GiveBack(pages, page, i))
      {
        GivePage(page + i, GiveBack(pages, page, i));
        assert GiveBack(pages, page, i)[page + i := FreePage] == GiveBack(pages, page, i + 1);
        i := i + 1;
      }
    }

    method GivePage(page: nat, ghost pages: seq<PageState>)
      requires Tables(pages) && page < |pages| && !pages[page].FreePage?
      modifies this`freePage, info
      ensures Tables(pages[page := FreePage])
    {
      ghost var before := info[..];
      assert Records(before[page], base, page, pages[page]);
      info[page] := info[page].(size := 0);
      info[page] := info[page].(isStart := false);
      SameNext(before, info[..], freePage, pages);
      InsertSorted(page, pages);
    }
  }

  /** The blocks from start up to p point each to the next one, the last one to p. */
  ghost predicate StrideTo(link: map<nat, nat>, start: nat, p: nat, step: nat)
    requires step > 0
  {
    && start <= p && Multiple(p - start, step)
    && forall x :: x in Stride(start, p, step) ==> x in link && link[x] == x + step
  }

  lemma HeadIsNull(link: map<nat, nat>, first: nat, list: seq<nat>)
    requires Chain(link, first, list)
    ensures first == 0 <==> list == []
  {
  }

  lemma NothingFree(pool: Pool, bucket: nat)
    requires bucket < |pool.buckets| && pool.buckets[bucket] == [] && NextFree(pool.pages, 0).None?
    ensures Pop(SplitFirst(pool, bucket), bucket) == (pool, None)
  {
  }

  lemma SameNext(info: seq<PageInfo>, after: seq<PageInfo>, first: Option<nat>, pages: seq<PageState>)
    requires |info| == |after| == |pages| && ListOk(info, first, pages)
    requires forall q :: 0 <= q < |pages| ==> after[q].next == info[q].next
    ensures ListOk(after, first, pages)
  {
    forall q | 0 <= q < |pages| && pages[q].FreePage? ensures NextOk(after, pages, q) {
      assert NextOk(info, pages, q);
    }
  }

  /** The size in a record tells split pages from large allocations. */
  lemma SizeTells(pool: Pool, p: nat)
    requires Inv(pool) && p < |pool.pages|
    ensures pool.pages[p].Split? ==> BlockSize(pool.pages[p].k) <= MAX_BLOCK
    ensures pool.pages[p].LargeStart? ==> pool.pages[p].size > MAX_BLOCK
  {
    if pool.pages[p].Split? {
      PerPage(pool.pages[p].k);
    }
  }

  lemma HeldOffLists(pool: Pool, a: nat)
    requires Inv(pool) && Held(pool, a)
    ensures OffLists(pool.buckets, a, a + 1) && a > 0
  {
    forall j | 0 <= j < BUCKETS ensures a !in pool.buckets[j] {
      assert BucketOk(pool, j);
    }
  }

  lemma LargeInPool(pool: Pool, p: nat)
    requires Inv(pool) && p < |pool.pages| && pool.pages[p].LargeStart?
    ensures var m := RequiredPages(pool.pages[p].size);
      p + m <= |pool.pages| && forall q :: p <= q < p + m ==> !pool.pages[q].FreePage?
  {
    forall q | p <= q < p + RequiredPages(pool.pages[p].size) ensures !pool.pages[q].FreePage? {
      assert q > p ==> pool.pages[q] == LargeRest(p);
    }
  }

  /** Rounding up, the records take at most half of the pages and always leave a data page. */
  lemma PageCounts(total: nat, meta: nat)
    requires total >= 2
    requires var m := total * RECORD / PAGE; meta == if m * PAGE < total * RECORD then m + 1 else m
    ensures meta < total && total * RECORD <= meta * PAGE < total * RECORD + PAGE
  {
  }

  lemma FreshList(info: seq<PageInfo>, n: nat)
    requires |info| == n > 0
    requires forall p :: 0 <= p < n ==> info[p].next == if p + 1 < n then Some(p + 1) else None
    ensures ListOk(info, Some(0), seq(n, _ => FreePage))
  {
    var pages := seq(n, _ => FreePage);
    forall p | 0 <= p < n ensures NextOk(info, pages, p) {
      NextFreeIs(pages, p + 1, info[p].next);
    }
  }

  lemma PageIndex(base: nat, ptr: nat)
    requires base % PAGE == 0
    ensures ptr / PAGE * PAGE < base <==> ptr < base
    ensures ptr >= base ==> (ptr / PAGE * PAGE - base) / PAGE == (ptr - base) / PAGE
  {
  }

  lemma StrideStart(link: map<nat, nat>, start: nat, step: nat)
    requires step > 0
    ensures StrideTo(link, start, start, step)
  {
  }

  lemma StrideFinish(link: map<nat, nat>, after: map<nat, nat>, start: nat, last: nat, step: nat, first: nat)
    requires step > 0 && start > 0 && StrideTo(link, start, last, step) && after == link[last := first]
    ensures forall list :: Chain(after, first, list) ==> Chain(after, start, Stride(start, last + step, step) + list)
  {
    forall x | x in Stride(start, last + step, step)
      ensures x in after && after[x] == if x + step < last + step then x + step else first
    {
      StrideMember(start, last + step, step, x);
      StrideMember(start, last, step, x);
      if x > last {
        MultiplesApart(last - start, x - start, step);
      }
    }
    forall list | Chain(after, first, list) ensures Chain(after, start, Stride(start, last + step, step) + list) {
      StrideChain(after, start, last + step, step, first, list);
    }
  }

  lemma OneLess(n: nat, size: nat)
    requires n > 0
    ensures (n - 1) * size == n * size - size && (n > 1 ==> n * size >= 2 * size)
  {
  }

  lemma StrideStep(link: map<nat, nat>, after: map<nat, nat>, start: nat, p: nat, step: nat)
    requires step > 0 && StrideTo(link, start, p, step) && after == link[p := p + step]
    ensures StrideTo(after, start, p + step, step)
  {
    forall x | x in Stride(start, p + step, step) ensures x in after && after[x] == x + step {
      StrideMember(start, p + step, step, x);
      StrideMember(start, p, step, x);
      if x > p {
        MultiplesApart(p - start, x - start, step);
      }
    }
  }
}
