/** The block list of BestFitAllocator as a value: what alloc and free do to it, and what they keep. */
module BestFitHeap {
  import opened Wrappers

  /** One block header: where it starts, its size with the header, and whether it is free. */
  datatype Block = Block(addr: nat, size: nat, free: bool)

  const HEADER: nat := 32
  const MINIMUM_BLOCK: nat := 40

  /** (size + sizeof(BlockHeader) + 7) & ~7: the request with its header, up to the next multiple of 8. */
  function AlignedSize(size: nat): (need: nat)
    ensures need % 8 == 0 && size + HEADER <= need < size + HEADER + 8
  {
    (size + HEADER + 7) / 8 * 8
  }

  // ----- searching

  predicate Fits(b: Block, need: nat) {
    b.free && b.size >= need
  }

  /** The leftmost among the smallest free blocks that hold need bytes. */
  ghost predicate IsBest(bs: seq<Block>, need: nat, i: nat) {
    && i < |bs| && Fits(bs[i], need)
    && forall j :: 0 <= j < |bs| && Fits(bs[j], need) ==>
         bs[i].size <= bs[j].size && (j < i ==> bs[i].size < bs[j].size)
  }

  /** The search of alloc from left to right. */
  function Best(bs: seq<Block>, need: nat): (r: Option<nat>)
    ensures r.None? <==> forall j :: 0 <= j < |bs| ==> !Fits(bs[j], need)
    ensures r.Some? ==> IsBest(bs, need, r.value)
    decreases |bs|
  {
    if bs == [] then None else
      var n := |bs| - 1;
      var found := Best(bs[..n], need);
      assert forall j :: 0 <= j < n ==> bs[..n][j] == bs[j];
      if Fits(bs[n], need) && (found.None? || bs[n].size < bs[found.value].size) then Some(n) else found
  }

  // ----- the effects of alloc and free on the list

  /** Hands out block i, after splitting off what is left if that makes a block of its own. */
  function Take(bs: seq<Block>, i: nat, need: nat): (r: seq<Block>)
    requires i < |bs|
  {
    var b := bs[i];
    if b.size >= need + MINIMUM_BLOCK
    then bs[..i] + [Block(b.addr, need, false), Block(b.addr + need, b.size - need, true)] + bs[i + 1..]
    else bs[i := b.(free := false)]
  }

  /** Block i swallows its right neighbour. */
  function Join(bs: seq<Block>, i: nat): (r: seq<Block>)
    requires i + 1 < |bs|
    ensures |r| == |bs| - 1
  {
    bs[..i] + [bs[i].(size := bs[i].size + bs[i + 1].size)] + bs[i + 2..]
  }

  lemma JoinAt(bs: seq<Block>, i: nat, j: nat)
    requires i + 1 < |bs| && j < |bs| - 1
    ensures Join(bs, i)[j] ==
      if j < i then bs[j] else if j == i then bs[i].(size := bs[i].size + bs[i + 1].size) else bs[j + 1]
  {
  }

  function JoinIfFree(bs: seq<Block>, i: nat): (r: seq<Block>)
    requires i < |bs|
  {
    if i + 1 < |bs| && bs[i + 1].free then Join(bs, i) else bs
  }

  /** Frees block i and merges it with a free right and then with a free left neighbour. */
  function Release(bs: seq<Block>, i: nat): (r: seq<Block>)
    requires i < |bs|
  {
    var marked := JoinIfFree(bs[i := bs[i].(free := true)], i);
    if i > 0 && marked[i - 1].free then Join(marked, i - 1) else marked
  }

  // ----- the invariant

  ghost predicate Chained(bs: seq<Block>) {
    forall i, j :: 0 <= i < j < |bs| && j == i + 1 ==> bs[j].addr == bs[i].addr + bs[i].size
  }

  ghost predicate NoFreeNeighbours(bs: seq<Block>) {
    forall i, j :: 0 <= i < j < |bs| && j == i + 1 ==> !(bs[i].free && bs[j].free)
  }

  /** Multiples of 8 and at least 40; only a whole pool of less than 40 bytes is smaller. */
  ghost predicate GoodSizes(bs: seq<Block>) {
    && (forall i :: 0 <= i < |bs| ==> bs[i].size % 8 == 0 && bs[i].size > 0)
    && ((|bs| == 1 && bs[0].free) || forall i :: 0 <= i < |bs| ==> bs[i].size >= MINIMUM_BLOCK)
  }

  function End(bs: seq<Block>): nat
    requires bs != []
  {
    bs[|bs| - 1].addr + bs[|bs| - 1].size
  }

  ghost predicate Inv(bs: seq<Block>, base: nat, total: nat) {
    && bs != [] && bs[0].addr == base && End(bs) == base + total
    && Chained(bs) && NoFreeNeighbours(bs) && GoodSizes(bs)
  }

  function SumSizes(bs: seq<Block>): nat {
    if bs == [] then 0 else bs[0].size + SumSizes(bs[1..])
  }

  lemma {:induction false} SizesAddUp(bs: seq<Block>)
    requires bs != [] && Chained(bs)
    ensures SumSizes(bs) == End(bs) - bs[0].addr
    decreases |bs|
  {
    if |bs| > 1 {
      SizesAddUp(bs[1..]);
    }
  }

  /** Blocks lie one after the other, so different blocks never overlap. */
  lemma {:induction false} BlocksOrdered(bs: seq<Block>, i: nat, j: nat)
    requires Chained(bs) && i < j < |bs|
    ensures bs[i].addr + bs[i].size <= bs[j].addr
    decreases j
  {
    if i + 1 < j {
      BlocksOrdered(bs, i, j - 1);
    }
  }

  lemma AddressDecides(bs: seq<Block>, i: nat, j: nat)
    requires Chained(bs) && GoodSizes(bs) && i < |bs| && j < |bs| && bs[i].addr == bs[j].addr
    ensures i == j
  {
    if i < j { BlocksOrdered(bs, i, j); }
    if j < i { BlocksOrdered(bs, j, i); }
  }

  /** The invariant survives handing out any fitting block. */
  lemma TakeKeepsInv(bs: seq<Block>, base: nat, total: nat, i: nat, need: nat)
    requires Inv(bs, base, total) && i < |bs| && Fits(bs[i], need) && need >= MINIMUM_BLOCK && need % 8 == 0
    ensures Inv(Take(bs, i, need), base, total)
  {
    hide Chained, NoFreeNeighbours, GoodSizes, Take;
    TakeEnds(bs, i, need);
    TakeChained(bs, i, need);
    TakeNeighbours(bs, i, need);
    TakeSizes(bs, i, need);
  }

  lemma TakeEnds(bs: seq<Block>, i: nat, need: nat)
    requires i < |bs| && Fits(bs[i], need)
    ensures var r := Take(bs, i, need); r != [] && r[0].addr == bs[0].addr && End(r) == End(bs)
  {
  }

  lemma TakeChained(bs: seq<Block>, i: nat, need: nat)
    requires Chained(bs) && i < |bs| && Fits(bs[i], need)
    ensures Chained(Take(bs, i, need))
  {
  }

  lemma TakeNeighbours(bs: seq<Block>, i: nat, need: nat)
    requires NoFreeNeighbours(bs) && i < |bs| && Fits(bs[i], need)
    ensures NoFreeNeighbours(Take(bs, i, need))
  {
  }

  lemma TakeSizes(bs: seq<Block>, i: nat, need: nat)
    requires GoodSizes(bs) && i < |bs| && Fits(bs[i], need) && need >= MINIMUM_BLOCK && need % 8 == 0
    ensures GoodSizes(Take(bs, i, need))
  {
    var b, r := bs[i], Take(bs, i, need);
    if b.size >= need + MINIMUM_BLOCK {
      RestIsMultiple(b.size, need);
      assert forall x :: 0 <= x < |r| && x != i && x != i + 1 ==> r[x] in bs;
    } else {
      assert forall x :: 0 <= x < |r| && x != i ==> r[x] in bs;
    }
  }

  lemma RestIsMultiple(size: nat, need: nat)
    requires size >= need && size % 8 == 0 && need % 8 == 0
    ensures (size - need) % 8 == 0
  {
  }

  // ----- free keeps the invariant

  /** The only free neighbours are pairs that contain block k. */
  ghost predicate FreePairsAt(bs: seq<Block>, k: int) {
    forall i, j :: 0 <= i < j < |bs| && j == i + 1 && bs[i].free && bs[j].free ==> i == k || j == k
  }

  /** The only free neighbours are block k - 1 and block k. */
  ghost predicate FreePairBefore(bs: seq<Block>, k: int) {
    forall i, j :: 0 <= i < j < |bs| && j == i + 1 && bs[i].free && bs[j].free ==> j == k
  }

  lemma JoinKeeps(bs: seq<Block>, i: nat)
    requires bs != [] && Chained(bs) && GoodSizes(bs) && i + 1 < |bs|
    ensures var r := Join(bs, i);
      r != [] && r[0].addr == bs[0].addr && End(r) == End(bs) && Chained(r) && GoodSizes(r)
  {
    hide GoodSizes;
    JoinSizes(bs, i);
  }

  lemma JoinSizes(bs: seq<Block>, i: nat)
    requires GoodSizes(bs) && i + 1 < |bs|
    ensures GoodSizes(Join(bs, i))
  {
  }

  lemma MarkKeeps(bs: seq<Block>, i: nat)
    requires bs != [] && Chained(bs) && GoodSizes(bs) && NoFreeNeighbours(bs) && i < |bs|
    ensures var r := bs[i := bs[i].(free := true)];
      r[0].addr == bs[0].addr && End(r) == End(bs) && Chained(r) && GoodSizes(r) && FreePairsAt(r, i)
  {
  }

  lemma JoinRight(bs: seq<Block>, i: nat)
    requires FreePairsAt(bs, i) && i < |bs| && bs[i].free
    ensures FreePairBefore(JoinIfFree(bs, i), i) && JoinIfFree(bs, i)[i].free
  {
  }

  lemma JoinLeft(bs: seq<Block>, i: nat)
    requires FreePairBefore(bs, i) && 0 < i < |bs| && bs[i].free
    ensures if bs[i - 1].free then NoFreeNeighbours(Join(bs, i - 1)) else NoFreeNeighbours(bs)
  {
  }

  /** The invariant survives freeing any block. */
  lemma ReleaseKeepsInv(bs: seq<Block>, base: nat, total: nat, i: nat)
    requires Inv(bs, base, total) && i < |bs|
    ensures Inv(Release(bs, i), base, total)
  {
    hide Chained, NoFreeNeighbours, GoodSizes, FreePairsAt, FreePairBefore, Join;
    MarkKeeps(bs, i);
    var marked := bs[i := bs[i].(free := true)];
    if i + 1 < |bs| { JoinKeeps(marked, i); }
    JoinRight(marked, i);
    var joined := JoinIfFree(marked, i);
    if i > 0 {
      JoinKeeps(joined, i - 1);
      JoinLeft(joined, i);
    } else {
      NoPairBeforeFirst(joined);
    }
  }

  lemma NoPairBeforeFirst(bs: seq<Block>)
    requires FreePairBefore(bs, 0)
    ensures NoFreeNeighbours(bs)
  {
  }

  // ----- the blocks in use

  function InUse(bs: seq<Block>): set<Block> {
    set b | b in bs && !b.free
  }

  /** The block that alloc hands out. */
  function Taken(bs: seq<Block>, i: nat, need: nat): Block
    requires i < |bs|
  {
    Take(bs, i, need)[i]
  }

  lemma TakeInUse(bs: seq<Block>, i: nat, need: nat)
    requires i < |bs| && Fits(bs[i], need)
    ensures InUse(Take(bs, i, need)) == InUse(bs) + {Taken(bs, i, need)}
    ensures var b := Taken(bs, i, need);
      !b.free && b.addr == bs[i].addr && need <= b.size < need + MINIMUM_BLOCK
  {
    var r := Take(bs, i, need);
    assert bs == bs[..i] + [bs[i]] + bs[i + 1..];
    if bs[i].size < need + MINIMUM_BLOCK {
      assert r == bs[..i] + [r[i]] + bs[i + 1..];
    }
  }

  lemma JoinInUse(bs: seq<Block>, i: nat)
    requires i + 1 < |bs| && bs[i].free && bs[i + 1].free
    ensures InUse(Join(bs, i)) == InUse(bs)
  {
    assert bs == bs[..i] + [bs[i], bs[i + 1]] + bs[i + 2..];
  }

  lemma MarkInUse(bs: seq<Block>, i: nat)
    requires Chained(bs) && GoodSizes(bs) && i < |bs|
    ensures InUse(bs[i := bs[i].(free := true)]) == InUse(bs) - {bs[i]}
  {
    var r := bs[i := bs[i].(free := true)];
    forall j | 0 <= j < |bs| && j != i ensures bs[j] != bs[i] {
      if bs[i].addr == bs[j].addr { AddressDecides(bs, i, j); }
    }
    assert r == bs[..i] + [r[i]] + bs[i + 1..];
    assert bs == bs[..i] + [bs[i]] + bs[i + 1..];
  }

  /** free removes exactly its block from those in use; every other one keeps address and size. */
  lemma ReleaseInUse(bs: seq<Block>, i: nat)
    requires bs != [] && Chained(bs) && GoodSizes(bs) && i < |bs|
    ensures InUse(Release(bs, i)) == InUse(bs) - {bs[i]}
  {
    hide Chained, GoodSizes, InUse;
    MarkInUse(bs, i);
    var marked := bs[i := bs[i].(free := true)];
    if i + 1 < |bs| && bs[i + 1].free { JoinInUse(marked, i); }
    var joined := JoinIfFree(marked, i);
    if i > 0 && joined[i - 1].free { JoinInUse(joined, i - 1); }
  }

  // ----- alloc and free

  function Alloc(bs: seq<Block>, size: nat): (seq<Block>, Option<nat>) {
    if size == 0 then (bs, None) else
      var need := AlignedSize(size);
      match Best(bs, need)
      case None => (bs, None)
      case Some(i) => (Take(bs, i, need), Some(bs[i].addr + HEADER))
  }

  /** The index of the block at an address. */
  function Find(bs: seq<Block>, addr: int): (r: Option<nat>)
    ensures r.Some? ==> r.value < |bs| && bs[r.value].addr == addr
    ensures r.None? ==> forall i :: 0 <= i < |bs| ==> bs[i].addr != addr
    decreases |bs|
  {
    if bs == [] then None
    else if bs[|bs| - 1].addr == addr then Some(|bs| - 1)
    else
      assert forall i :: 0 <= i < |bs| - 1 ==> bs[..|bs| - 1][i] == bs[i];
      Find(bs[..|bs| - 1], addr)
  }

  /** Whether ptr may be passed to free: null, or the payload of a block in use. */
  predicate Freeable(bs: seq<Block>, ptr: nat) {
    ptr == 0 || (Find(bs, ptr - HEADER).Some? && !bs[Find(bs, ptr - HEADER).value].free)
  }

  function Free(bs: seq<Block>, ptr: nat): seq<Block>
    requires Freeable(bs, ptr)
  {
    if ptr == 0 then bs else Release(bs, Find(bs, ptr - HEADER).value)
  }

  /** A free block with room for size bytes behind its header. */
  predicate HasRoom(b: Block, size: nat) {
    b.free && size + HEADER <= b.size
  }

  /** Block sizes are multiples of 8, so rounding the request up costs no fitting block. */
  lemma RoomIsFit(b: Block, size: nat)
    requires b.size % 8 == 0
    ensures HasRoom(b, size) <==> Fits(b, AlignedSize(size))
  {
  }

  /** Best fit: null exactly for size 0 or when no free block has room; otherwise the leftmost of the
      smallest free blocks with room, and what is handed out exceeds the request and its header by less
      than 48 bytes. Exactly this block joins those in use. */
  lemma AllocIsBestFit(bs: seq<Block>, base: nat, total: nat, size: nat)
    requires Inv(bs, base, total)
    ensures match Alloc(bs, size)
      case (r, None) => r == bs && (size == 0 || forall j :: 0 <= j < |bs| ==> !HasRoom(bs[j], size))
      case (r, Some(ptr)) => size > 0 && exists i: nat ::
        && i < |bs| && HasRoom(bs[i], size)
        && (forall j :: 0 <= j < |bs| && HasRoom(bs[j], size) ==>
              bs[i].size <= bs[j].size && (j < i ==> bs[i].size < bs[j].size))
        && ptr == bs[i].addr + HEADER
        && i < |r| && !r[i].free && r[i].addr == bs[i].addr
        && size + HEADER <= r[i].size < size + HEADER + 8 + MINIMUM_BLOCK
        && InUse(r) == InUse(bs) + {r[i]}
  {
    var need := AlignedSize(size);
    forall j | 0 <= j < |bs| ensures HasRoom(bs[j], size) <==> Fits(bs[j], need) {
      RoomIsFit(bs[j], size);
    }
    if size > 0 && Best(bs, need).Some? {
      var i := Best(bs, need).value;
      TakeInUse(bs, i, need);
      hide HasRoom, Fits, Inv, InUse, AlignedSize;
      assert IsBest(bs, need, i);
    }
  }

  /** alloc and then free of the result give back the same list, split or not. */
  lemma AllocFree(bs: seq<Block>, base: nat, total: nat, size: nat)
    requires Inv(bs, base, total) && Alloc(bs, size).1.Some?
    ensures var (r, ptr) := Alloc(bs, size);
      ptr.value != 0 && Freeable(r, ptr.value) && Free(r, ptr.value) == bs
  {
    var need := AlignedSize(size);
    var i := Best(bs, need).value;
    var r := Take(bs, i, need);
    TakeKeepsInv(bs, base, total, i, need);
    TakeInUse(bs, i, need);
    var j := Find(r, bs[i].addr).value;
    AddressDecides(r, i, j);
    TakeRelease(bs, i, need);
    hide Inv, Chained, GoodSizes, NoFreeNeighbours, Take, Release, Fits, InUse, AlignedSize;
  }

  lemma TakeRelease(bs: seq<Block>, i: nat, need: nat)
    requires i < |bs| && Fits(bs[i], need) && NoFreeNeighbours(bs)
    ensures Release(Take(bs, i, need), i) == bs
  {
    var r := Take(bs, i, need);
    var marked := r[i := r[i].(free := true)];
    if bs[i].size >= need + MINIMUM_BLOCK {
      assert Join(marked, i) == bs;
    } else {
      assert marked == bs;
    }
  }

  // ----- whole runs

  /** The list together with the pointers handed out and not yet freed, and the sizes asked for. */
  datatype Heap = Heap(blocks: seq<Block>, live: map<nat, nat>)

  datatype Op = AllocOp(size: nat) | FreeOp(ptr: nat)

  /** free may only be given null or a live pointer. */
  predicate Legal(h: Heap, op: Op) {
    op.FreeOp? ==> op.ptr == 0 || op.ptr in h.live
  }

  /** The block of a live pointer: big enough, and by less than 40 bytes bigger than needed. */
  predicate Serves(b: Block, size: nat) {
    AlignedSize(size) <= b.size < AlignedSize(size) + MINIMUM_BLOCK
  }

  function Payload(b: Block): nat {
    b.addr + HEADER
  }

  /** Live pointers and blocks in use correspond one to one. */
  ghost predicate LiveMatches(h: Heap) {
    && (forall b :: b in InUse(h.blocks) ==> Payload(b) in h.live && Serves(b, h.live[Payload(b)]))
    && (forall p :: p in h.live ==> exists b :: b in InUse(h.blocks) && Payload(b) == p)
  }

  ghost predicate Good(h: Heap, base: nat, total: nat) {
    Inv(h.blocks, base, total) && LiveMatches(h)
  }

  lemma UsedIndex(bs: seq<Block>, b: Block) returns (i: nat)
    requires b in InUse(bs)
    ensures i < |bs| && bs[i] == b
  {
    i :| i < |bs| && bs[i] == b;
  }

  lemma SameAddress(bs: seq<Block>, b: Block, c: Block)
    requires Chained(bs) && GoodSizes(bs) && b in bs && c in bs && b.addr == c.addr
    ensures b == c
  {
    var i :| 0 <= i < |bs| && bs[i] == b;
    var j :| 0 <= j < |bs| && bs[j] == c;
    AddressDecides(bs, i, j);
  }

  lemma LiveIsFreeable(h: Heap, base: nat, total: nat, ptr: nat) returns (i: nat)
    requires Good(h, base, total) && ptr in h.live
    ensures ptr != 0 && i < |h.blocks| && !h.blocks[i].free && Payload(h.blocks[i]) == ptr
    ensures Find(h.blocks, ptr - HEADER) == Some(i)
    ensures Serves(h.blocks[i], h.live[ptr])
  {
    var b :| b in InUse(h.blocks) && Payload(b) == ptr;
    i := UsedIndex(h.blocks, b);
    AddressDecides(h.blocks, i, Find(h.blocks, ptr - HEADER).value);
  }

  /** A pointer that is not freeable never occurs on a legal run (FreeStep). */
  function Step(h: Heap, op: Op): Heap {
    match op
    case AllocOp(size) =>
      var (bs, r) := Alloc(h.blocks, size);
      Heap(bs, if r.Some? then h.live[r.value := size] else h.live)
    case FreeOp(ptr) => if Freeable(h.blocks, ptr) then Heap(Free(h.blocks, ptr), h.live - {ptr}) else h
  }

  lemma AllocStep(h: Heap, base: nat, total: nat, size: nat)
    requires Good(h, base, total)
    ensures Good(Step(h, AllocOp(size)), base, total)
    ensures Alloc(h.blocks, size).1.Some? ==> Alloc(h.blocks, size).1.value !in h.live
  {
    hide LiveMatches, Inv, Take, Best;
    if size > 0 && Best(h.blocks, AlignedSize(size)).Some? {
      TakeStep(h, base, total, size, Best(h.blocks, AlignedSize(size)).value);
    }
  }

  lemma TakeStep(h: Heap, base: nat, total: nat, size: nat, i: nat)
    requires Good(h, base, total) && i < |h.blocks| && Fits(h.blocks[i], AlignedSize(size)) && size > 0
    ensures Payload(h.blocks[i]) !in h.live
    ensures Good(Heap(Take(h.blocks, i, AlignedSize(size)), h.live[Payload(h.blocks[i]) := size]), base, total)
  {
    hide LiveMatches, Take;
    var need, ptr := AlignedSize(size), Payload(h.blocks[i]);
    if ptr in h.live {
      var j := LiveIsFreeable(h, base, total, ptr);
      AddressDecides(h.blocks, i, j);
    }
    hide Inv;
    var r := Heap(Take(h.blocks, i, need), h.live[ptr := size]);
    TakeKeepsInv(h.blocks, base, total, i, need);
    TakeInUse(h.blocks, i, need);
    LiveAfterAlloc(h, r, Taken(h.blocks, i, need), size);
  }

  lemma LiveAfterAlloc(h: Heap, r: Heap, b: Block, size: nat)
    requires LiveMatches(h) && Payload(b) !in h.live && Serves(b, size)
    requires InUse(r.blocks) == InUse(h.blocks) + {b} && r.live == h.live[Payload(b) := size]
    ensures LiveMatches(r)
  {
    forall p | p in r.live ensures exists c :: c in InUse(r.blocks) && Payload(c) == p {
      if p == Payload(b) {
        assert b in InUse(r.blocks);
      } else {
        var c :| c in InUse(h.blocks) && Payload(c) == p;
        assert c in InUse(r.blocks);
      }
    }
  }

  lemma FreeStep(h: Heap, base: nat, total: nat, ptr: nat)
    requires Good(h, base, total) && Legal(h, FreeOp(ptr))
    ensures Freeable(h.blocks, ptr) && Good(Step(h, FreeOp(ptr)), base, total)
  {
    if ptr in h.live {
      var i := LiveIsFreeable(h, base, total, ptr);
      ReleaseKeepsInv(h.blocks, base, total, i);
      ReleaseInUse(h.blocks, i);
      LiveAfterFree(h, Step(h, FreeOp(ptr)), h.blocks[i]);
    } else {
      assert h.live - {ptr} == h.live;
    }
  }

  lemma LiveAfterFree(h: Heap, r: Heap, b: Block)
    requires LiveMatches(h) && Chained(h.blocks) && GoodSizes(h.blocks) && b in InUse(h.blocks)
    requires InUse(r.blocks) == InUse(h.blocks) - {b} && r.live == h.live - {Payload(b)}
    ensures LiveMatches(r)
  {
    hide Chained, GoodSizes;
    forall c | c in InUse(r.blocks) ensures Payload(c) in r.live {
      if c.addr == b.addr { SameAddress(h.blocks, b, c); }
    }
    forall p | p in r.live ensures exists c :: c in InUse(r.blocks) && Payload(c) == p {
      var c :| c in InUse(h.blocks) && Payload(c) == p;
      assert c in InUse(r.blocks);
    }
  }

  /** Every operation of the sequence is legal when it is reached. */
  predicate LegalRun(h: Heap, ops: seq<Op>)
    decreases |ops|
  {
    ops != [] ==> Legal(h, ops[0]) && LegalRun(Step(h, ops[0]), ops[1..])
  }

  function Exec(h: Heap, ops: seq<Op>): Heap
    decreases |ops|
  {
    if ops == [] then h else Exec(Step(h, ops[0]), ops[1..])
  }

  /** What the constructor leaves behind. */
  function Fresh(base: nat, total: nat): Heap {
    Heap([Block(base, total, true)], map[])
  }

  lemma {:induction false} RunFrom(h: Heap, base: nat, total: nat, ops: seq<Op>)
    requires Good(h, base, total) && LegalRun(h, ops)
    ensures Good(Exec(h, ops), base, total)
    decreases |ops|
  {
    if ops != [] {
      if ops[0].AllocOp? {
        AllocStep(h, base, total, ops[0].size);
      } else {
        FreeStep(h, base, total, ops[0].ptr);
      }
      hide Good, Step, Freeable;
      RunFrom(Step(h, ops[0]), base, total, ops[1..]);
    }
  }

  /** The heap after any legal sequence of alloc and free on a fresh pool. */
  lemma EveryRun(base: nat, total: nat, ops: seq<Op>)
    requires total > 0 && total % 8 == 0 && LegalRun(Fresh(base, total), ops)
    ensures var h := Exec(Fresh(base, total), ops);
      && Good(h, base, total)
      && SumSizes(h.blocks) == total
      && forall p, q :: p in h.live && q in h.live ==> LiveApart(h, base, total, p, q)
  {
    RunFrom(Fresh(base, total), base, total, ops);
    var h := Exec(Fresh(base, total), ops);
    SizesAddUp(h.blocks);
    forall p, q | p in h.live && q in h.live ensures LiveApart(h, base, total, p, q) {
      LiveRanges(h, base, total, p, q);
    }
  }

  /** A live range lies in the pool, has the bytes asked for, and ends before the header of any other. */
  ghost predicate LiveApart(h: Heap, base: nat, total: nat, p: nat, q: nat)
    requires p in h.live && q in h.live
  {
    && base + HEADER <= p && p + h.live[p] <= base + total
    && (p < q ==> p + h.live[p] + HEADER <= q)
  }

  lemma LiveRanges(h: Heap, base: nat, total: nat, p: nat, q: nat)
    requires Good(h, base, total) && p in h.live && q in h.live
    ensures LiveApart(h, base, total, p, q)
  {
    var i := LiveIsFreeable(h, base, total, p);
    var j := LiveIsFreeable(h, base, total, q);
    if i > 0 { BlocksOrdered(h.blocks, 0, i); }
    if i < |h.blocks| - 1 { BlocksOrdered(h.blocks, i, |h.blocks| - 1); }
    if i < j { BlocksOrdered(h.blocks, i, j); }
    if j < i { BlocksOrdered(h.blocks, j, i); }
  }

  lemma SomeUsed(bs: seq<Block>)
    requires NoFreeNeighbours(bs) && |bs| > 1
    ensures exists i :: 0 <= i < |bs| && !bs[i].free
  {
    if bs[0].free {
      assert !bs[1].free;
    }
  }

  /** With nothing in use the pool is one free block again. */
  lemma NothingLive(h: Heap, base: nat, total: nat)
    requires Good(h, base, total) && h.live == map[]
    ensures h.blocks == [Block(base, total, true)]
  {
    forall i | 0 <= i < |h.blocks| ensures h.blocks[i].free {
      assert h.blocks[i].free || h.blocks[i] in InUse(h.blocks);
    }
    if |h.blocks| > 1 {
      SomeUsed(h.blocks);
    }
  }

  function FreeAll(order: seq<nat>): seq<Op> {
    seq(|order|, i requires 0 <= i < |order| => FreeOp(order[i]))
  }

  /** Freeing all live pointers, in any order, ends with one free block that spans the pool. */
  lemma {:induction false} FreeAllCoalesces(h: Heap, base: nat, total: nat, order: seq<nat>)
    requires Good(h, base, total)
    requires forall p :: p in order <==> p in h.live
    requires forall i, j :: 0 <= i < j < |order| ==> order[i] != order[j]
    ensures LegalRun(h, FreeAll(order)) && Exec(h, FreeAll(order)) == Fresh(base, total)
    decreases |order|, 1
  {
    if order == [] {
      assert h.live == map[];
      NothingLive(h, base, total);
    } else {
      FreeFirst(h, base, total, order);
    }
  }

  lemma {:induction false} FreeFirst(h: Heap, base: nat, total: nat, order: seq<nat>)
    requires Good(h, base, total) && order != []
    requires forall p :: p in order <==> p in h.live
    requires forall i, j :: 0 <= i < j < |order| ==> order[i] != order[j]
    ensures LegalRun(h, FreeAll(order)) && Exec(h, FreeAll(order)) == Fresh(base, total)
    decreases |order|, 0
  {
    hide Good, Freeable, Free;
    var p, rest := order[0], order[1..];
    FreeStep(h, base, total, p);
    var ops := FreeAll(order);
    assert ops[0] == FreeOp(p) && ops[1..] == FreeAll(rest);
    var g := Step(h, FreeOp(p));
    OtherPointers(h, g, order);
    FreeAllCoalesces(g, base, total, rest);
  }

  lemma OtherPointers(h: Heap, g: Heap, order: seq<nat>)
    requires order != [] && g.live == h.live - {order[0]}
    requires forall p :: p in order <==> p in h.live
    requires forall i, j :: 0 <= i < j < |order| ==> order[i] != order[j]
    ensures forall p :: p in order[1..] <==> p in g.live
  {
    assert order == [order[0]] + order[1..];
  }
}
