/** BestFitAllocator in its own form: headers linked in both directions and updated in place. */
module BestFit {
  import opened BestFitHeap
  import opened Wrappers

  /** A header lies at a fixed address; its other fields change. */
  class BlockHeader {
    const addr: nat
    var size: nat
    var isFree: bool
    var next: BlockHeader?
    var prev: BlockHeader?

    constructor (addr: nat, size: nat, next: BlockHeader?, prev: BlockHeader?)
      ensures this.addr == addr && this.size == size && isFree && this.next == next && this.prev == prev
    {
      this.addr, this.size, isFree, this.next, this.prev := addr, size, true, next, prev;
    }

    function AsBlock(): Block
      reads this
    {
      Block(addr, size, isFree)
    }
  }

  ghost function Blocks(ns: seq<BlockHeader>): (bs: seq<Block>)
    reads ns
    ensures |bs| == |ns|
    ensures forall i :: 0 <= i < |ns| ==> bs[i] == ns[i].AsBlock()
  {
    seq(|ns|, i requires 0 <= i < |ns| reads ns => ns[i].AsBlock())
  }

  ghost predicate Distinct(ns: seq<BlockHeader>) {
    forall i, j :: 0 <= i < j < |ns| ==> ns[i] != ns[j]
  }

  /** next and prev of the i-th header point to its neighbours. */
  ghost predicate LinkedAt(ns: seq<BlockHeader>, i: nat)
    requires i < |ns|
    reads ns
  {
    && ns[i].next == (if i + 1 < |ns| then ns[i + 1] else null)
    && ns[i].prev == (if i > 0 then ns[i - 1] else null)
  }

  ghost predicate Linked(ns: seq<BlockHeader>)
    reads ns
  {
    Distinct(ns) && forall i :: 0 <= i < |ns| ==> LinkedAt(ns, i)
  }

  /** A cast of a header's address yields that header. */
  ghost predicate Known(ns: seq<BlockHeader>, headerAt: map<nat, BlockHeader>, repr: set<BlockHeader>) {
    forall n :: n in ns ==> n in repr && n.addr in headerAt && headerAt[n.addr] == n
  }

  // ----- what one splice of the list writes

  /** Block i is cut after need bytes. */
  function SplitAt(bs: seq<Block>, i: nat, need: nat): seq<Block>
    requires i < |bs| && bs[i].size >= need
  {
    bs[..i] + [bs[i].(size := need), Block(bs[i].addr + need, bs[i].size - need, true)] + bs[i + 1..]
  }

  lemma SplitAtIndex(bs: seq<Block>, i: nat, need: nat, j: nat)
    requires i < |bs| && bs[i].size >= need && j <= |bs|
    ensures |SplitAt(bs, i, need)| == |bs| + 1
    ensures SplitAt(bs, i, need)[j] ==
      if j < i then bs[j] else if j == i then bs[i].(size := need)
      else if j == i + 1 then Block(bs[i].addr + need, bs[i].size - need, true) else bs[j - 1]
  {
  }

  /** A list of headers and the index of the one behind which a header comes or goes. */
  datatype Splice = Splice(list: seq<BlockHeader>, at: nat) {
    ghost predicate InList() {
      at + 1 < |list|
    }

    /** The list without the header behind the one at the index. */
    ghost function Dropped(): seq<BlockHeader>
      requires InList()
    {
      list[..at + 1] + list[at + 2..]
    }

    ghost function Block(): BlockHeader
      requires InList()
    {
      list[at]
    }

    ghost function Behind(): BlockHeader
      requires InList()
    {
      list[at + 1]
    }
  }

  /** The header came into the list, and the block before it now ends where it starts. */
  twostate predicate SplitWrites(p: Splice)
    requires p.InList()
    reads p.list
  {
    var block, rest := p.Block(), p.Behind();
    var need := rest.addr - block.addr;
    && rest !in p.Dropped() && 0 <= need <= old(block.size)
    && rest.next == old(block.next) && rest.prev == block
    && rest.AsBlock() == BestFitHeap.Block(rest.addr, old(block.size) - need, true)
    && forall o :: o in p.Dropped() ==>
         && o.next == (if o == block then rest else old(o.next))
         && o.prev == (if p.at + 2 < |p.list| && o == p.list[p.at + 2] then rest else old(o.prev))
         && o.size == (if o == block then need else old(o.size)) && o.isFree == old(o.isFree)
  }

  twostate lemma SplitLinks(p: Splice)
    requires p.InList() && old(Linked(p.Dropped())) && SplitWrites(p)
    ensures Linked(p.list)
  {
    hide Blocks;
    var ns, i := p.Dropped(), p.at;
    DistinctSplice(p);
    assert old(LinkedAt(ns, i)) && ns[i] == p.list[i];
    forall j: nat | j < |p.list| ensures LinkedAt(p.list, j) {
      if j != i + 1 {
        var o := if j <= i then j else j - 1;
        assert p.list[j] == ns[o] && ns[o] in ns && old(LinkedAt(ns, o));
        assert j > 0 && j != i + 2 ==> p.list[j - 1] == ns[o - 1];
        assert j != i && j + 1 < |p.list| ==> p.list[j + 1] == ns[o + 1];
      }
    }
  }

  lemma AroundSplice(p: Splice)
    requires p.InList()
    ensures var ns, i := p.Dropped(), p.at;
      && |ns| == |p.list| - 1 && i < |ns| && ns[i] == p.list[i] && ns[i] in ns
      && (i + 1 < |ns| ==> ns[i + 1] == p.list[i + 2])
  {
  }

  /** A list with one more header than a list without repetitions has none either. */
  lemma DistinctSplice(p: Splice)
    requires p.InList() && Distinct(p.Dropped()) && p.Behind() !in p.Dropped()
    ensures Distinct(p.list)
  {
    var ns, i := p.Dropped(), p.at;
    forall x, y | 0 <= x < y < |p.list| ensures p.list[x] != p.list[y] {
      assert x != i + 1 ==> p.list[x] == ns[if x <= i then x else x - 1];
      assert y != i + 1 ==> p.list[y] == ns[if y <= i then y else y - 1];
    }
  }

  twostate lemma SplitBlocks(p: Splice)
    requires p.InList() && old(Linked(p.Dropped())) && SplitWrites(p)
    ensures var was, need := old(Blocks(p.Dropped())), p.Behind().addr - p.Block().addr;
      0 <= need <= was[p.at].size && Blocks(p.list) == SplitAt(was, p.at, need)
  {
    hide LinkedAt;
    var ns, i := p.Dropped(), p.at;
    var was := old(Blocks(ns));
    AroundSplice(p);
    var need := p.Behind().addr - p.Block().addr;
    assert Distinct(ns);
    hide Linked, Blocks, SplitAt, Splice.Dropped;
    forall j | 0 <= j < |ns| ensures ns[j].AsBlock() == if j == i then was[j].(size := need) else was[j] {
      assert ns[j] in ns && (j != i ==> ns[j] != ns[i]);
    }
    SplitShape(p, was, need);
  }

  /** The blocks of a list into which a header came. */
  lemma SplitShape(p: Splice, was: seq<Block>, need: nat)
    requires p.InList() && |was| == |p.Dropped()| && was[p.at].size >= need
    requires forall j :: 0 <= j < |was| ==>
      p.Dropped()[j].AsBlock() == if j == p.at then was[j].(size := need) else was[j]
    requires p.Behind().AsBlock() == BestFitHeap.Block(was[p.at].addr + need, was[p.at].size - need, true)
    ensures Blocks(p.list) == SplitAt(was, p.at, need)
  {
    hide BlockHeader.AsBlock;
    forall j: nat | j < |p.list| ensures p.list[j].AsBlock() == SplitAt(was, p.at, need)[j] {
      SplitAtIndex(was, p.at, need, j);
      DroppedAt(p, if j <= p.at then j else j - 1);
      hide SplitAt, Splice.Dropped;
    }
  }

  /** The header behind the block was unlinked and its size added to the block. */
  twostate predicate JoinWrites(p: Splice)
    requires p.InList()
    reads p.list
  {
    var block := p.Block();
    forall o :: o in p.list ==>
      && o.next == (if o == block then old(p.Behind().next) else old(o.next))
      && o.prev == (if p.at + 2 < |p.list| && o == p.list[p.at + 2] then block else old(o.prev))
      && o.size == (if o == block then old(o.size) + old(p.Behind().size) else old(o.size))
      && o.isFree == old(o.isFree)
  }

  twostate lemma JoinLinks(p: Splice)
    requires p.InList() && old(Linked(p.list)) && JoinWrites(p)
    ensures Linked(p.Dropped())
  {
    var ns, i := p.list, p.at;
    var ms := p.Dropped();
    assert old(LinkedAt(ns, i + 1));
    forall j: nat | j < |ms| ensures LinkedAt(ms, j) {
      var o := if j <= i then j else j + 1;
      assert ms[j] == ns[o] && old(LinkedAt(ns, o));
    }
  }

  twostate lemma JoinBlocks(p: Splice)
    requires p.InList() && old(Linked(p.list)) && JoinWrites(p)
    ensures Blocks(p.Dropped()) == Join(old(Blocks(p.list)), p.at)
  {
    hide LinkedAt;
    var ns, ms, i := p.list, p.Dropped(), p.at;
    var was := old(Blocks(ns));
    assert ns[i] in ns && ns[i + 1] in ns && ns[i] != ns[i + 1];
    forall j: nat | j < |ms| ensures ms[j].AsBlock() == Join(was, i)[j] {
      DroppedAt(p, j);
      JoinAt(was, i, j);
      hide Splice.Dropped, Join, Blocks;
      assert j != i ==> ms[j] != ns[i];
    }
  }

  lemma DroppedAt(p: Splice, j: int)
    requires p.InList() && 0 <= j < |p.list| - 1
    ensures |p.Dropped()| == |p.list| - 1
    ensures var o := if j <= p.at then j else j + 1; p.Dropped()[j] == p.list[o] && p.list[o] in p.list
  {
  }

  class BestFitAllocator {
    const head: BlockHeader
    const totalSize: nat
    /** Which header a cast of an address yields. */
    var headerAt: map<nat, BlockHeader>
    /** The linked list from head on. */
    ghost var nodes: seq<BlockHeader>
    /** Every header made so far; those that were merged away are no longer in the list. */
    ghost var Repr: set<BlockHeader>

    ghost function Contents(): seq<Block>
      reads this, nodes
    {
      Blocks(nodes)
    }

    /** The list starts at head, next and prev are inverse along it, it has no cycle, and a cast of a
        block's address yields its header. */
    ghost predicate Sound()
      reads this, nodes
    {
      && nodes != [] && nodes[0] == head && Linked(nodes)
      && Known(nodes, headerAt, Repr)
    }

    ghost predicate Valid()
      reads this, nodes
    {
      head.addr > 0 && Sound() && Inv(Contents(), head.addr, totalSize)
    }

    /** memory_size bytes at base; mmap refuses an empty region. */
    constructor (memorySize: nat, base: nat)
      requires memorySize > 0 && base > 0
      ensures Valid() && fresh(Repr)
      ensures totalSize == (memorySize + 7) / 8 * 8 && Contents() == Fresh(base, totalSize).blocks
    {
      var total := (memorySize + 7) / 8 * 8;
      var h := new BlockHeader(base, total, null, null);
      head, totalSize, headerAt, nodes, Repr := h, total, map[base := h], [h], {h};
      new;
      assert Contents() == [Block(base, total, true)];
    }

    /** The search loop of alloc. */
    method Search(need: nat) returns (best: BlockHeader?, ghost i: nat)
      requires Valid()
      ensures best == null <==> Best(Contents(), need).None?
      ensures best != null ==> Best(Contents(), need) == Some(i) && i < |nodes| && nodes[i] == best
    {
      hide Inv, Distinct;
      ghost var bs, k := Contents(), 0;
      SizesBounded(bs, head.addr, totalSize);
      best, i := null, 0;
      var current: BlockHeader? := head;
      var minSuitable := totalSize + 1;
      while current != null
        invariant k <= |nodes| && current == if k < |nodes| then nodes[k] else null
        invariant best == null ==> Best(bs[..k], need).None? && minSuitable == totalSize + 1
        invariant best != null ==> Best(bs[..k], need) == Some(i) && i < k && nodes[i] == best && minSuitable == best.size
        decreases |nodes| - k
      {
        BestStep(bs, k, need);
        assert bs[k] == current.AsBlock() && LinkedAt(nodes, k);
        if current.isFree && current.size >= need {
          if current.size < minSuitable {
            minSuitable := current.size;
            best := current;
            i := k;
          }
        }
        current, k := current.next, k + 1;
      }
      assert bs[..k] == bs;
    }

    method Alloc(size: nat) returns (ptr: nat)
      requires Valid()
      modifies this, Repr
      ensures Valid() && fresh(Repr - old(Repr))
      ensures (Contents(), if ptr == 0 then None else Some(ptr)) == BestFitHeap.Alloc(old(Contents()), size)
      ensures (size == 0 ==> ptr == 0) && (ptr == 0 ==> Contents() == old(Contents()))
    {
      hide Chained, NoFreeNeighbours, GoodSizes, Best, Take, Unused, Linked, Blocks, SplitAt;
      if size == 0 { return 0; }
      var need := AlignedSize(size);
      ghost var i;
      var best: BlockHeader?;
      best, i := Search(need);
      if best == null { return 0; }
      ghost var was := Contents();
      TakeKeepsInv(was, head.addr, totalSize, i, need);
      if best.size >= need + MINIMUM_BLOCK {
        UnusedAddress(nodes, i, need);
        Split(best, need, i);
      }
      SetFree(best, false, i);
      TakeSplit(was, i, need);
      return best.addr + HEADER;
    }

    /** Cuts the chosen block after need bytes; the rest becomes a free block behind it. */
    method Split(best: BlockHeader, need: nat, ghost i: nat)
      requires Sound() && i < |nodes| && nodes[i] == best && best.size > need > 0
      requires Unused(nodes, best.addr + need)
      modifies this, Repr
      ensures Sound() && i < |nodes| && nodes[i] == best
      ensures fresh(Repr - old(Repr))
      ensures Contents() == SplitAt(old(Contents()), i, need)
    {
      hide Linked, Blocks, SplitAt, Unused;
      ghost var p;
      var rest: BlockHeader;
      rest, p := CutOff(best, need, nodes, i);
      hide Known;
      KnownInsert(p, headerAt, Repr);
      headerAt := headerAt[rest.addr := rest];
      nodes, Repr := p.list, Repr + {rest};
    }

    /** A new header behind the block, for what is left of it after need bytes. */
    method CutOff(best: BlockHeader, need: nat, ghost ns: seq<BlockHeader>, ghost i: nat)
      returns (rest: BlockHeader, ghost p: Splice)
      requires Linked(ns) && i < |ns| && ns[i] == best && best.size > need > 0
      modifies ns
      ensures fresh(rest) && rest.addr == best.addr + need
      ensures p.at == i && p.InList() && p.Dropped() == ns && p.Behind() == rest && p.list[0] == ns[0]
      ensures Linked(p.list)
      ensures old(Blocks(ns))[i].size >= need && Blocks(p.list) == SplitAt(old(Blocks(ns)), i, need)
    {
      rest := new BlockHeader(best.addr + need, best.size - need, best.next, best);
      p := Splice(ns[..i + 1] + [rest] + ns[i + 1..], i);
      assert p.Dropped() == ns;
      hide Linked, Blocks, SplitAt, Splice.Dropped;
      LinkBehind(best, rest, need, p);
    }

    /** Puts the new header behind the block and shrinks the block. */
    method LinkBehind(best: BlockHeader, rest: BlockHeader, need: nat, ghost p: Splice)
      requires p.InList() && p.Block() == best && p.Behind() == rest
      requires Linked(p.Dropped()) && rest !in p.Dropped()
      requires best.size > need && rest.next == best.next && rest.prev == best
      requires rest.AsBlock() == Block(best.addr + need, best.size - need, true)
      modifies p.Dropped()
      ensures Linked(p.list)
      ensures old(Blocks(p.Dropped()))[p.at].size >= need
      ensures Blocks(p.list) == SplitAt(old(Blocks(p.Dropped())), p.at, need)
    {
      ghost var ns, i := p.Dropped(), p.at;
      AroundSplice(p);
      assert LinkedAt(ns, i);
      assert i + 1 < |ns| ==> ns[i + 1] in ns && ns[i] != ns[i + 1];
      assert best.next == if i + 2 < |p.list| then p.list[i + 2] else null;
      assert best.next == null || (best.next in ns && best.next != best);
      hide Linked, LinkedAt, Blocks, SplitAt, Distinct, Splice.Dropped;
      if best.next != null {
        best.next.prev := rest;
      }
      best.size := need;
      best.next := rest;
      assert SplitWrites(p);
      SplitLinks(p);
      SplitBlocks(p);
    }

    /** A block swallows its right neighbour, which leaves the list. */
    method Absorb(block: BlockHeader, ghost i: nat)
      requires Sound() && i + 1 < |nodes| && nodes[i] == block
      modifies this`nodes, Repr
      ensures Sound() && i < |nodes| && nodes[i] == block
      ensures Contents() == Join(old(Contents()), i)
    {
      ghost var p := Splice(nodes, i);
      assert forall n :: n in nodes ==> n in Repr;
      hide Linked, Blocks, Join;
      Unlink(block, p);
      KnownDrop(p, headerAt, Repr);
      nodes := p.Dropped();
    }

    /** Links the block past its right neighbour and adds that one's size. */
    method Unlink(block: BlockHeader, ghost p: Splice)
      requires p.InList() && p.Block() == block && Linked(p.list)
      modifies p.list
      ensures Linked(p.Dropped()) && Blocks(p.Dropped()) == Join(old(Blocks(p.list)), p.at)
    {
      ghost var ns, i := p.list, p.at;
      assert LinkedAt(ns, i) && LinkedAt(ns, i + 1) && ns[i] in ns && ns[i + 1] in ns;
      assert block.next == p.Behind() && block.next.next == if i + 2 < |ns| then ns[i + 2] else null;
      assert i + 2 < |ns| ==> ns[i + 2] in ns && ns[i + 2] != block;
      hide Linked, Blocks, Join, Distinct, Splice.Dropped;
      block.size := block.size + block.next.size;
      block.next := block.next.next;
      if block.next != null {
        block.next.prev := block;
      }
      assert JoinWrites(p);
      JoinLinks(p);
      JoinBlocks(p);
    }

    method SetFree(block: BlockHeader, value: bool, ghost i: nat)
      requires Sound() && i < |nodes| && nodes[i] == block
      modifies block`isFree
      ensures Sound()
      ensures Contents() == old(Contents())[i := old(Contents())[i].(free := value)]
    {
      ghost var was := Contents();
      block.isFree := value;
      forall j | 0 <= j < |nodes| ensures Contents()[j] == was[i := was[i].(free := value)][j] {
        assert j != i ==> nodes[j] != nodes[i];
      }
      assert forall j: nat :: j < |nodes| ==> LinkedAt(nodes, j) == old(LinkedAt(nodes, j));
    }

    /** free may be given null or the payload of a block in use. */
    method Free(ptr: nat)
      requires Valid() && Freeable(Contents(), ptr)
      modifies this`nodes, Repr
      ensures Valid()
      ensures Contents() == BestFitHeap.Free(old(Contents()), ptr)
      ensures ptr == 0 ==> Contents() == old(Contents())
    {
      if ptr != 0 {
        ghost var i := Find(Contents(), ptr - HEADER).value;
        assert nodes[i] in nodes && Contents()[i] == nodes[i].AsBlock();
        FreeBlock(headerAt[ptr - HEADER], i);
      }
    }

    method FreeBlock(block: BlockHeader, ghost i: nat)
      requires Valid() && i < |nodes| && nodes[i] == block
      modifies this`nodes, Repr
      ensures Valid() && Contents() == Release(old(Contents()), i)
    {
      assert block in nodes;
      hide Inv, Join, Blocks, Linked;
      ReleaseKeepsInv(Contents(), head.addr, totalSize, i);
      SetFree(block, true, i);
      MergeNext(block, i);
      MergePrev(block, i);
    }

    method MergeNext(block: BlockHeader, ghost i: nat)
      requires Sound() && i < |nodes| && nodes[i] == block
      modifies this`nodes, Repr
      ensures Sound() && i < |nodes| && nodes[i] == block
      ensures Contents() == JoinIfFree(old(Contents()), i)
    {
      hide Join, Blocks;
      assert LinkedAt(nodes, i);
      if block.next != null && block.next.isFree {
        Absorb(block, i);
      }
    }

    method MergePrev(block: BlockHeader, ghost i: nat)
      requires Sound() && i < |nodes| && nodes[i] == block
      modifies this`nodes, Repr
      ensures Sound()
      ensures var was := old(Contents());
        Contents() == if i > 0 && was[i - 1].free then Join(was, i - 1) else was
    {
      hide Join, Blocks;
      assert LinkedAt(nodes, i);
      if block.prev != null && block.prev.isFree {
        Absorb(block.prev, i - 1);
      }
    }
  }

  /** No header of the list lies at this address. */
  ghost predicate Unused(ns: seq<BlockHeader>, addr: nat) {
    forall n :: n in ns ==> n.addr != addr
  }

  lemma UnusedAddress(ns: seq<BlockHeader>, i: nat, need: nat)
    requires i < |ns| && Chained(Blocks(ns)) && 0 < need < ns[i].size
    ensures Unused(ns, ns[i].addr + need)
  {
    GapAddress(Blocks(ns), i, need);
    forall n | n in ns ensures n.addr != ns[i].addr + need {
      var j :| 0 <= j < |ns| && ns[j] == n;
      assert Blocks(ns)[j] == n.AsBlock() && Blocks(ns)[i] == ns[i].AsBlock();
    }
  }

  lemma KnownInsert(p: Splice, headerAt: map<nat, BlockHeader>, repr: set<BlockHeader>)
    requires p.InList() && Known(p.Dropped(), headerAt, repr) && Unused(p.Dropped(), p.Behind().addr)
    ensures Known(p.list, headerAt[p.Behind().addr := p.Behind()], repr + {p.Behind()})
  {
    forall n | n in p.list ensures n in p.Dropped() || n == p.Behind() {
      var j :| 0 <= j < |p.list| && p.list[j] == n;
      assert j <= p.at ==> p.Dropped()[j] == n;
      assert j > p.at + 1 ==> p.Dropped()[j - 1] == n;
    }
  }

  lemma KnownDrop(p: Splice, headerAt: map<nat, BlockHeader>, repr: set<BlockHeader>)
    requires p.InList() && Known(p.list, headerAt, repr)
    ensures Known(p.Dropped(), headerAt, repr)
  {
  }

  lemma TakeSplit(bs: seq<Block>, i: nat, need: nat)
    requires i < |bs| && Fits(bs[i], need)
    ensures
      var cut := if bs[i].size >= need + MINIMUM_BLOCK then SplitAt(bs, i, need) else bs;
      Take(bs, i, need) == cut[i := cut[i].(free := false)]
  {
  }

  /** One step of the search loop. */
  lemma BestStep(bs: seq<Block>, k: nat, need: nat)
    requires k < |bs|
    ensures var found := Best(bs[..k], need);
      Best(bs[..k + 1], need) ==
        if Fits(bs[k], need) && (found.None? || bs[k].size < bs[found.value].size) then Some(k) else found
  {
    assert bs[..k + 1][..k] == bs[..k];
  }

  lemma GapAddress(bs: seq<Block>, i: nat, need: nat)
    requires Chained(bs) && i < |bs| && 0 < need < bs[i].size
    ensures forall j :: 0 <= j < |bs| ==> bs[j].addr != bs[i].addr + need
  {
    forall j | 0 <= j < |bs| ensures bs[j].addr != bs[i].addr + need {
      if i < j { BlocksOrdered(bs, i, j); }
      if j < i { BlocksOrdered(bs, j, i); }
    }
  }

  lemma SizesBounded(bs: seq<Block>, base: nat, total: nat)
    requires Inv(bs, base, total)
    ensures forall i :: 0 <= i < |bs| ==> bs[i].size <= total
  {
    forall i | 0 <= i < |bs| ensures bs[i].size <= total {
      if i > 0 { BlocksOrdered(bs, 0, i); }
      if i < |bs| - 1 { BlocksOrdered(bs, i, |bs| - 1); }
    }
  }
}
