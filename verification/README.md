# Verified models of the operating systems labs

Dafny models of four programs of the repository and proofs about them:

- **Lab 2**, the parallel bitonic sort. `Comparators` holds comparator networks as values, `Bitonic` the
  networks of the two recursive functions and why they sort, `BitonicArray` the functions themselves on an
  array, `ForkJoin` the threads with their permits as a step relation.
- **CP**, the two memory allocators. `BestFitHeap` and `McKusickPool` hold the block list and the page pool
  as values, with whole runs of `alloc` and `free`; `BestFit` and `McKusick` are the allocators themselves,
  with linked headers and page records updated in place and proved to do what the values say.
- **Lab 4**, the two integer printers. `Numerals` says what a numeral means, `Printers` holds the loops.
- **Lab 5**, the command tree. `Messages`, `Nodes` and `Control` hold one computing node and the controller,
  both as a function and as an object; `Tree` is the process tree with the queues of its links, `Network`
  the whole system as one step relation with its invariant, and `Protocol` what follows for every run.
  `Pending` accounts for every pending entry, `InFlight` compares the pending list with what is on its way and
  says what is left when the network comes to rest, `SecondCreate` shows what a second `create` leads to.
  `Commands` goes from the command lines to what the nodes execute and answer, `Heartbeats` follows the heartbeat
  period to the nodes, and `Links` shows that the objects and the tree take the same steps.

`Naturals` holds powers of two and multiples, `Wrappers` the option type. `dafny verify dfyconfig.toml` checks everything.

## How the models relate to the code

**Sorting.** A comparator is the triple (i, j, dir) passed to `compareAndSwap`; which comparators run, and in
which order the sequential recursion runs them, depends only on `low`, `cnt` and `dir`, so the sequence is a
function of those. Bitonic is defined by thresholds: for every t the truth values of "at least t" change at
most twice around the cycle. The proof sorts these 0-1 sequences and carries the result over to integers with
duplicates. In `ForkJoin` what the threads still have to do is a tree of pending work, each compare-and-swap and each
budget test is a step of its own, and any thread may take the next step.

**Allocators.** Addresses are natural numbers, null is 0, both header structs have 32 bytes. `free` gets null
or a live pointer. The model of a McKusick page has one state: free, split for one bucket, first page of a
large allocation, later page of one. A next pointer between page records is a record index, and the links
stored inside free blocks are a map from block addresses.

**Lab 5.** The assumptions, all stated in `Network`:

- links lose nothing and keep order, and no process crashes;
- ids enter the tree only through `create`;
- no second `create` for an id is issued while one is outstanding. The code looks at `node_ids_` only when the
  command is issued, so this is needed: an accepted `create` keeps ids unique if and only if none is outstanding
  for its id (`SecondCreate.UniqueExactlyWithoutSecondCreate`).

Every polling loop becomes free interleaving: any node may take its next message, any parent may take the next
message of a child, any node with a heartbeat period may send a heartbeat, any pending entry may time out, at any
moment. That covers every order in which the loops can run. The sender of a reply, the logs, and the maps `issued`, `answers` and
`parentOf` are history that no step looks at, except that `parentOf` states the assumption on `create`. The
books of `Pending` are history as well: they name, for each pending entry, the command it stands for, and for
each entry that is gone, whether it timed out or which reply took it.

## Where the code does less than it seems to

- `bitonicSort` sorts all contents of an array exactly when the length is 0 or a power of two
  (`Bitonic.SortsExactlyPowersOfTwo`); the guard in `main` accepts exactly these (`BitonicArray.GuardIsExact`).
- `tr_tri` prints `-` without digits for the smallest `long`. Negating that number overflows, which is modelled
  as wrapping; the text decodes to every other `long` (`Printers.TernaryRoundTrip`).
- `tr_bin` prints `-` and the 64-bit two's complement pattern for a negative number (`Printers.NegativeIsPattern`).
- `node_ids_` contains -1, so `exec` and `ping` accept -1, but no node has this id. Such a command is never
  answered, and its entry only goes by timeout. In a quiet network the pending list is empty if and only if every
  command to -1 timed out, so it is empty when there was none (`InFlight.QuietPending`, with a run that shows an
  entry left in `InFlight.PingOfMinusOneStays`).
- A reply takes away the first entry for its command kind and node, whichever command that entry stands for. It
  takes its own entry if and only if this one is still there; otherwise it may take the entry of a later command,
  which is then neither pending nor answered (`Pending.LateReplyTakesLaterEntry`). This happens only after an entry
  of the same kind timed out; the own entry may be gone without a timeout of its own, taken by an earlier reply.
  For a `create` only its own timeout counts (`Pending.ReplyTakes`).

## Model

| member | source | states |
|---|---|---|
| Comparators.ThresholdApply | Labs/Lab2/src/main.cpp:22-26 | compare-and-swap sequences commute with thresholding, so they may be judged on 0-1 sequences |
| Comparators.SortedByThresholds | Labs/Lab2/src/main.cpp:139-144 | a slice is in order if its 0-1 sequence is for every threshold, duplicates included |
| Comparators.ApplyPermutes | Labs/Lab2/src/main.cpp:22-26 | no sequence of compare-and-swaps loses or duplicates a value |
| Comparators.NetworksCommute | Labs/Lab2/src/main.cpp:50-61 | work on two disjoint index ranges gives the same array in either order |
| Bitonic.HalfCleaner | Labs/Lab2/src/main.cpp:36-39 | after one pass over a cyclic bitonic slice both halves are bitonic and every element of one bounds every element of the other |
| Bitonic.MergeBits | Labs/Lab2/src/main.cpp:28-73 | `bitonicMerge` sorts every cyclic bitonic slice of bits |
| Bitonic.MergeSorts | Labs/Lab2/src/main.cpp:28-73 | `bitonicMerge` sorts every cyclic bitonic slice whose length is a power of two, in both directions |
| Bitonic.UpDownIsBitonic | Labs/Lab2/src/main.cpp:85-86 | an ascending half followed by a descending half is bitonic, which is what `bitonicSort` hands to `bitonicMerge` |
| Bitonic.SortSorts | Labs/Lab2/src/main.cpp:75-114 | `bitonicSort` sorts every slice whose length is a power of two, in both directions |
| Bitonic.SlicePermuted | Labs/Lab2/src/main.cpp:75-114 | the slice is permuted and everything outside it stays |
| Bitonic.OddFactorFails | Labs/Lab2/src/main.cpp:75-114 | for every other positive length there is an array that `bitonicSort` leaves unsorted |
| Bitonic.SortsExactlyPowersOfTwo | Labs/Lab2/src/main.cpp:160-164 | all arrays of a length come out sorted if and only if it is 0 or a power of two |
| Bitonic.MergeCount | Labs/Lab2/src/main.cpp:35-48 | merging n = 2^k elements takes n k / 2 comparisons |
| Bitonic.SortCount | Labs/Lab2/src/main.cpp:82-111 | sorting n = 2^k elements takes n k (k + 1) / 4 comparisons |
| Bitonic.Pow2Exponent | Labs/Lab2/src/main.cpp:160-164 | every power of two is 2^k for some k |
| BitonicArray.Sorter.CompareAndSwap | Labs/Lab2/src/main.cpp:22-26 | direction 1 swaps a greater with a smaller element, direction 0 one that is not greater, any other direction nothing; no third element changes |
| BitonicArray.Sorter.Clean | Labs/Lab2/src/main.cpp:37-39 | the loop is the half-cleaner pass of `HalfCleaner` |
| BitonicArray.Sorter.Merge | Labs/Lab2/src/main.cpp:28-73 | the array becomes what the merging network makes of it, whatever the budget, and `active_threads` is back at its old value |
| BitonicArray.Sorter.Sort | Labs/Lab2/src/main.cpp:75-114 | the slice is permuted, sorted when its length is a power of two, the rest unchanged, permits given back |
| BitonicArray.GuardMeansPow2 | Labs/Lab2/src/main.cpp:161 | on 32-bit integers `n & (n - 1)` is 0 exactly for 0 and the powers of two; every negative n is refused |
| BitonicArray.GuardIsExact | Labs/Lab2/src/main.cpp:160-164 | the guard accepts exactly the lengths for which every array comes out sorted |
| BitonicArray.GuardCount | Labs/Lab2/src/main.cpp:82-164 | a positive n that passes the guard is 2^k for some k, and sorting takes n k (k + 1) / 4 comparisons |
| BitonicArray.SortWhole | Labs/Lab2/src/main.cpp:151-169 | 0 and the powers of two are accepted, negative and all other numbers refused; an accepted array is sorted and permuted, a refused one untouched |
| ForkJoin.RaceFree | Labs/Lab2/src/main.cpp:50-70 | no two threads are ever about to touch the same element |
| ForkJoin.StepKeepsOwnership | Labs/Lab2/src/main.cpp:42-70 | every step leaves live tasks with disjoint index ranges |
| ForkJoin.StepOutcome | Labs/Lab2/src/main.cpp:28-114 | no step of any thread changes the array that the rest of the work leads to |
| ForkJoin.StepPermits | Labs/Lab2/src/main.cpp:53-65 | `active_threads` minus the permits held (2 per sort frame, 1 per merge frame) never changes, and no step raises it above `max_threads` |
| ForkJoin.UnjoinedBelowPermits | Labs/Lab2/src/main.cpp:90-104 | there are never more unjoined threads than permits |
| ForkJoin.Progress | Labs/Lab2/src/main.cpp:28-114 | until the root call has returned some thread can take a step |
| ForkJoin.EveryState | Labs/Lab2/src/main.cpp:53-104 | in every state of every schedule: no race, the sequential outcome ahead, `active_threads` equal to the permits, at most `max_threads`, and a bound on the steps left |
| ForkJoin.EverySchedule | Labs/Lab2/src/main.cpp:28-114 | every schedule ends, with the array of the sequential recursion, no thread unjoined and `active_threads` 0 |
| ForkJoin.SortForks | Labs/Lab2/src/main.cpp:90-108 | a sort frame of more than one element creates two threads, and takes two permits, exactly when the budget has room for two |
| ForkJoin.MergeForks | Labs/Lab2/src/main.cpp:41-70 | a merge frame creates one thread, and takes one permit, exactly when its halves have at least 1024 elements and the budget has room for one |
| ForkJoin.MergeOpens | Labs/Lab2/src/main.cpp:35-51 | a merge frame of more than one element runs its loop over the halves and then recurses |
| ForkJoin.ReadyMayGo | Labs/Lab2/src/main.cpp:36-39 | any thread that is about to compare may be the next to do so |
| ForkJoin.TwoThreadsRun | Labs/Lab2/src/main.cpp:90-99 | with a budget of at least 2 and at least 4 elements some schedule has two threads about to compare at the same time |
| BestFitHeap.AlignedSize | Labs/CP/src/list_of_free_blocks.cpp:50-51 | the next multiple of 8 that holds the request and its header |
| BestFitHeap.AllocIsBestFit | Labs/CP/src/list_of_free_blocks.cpp:47-91 | in bytes: null exactly for size 0 or when no free block holds the request and its header, otherwise the leftmost of the smallest free blocks that do; what is handed out is less than 48 bytes bigger, and exactly this block joins those in use |
| BestFitHeap.AllocFree | Labs/CP/src/list_of_free_blocks.cpp:70-118 | `alloc` followed by `free` of the result restores the block list, split or not |
| BestFitHeap.TakeKeepsInv | Labs/CP/src/list_of_free_blocks.cpp:70-90 | handing out any fitting block keeps: blocks end to end, sizes multiples of 8 and at least 40, no two free neighbours |
| BestFitHeap.ReleaseKeepsInv | Labs/CP/src/list_of_free_blocks.cpp:100-118 | freeing any block and merging on both sides keeps the same |
| BestFitHeap.TakeInUse | Labs/CP/src/list_of_free_blocks.cpp:70-90 | exactly one block joins those in use, and no other changes address or size |
| BestFitHeap.ReleaseInUse | Labs/CP/src/list_of_free_blocks.cpp:100-118 | exactly one block leaves those in use, and no other changes address or size |
| BestFitHeap.AllocStep | Labs/CP/src/list_of_free_blocks.cpp:47-91 | `alloc` keeps live pointers and used blocks in one-to-one correspondence and never returns a live pointer |
| BestFitHeap.FreeStep | Labs/CP/src/list_of_free_blocks.cpp:93-119 | `free` of null or a live pointer always finds its block and keeps that correspondence |
| BestFitHeap.SizesAddUp | Labs/CP/src/list_of_free_blocks.cpp:71-118 | the block sizes of a list without gaps add up to the distance from its start to its end |
| BestFitHeap.EveryRun | Labs/CP/src/list_of_free_blocks.cpp:47-119 | after any sequence of calls the list is sound, sizes add up to `total_size`, and live payloads are in bounds, big enough and disjoint |
| BestFitHeap.NothingLive | Labs/CP/src/list_of_free_blocks.cpp:102-118 | a pool with nothing live is one free block |
| BestFitHeap.FreeAllCoalesces | Labs/CP/src/list_of_free_blocks.cpp:93-119 | freeing all live pointers in any order ends with one free block that spans the pool |
| BestFit.BestFitAllocator.constructor | Labs/CP/src/list_of_free_blocks.cpp:21-41 | one free block of the size rounded up to 8 |
| BestFit.BestFitAllocator.Search | Labs/CP/src/list_of_free_blocks.cpp:53-66 | the loop over the links finds the leftmost smallest fitting header, or null when there is none |
| BestFit.BestFitAllocator.Alloc | Labs/CP/src/list_of_free_blocks.cpp:47-91 | the linked headers become the list that best fit prescribes; the list still starts at `head`, `next` and `prev` are inverse, no cycle |
| BestFit.BestFitAllocator.LinkBehind | Labs/CP/src/list_of_free_blocks.cpp:76-86 | the four link writes put the rest behind the block and keep both directions inverse |
| BestFit.BestFitAllocator.Unlink | Labs/CP/src/list_of_free_blocks.cpp:103-118 | the writes that drop the right neighbour keep both link directions inverse |
| BestFit.BestFitAllocator.Absorb | Labs/CP/src/list_of_free_blocks.cpp:103-109 | the right neighbour leaves the list and its bytes go to the block |
| BestFit.BestFitAllocator.Free | Labs/CP/src/list_of_free_blocks.cpp:93-119 | the linked headers become the list with the block freed and merged on both sides; `head` and the link invariant stay |
| McKusickPool.BucketIndexIsTight | Labs/CP/src/Mckusey-Carels.cpp:38-46 | the bucket of a request from 2 to 4096 bytes has the smallest block size that holds it |
| McKusickPool.NextFree | Labs/CP/src/Mckusey-Carels.cpp:54-68 | the lowest free page from a page on, and none only when there is none |
| McKusickPool.FirstRun | Labs/CP/src/Mckusey-Carels.cpp:71-122 | the lowest run of n free pages, and none only when there is none |
| McKusickPool.PageBlocksExact | Labs/CP/src/Mckusey-Carels.cpp:126-145 | splitting a page lists each of its blocks exactly once |
| McKusickPool.BlocksApart | Labs/CP/src/Mckusey-Carels.cpp:126-145 | blocks stay inside their page and do not overlap |
| McKusickPool.PopKeeps | Labs/CP/src/Mckusey-Carels.cpp:231-234 | taking a block off its list hands out exactly this one address and keeps the pool sound |
| McKusickPool.SplitKeeps | Labs/CP/src/Mckusey-Carels.cpp:220-229 | splitting a free page for an empty bucket hands out nothing and keeps the pool sound |
| McKusickPool.TakeRunKeeps | Labs/CP/src/Mckusey-Carels.cpp:236-247 | taking a run of pages hands out exactly its first address and keeps the pool sound |
| McKusickPool.GiveBackKeeps | Labs/CP/src/Mckusey-Carels.cpp:263-275 | freeing a large allocation frees exactly its pages and takes back exactly its address |
| McKusickPool.PushKeeps | Labs/CP/src/Mckusey-Carels.cpp:257-262 | freeing a block puts it on its own size's list once and takes back exactly its address |
| McKusickPool.AllocStep | Labs/CP/src/Mckusey-Carels.cpp:213-248 | `alloc` keeps live pointers equal to the held addresses and never returns a live one |
| McKusickPool.FreeStep | Labs/CP/src/Mckusey-Carels.cpp:251-276 | `free` of null or a live pointer keeps the pool sound and the other live pointers |
| McKusickPool.HeldApart | Labs/CP/src/Mckusey-Carels.cpp:213-276 | the bytes that belong to different held addresses never overlap |
| McKusickPool.EveryRun | Labs/CP/src/Mckusey-Carels.cpp:213-276 | after any sequence of calls each page is in one state, each block of a split page is held or on its own list once, live ranges are in bounds, big enough and disjoint; a page split at any time has the same block size ever after |
| McKusickPool.SplitStays | Labs/CP/src/Mckusey-Carels.cpp:213-276 | no call changes a split page |
| McKusickPool.SplitForever | Labs/CP/src/Mckusey-Carels.cpp:213-276 | a split page keeps its block size over every sequence of calls |
| McKusickPool.LargeIsFirstFit | Labs/CP/src/Mckusey-Carels.cpp:236-247 | a large request gets the lowest long enough run, null exactly when there is none, and nothing else changes |
| McKusickPool.LargeAllocFree | Labs/CP/src/Mckusey-Carels.cpp:236-275 | a large `alloc` followed by `free` restores pages, free list and buckets |
| McKusickPool.SmallAllocExact | Labs/CP/src/Mckusey-Carels.cpp:216-234 | a small request gets null exactly when its list is empty and no page is free, otherwise the head of its list, or the first block of the lowest free page, whose other blocks become the list in ascending order; all else stays |
| McKusickPool.FreeExact | Labs/CP/src/Mckusey-Carels.cpp:251-276 | a freed block becomes the head of its page's list, a freed large allocation makes exactly its pages free; all else stays |
| McKusickPool.SmallAllocFree | Labs/CP/src/Mckusey-Carels.cpp:216-262 | a small `alloc` followed by `free` restores the pool, except that a page split on the way stays split |
| McKusick.FreeListAscending | Labs/CP/src/Mckusey-Carels.cpp:54-68 | the linked free list is finite, in strictly ascending address order, and holds each free page once |
| McKusick.PageCounts | Labs/CP/src/Mckusey-Carels.cpp:183-186 | with two pages or more the records fit their pages and at least one data page is left |
| McKusick.BucketOfBlockSize | Labs/CP/src/Mckusey-Carels.cpp:128-132 | the bucket of a block size is the bucket the size was made for |
| McKusick.McKusickAllocator.constructor | Labs/CP/src/Mckusey-Carels.cpp:166-210 | all data pages free, in order, behind no more pages than the records need, and up to the end of the mapped memory |
| McKusick.McKusickAllocator.InsertSorted | Labs/CP/src/Mckusey-Carels.cpp:54-68 | the list gains exactly this page and stays in address order, and the loop ends |
| McKusick.McKusickAllocator.ScanRun | Labs/CP/src/Mckusey-Carels.cpp:78-92 | counts the free pages in a row by comparing addresses along the links, up to the number wanted |
| McKusick.McKusickAllocator.Relink | Labs/CP/src/Mckusey-Carels.cpp:105-112 | links through the next record and marks exactly the records walked |
| McKusick.McKusickAllocator.FindConsecutive | Labs/CP/src/Mckusey-Carels.cpp:71-122 | finds the lowest run and takes exactly its pages off the list; with no run nothing changes |
| McKusick.McKusickAllocator.FindPageInfo | Labs/CP/src/Mckusey-Carels.cpp:148-162 | the record of the page an address lies in, null for addresses outside the data pages |
| McKusick.McKusickAllocator.LinkBlocks | Labs/CP/src/Mckusey-Carels.cpp:135-139 | each block of the page but the last points to the next one, and no bucket list is disturbed |
| McKusick.McKusickAllocator.SplitPage | Labs/CP/src/Mckusey-Carels.cpp:126-145 | all blocks of the page come in front of their bucket list, the other lists stay |
| McKusick.McKusickAllocator.Alloc | Labs/CP/src/Mckusey-Carels.cpp:213-248 | records, links and lists become those of the pool after `alloc`, with the same result |
| McKusick.McKusickAllocator.Free | Labs/CP/src/Mckusey-Carels.cpp:251-276 | records, links and lists become those of the pool after `free`; outside the data pages nothing happens |
| Numerals.DigitsValue | Labs/Lab4/src/tr_tri.cpp:20-23 | dividing by the base gives digits whose Horner value is the number |
| Numerals.DigitsLead | Labs/Lab4/src/tr_tri.cpp:20-23 | such a numeral has no leading zero and no sign |
| Numerals.DigitsAt | Labs/Lab4/src/tr_tri.cpp:20-23 | the digit at place i from the right is that of the number after i divisions by the base |
| Numerals.BitsAt | Labs/Lab4/src/tr_bin.cpp:18-25 | the same for fixed-width binary |
| Numerals.FlippedIsComplement | Labs/Lab4/src/tr_bin.cpp:18-25 | the complemented digits of x are the digits of 2^n - 1 - x |
| Numerals.StripBits | Labs/Lab4/src/tr_bin.cpp:27-31 | fixed-width binary without leading zeros is the canonical numeral |
| Printers.TernaryRoundTrip | Labs/Lab4/src/tr_tri.cpp:1-40 | the text decodes to the number if and only if it is not the smallest long |
| Printers.TernaryInjective | Labs/Lab4/src/tr_tri.cpp:1-40 | different numbers get different texts |
| Printers.TernaryNoLeadingZero | Labs/Lab4/src/tr_tri.cpp:1-40 | no leading zero, except for the number 0 itself |
| Printers.TernaryDigits | Labs/Lab4/src/tr_tri.cpp:1-40 | behind the sign stand the digits 0, 1, 2 of the magnitude, highest first |
| Printers.LongBelowPow3 | Labs/Lab4/src/tr_tri.cpp:14-16 | 40 ternary digits are enough for any long |
| Printers.StoreTernary | Labs/Lab4/src/tr_tri.cpp:16-23 | the loop writes the numeral in reverse, with at most 40 writes into the 42 places |
| Printers.TranslateTernary | Labs/Lab4/src/tr_tri.cpp:1-40 | the result buffer holds exactly the text and its end mark |
| Printers.BinaryRoundTrip | Labs/Lab4/src/tr_bin.cpp:1-47 | every long is recovered, negative ones from the pattern behind the sign |
| Printers.NegativeIsPattern | Labs/Lab4/src/tr_bin.cpp:12-25 | every negative number gets a sign and 64 digits, the first of them 1 |
| Printers.BinaryNoLeadingZero | Labs/Lab4/src/tr_bin.cpp:27-31 | a positive number starts with 1, zero is "0" |
| Printers.BinaryDigits | Labs/Lab4/src/tr_bin.cpp:1-47 | behind the sign stand the binary digits of the number modulo 2^64, highest first |
| Printers.FillBits | Labs/Lab4/src/tr_bin.cpp:17-25 | the loop fills all 64 places with the digits, complemented for a negative number |
| Printers.FirstDigit | Labs/Lab4/src/tr_bin.cpp:27-31 | the scan stops at the first digit other than 0, or at the last place |
| Printers.LoopMeaning | Labs/Lab4/src/tr_bin.cpp:12-31 | what the loop wrote, without leading zeros, is the numeral of x or of 2^64 + x |
| Printers.TranslateBinary | Labs/Lab4/src/tr_bin.cpp:1-47 | the result buffer holds exactly the text and its end mark |
| Nodes.LastAddIsLast | Labs/Lab5/src/nodes.cpp:103-125 | the reference value of a key is that of the last `ExecAdd` for it, and there is none exactly when there was no such command |
| Nodes.ExecuteIsRight | Labs/Lab5/src/nodes.cpp:80-125 | a command addressed to the node gets one reply, the right one for all commands before it, and the dictionary stays right |
| Nodes.ComputingNode.BroadcastToChildren | Labs/Lab5/src/nodes.cpp:127-131 | every child gets the message once, behind what it was sent before |
| Nodes.ComputingNode.HandleCreate | Labs/Lab5/src/nodes.cpp:80-88 | a new last child and a reply with its id and process id, or the message to all children; nothing else |
| Nodes.ComputingNode.HandlePing | Labs/Lab5/src/nodes.cpp:90-96 | the message back to the parent, or to all children; nothing else |
| Nodes.ComputingNode.HandleHeartbeat | Labs/Lab5/src/nodes.cpp:98-101 | the new period, and the message to all children; nothing else |
| Nodes.ComputingNode.HandleExecAdd | Labs/Lab5/src/nodes.cpp:103-110 | one dictionary entry and an echo, or the message to all children |
| Nodes.ComputingNode.HandleExecFind | Labs/Lab5/src/nodes.cpp:112-125 | the value or the error reply, or the message to all children |
| Nodes.ComputingNode.HandleParentMessage | Labs/Lab5/src/nodes.cpp:152-173 | the switch changes the node exactly as the effect of the message says, and nothing else |
| Nodes.ComputingNode.TakeFromChild | Labs/Lab5/src/nodes.cpp:137-142 | the oldest message of one child leaves its queue and goes behind what was sent to the parent; with an empty queue nothing changes, nor do the other queues, the dictionary and the children |
| Nodes.ComputingNode.PollChildren | Labs/Lab5/src/nodes.cpp:136-142 | one pass shortens each nonempty queue by exactly its oldest message, and these arrive in the order of the children |
| Nodes.HeadsAt | Labs/Lab5/src/nodes.cpp:136-142 | the oldest message of a child comes behind those of the children before it |
| Nodes.PollConserves | Labs/Lab5/src/nodes.cpp:136-142 | such a pass neither loses nor duplicates a message |
| Control.Controller.RemovePendingMessage | Labs/Lab5/src/control.cpp:75-84 | removes the first match only |
| Control.RemovesAt | Labs/Lab5/src/control.cpp:75-84 | the entry at the first match goes, and with no match nothing does |
| Control.Controller.HandleChildMessage | Labs/Lab5/src/control.cpp:12-44 | ids and pending list after a reply |
| Control.Controller.CheckPendingMessages | Labs/Lab5/src/control.cpp:46-58 | erasing while iterating keeps exactly the entries that are not expired, each behind those before it |
| Control.UnexpiredAt | Labs/Lab5/src/control.cpp:46-58 | the entries without a flag stay, in order, and no others |
| Control.Controller.BroadcastMessage | Labs/Lab5/src/control.cpp:86-91 | one new pending entry, and the message once to every child |
| Control.Controller.HandleCommand | Labs/Lab5/src/control.cpp:93-164 | command by command: with ids that are not as they should be nothing changes; otherwise a new child, or one pending entry and the message with just the ids, key and value of the command line to all children |
| Tree.BroadcastViews | Labs/Lab5/src/control.cpp:86-91 | a command sent to all children is under way to exactly the node it names |
| Tree.ForwardViews | Labs/Lab5/src/nodes.cpp:86-131 | passing a message on to all children changes nothing that any node will see |
| Tree.ExecuteViews | Labs/Lab5/src/nodes.cpp:80-125 | a node that takes a command addressed to it executes its oldest outstanding one; no other node is affected |
| Tree.RelayViews | Labs/Lab5/src/nodes.cpp:136-142 | relaying keeps the order of the replies of each node |
| Tree.DeliverWork | Labs/Lab5/src/nodes.cpp:127-131 | taking a message from the parent leaves less work, although it may be copied to all children |
| Tree.RelayWork | Labs/Lab5/src/nodes.cpp:136-142 | taking a message from a child leaves less work |
| Network.DownInv | Labs/Lab5/src/nodes.cpp:152-173 | the network invariant survives a node taking a message from its parent |
| Network.UpInv | Labs/Lab5/src/nodes.cpp:136-142 | the network invariant survives a reply moving up or reaching the controller |
| Network.EnterInv | Labs/Lab5/src/control.cpp:93-164 | the network invariant survives every command line |
| Network.ExpireInv | Labs/Lab5/src/control.cpp:46-58 | the network invariant survives the timeout of any pending entry |
| Links.ReceiveFollows | Labs/Lab5/src/nodes.cpp:152-173 | a node of the tree that takes a message from its parent changes as its object does |
| Links.RelayIsTurn | Labs/Lab5/src/nodes.cpp:136-142 | when the parent of a node takes a message from it, the tree does exactly the turn of the parent's object on that child: same message, same order |
| Links.PulseIsSent | Labs/Lab5/src/nodes.cpp:144-150 | a node may send a heartbeat exactly when it has a period, and it goes behind what the node sent before |
| Links.NewNodeIsEmpty | Labs/Lab5/src/nodes.cpp:63-78 | a created node starts with an empty dictionary, no period and empty queues |
| Links.EnterIsHandled | Labs/Lab5/src/control.cpp:93-164 | a command line changes the network as the handlers change the controller's object |
| Links.ControllerTakes | Labs/Lab5/src/control.cpp:185-191 | the controller takes the oldest message of a child and handles it |
| Heartbeats.StepKeeps | Labs/Lab5/src/nodes.cpp:98-131 | no step but a heartbeat command changes the period that a node has or will have from what is on its way |
| Heartbeats.StepSets | Labs/Lab5/src/control.cpp:150-164 | a heartbeat command is on its way to every node there is |
| Heartbeats.QuietHasPeriod | Labs/Lab5/src/nodes.cpp:98-101 | over every run, in a quiet network every node that existed at the last heartbeat command has its period |
| Network.NextAnswer | Labs/Lab5/src/nodes.cpp:103-125 | the next reply of a node is the right one for its oldest unanswered command |
| Network.MatchesOneKey | Labs/Lab5/src/control.cpp:75-84 | the entries that match a reply are exactly those of its request's kind; the second alternative never hits another child's create |
| Protocol.EveryState | Labs/Lab5/src/control.cpp:182-221 | the network invariant holds in every state of every run |
| Protocol.AnswersAreRight | Labs/Lab5/src/nodes.cpp:80-125 | the k-th reply from a node is the right one for the k-th command issued to it |
| Protocol.FindCarriesLastAdd | Labs/Lab5/src/nodes.cpp:103-125 | over every run a find reply carries the value of the last `ExecAdd` issued before it to that node and key, and "not found" exactly when there was none |
| Protocol.ExecutedInOrder | Labs/Lab5/src/nodes.cpp:80-131 | each node executes exactly the commands addressed to it, in the order of issue, and none is lost |
| Commands.StepIssues | Labs/Lab5/src/control.cpp:93-148 | a node is sent exactly the command lines for it with known ids, as they were entered |
| Commands.AcceptedAreExecuted | Labs/Lab5/src/control.cpp:93-148 | the accepted command lines for a node are one to one, and in order, what it executed and what is on its way to it; kind, addressee, child, key and value agree |
| Commands.FindAnswersLastAdd | Labs/Lab5/src/nodes.cpp:103-125 | over every run the reply to an accepted find of a key at a node carries the value of the last accepted add of that key to that node before it, and is the error reply exactly when there was none |
| Commands.AnswersFitCommands | Labs/Lab5/src/nodes.cpp:80-125 | over every run the k-th reply of a node is the one for the k-th accepted command line for it, for all four kinds |
| Protocol.StepOwner | Labs/Lab5/src/nodes.cpp:80-88 | every node hangs below the parent its create command named |
| Protocol.EveryTree | Labs/Lab5/src/control.cpp:93-115 | over every run the nodes form a tree with unique ids in which each hangs below the parent its create named, and every id in `node_ids_` but -1 is a node of it |
| Protocol.QuietMeansAnswered | Labs/Lab5/src/nodes.cpp:134-175 | in a quiet network every command to a node was executed and its reply received |
| Protocol.InternalDecreases | Labs/Lab5/src/nodes.cpp:134-175 | every step other than a command or a heartbeat lowers the measure: creates not executed, then work under way, then pending entries |
| Protocol.ComesToRest | Labs/Lab5/src/nodes.cpp:134-175 | without new commands and heartbeats no run goes on forever |
| Protocol.NotQuietMoves | Labs/Lab5/src/nodes.cpp:134-175 | in a network that is not quiet a message can be delivered |
| SecondCreate.TwinIsBorn | Labs/Lab5/src/nodes.cpp:80-84 | a node that executes a create for an id of the tree makes a second node with it |
| SecondCreate.DoomedStep | Labs/Lab5/src/nodes.cpp:80-131 | once two creates of an id are executed or on their way, each delivery makes twins or brings them nearer |
| SecondCreate.SecondCreateMakesTwins | Labs/Lab5/src/control.cpp:97-114 | from every state in which the controller accepts a create for an id whose create is outstanding, deliveries alone lead to two nodes with that id |
| SecondCreate.UniqueExactlyWithoutSecondCreate | Labs/Lab5/src/control.cpp:97-114 | an accepted create keeps ids unique, however the run goes on, if and only if no create for its id is outstanding |
| SecondCreate.SecondCreateIsAccepted | Labs/Lab5/src/control.cpp:97-114 | a run that ends where the controller accepts such a second create |
| Pending.StepBooks | Labs/Lab5/src/control.cpp:46-91 | every step keeps the account: each command issued is pending or has ended, never both, and no answered command is pending |
| Pending.EveryBook | Labs/Lab5/src/control.cpp:46-91 | the account is right in every state of every run |
| Pending.PendingParent | Labs/Lab5/src/control.cpp:93-115 | a pending create names the node its child hangs below |
| Pending.RelayedMatchesKind | Labs/Lab5/src/control.cpp:75-84 | a reply matches exactly the pending entries with the command, addressee and, for a create, child of the command it answers |
| Pending.TimeoutBehind | Labs/Lab5/src/control.cpp:46-84 | an entry that is gone before the reply to its command comes is gone because an entry of its kind, for the same or an earlier command, timed out |
| Pending.ReplyTakes | Labs/Lab5/src/control.cpp:12-84 | over every run a reply takes away the entry of the command it answers if and only if that entry neither timed out nor went with an earlier reply; otherwise nothing, or an entry of the same kind for a later command, and only after a timeout of that kind; for a create, only its own timeout counts |
| Pending.LateReplyTakesLaterEntry | Labs/Lab5/src/control.cpp:75-84 | a run in which the late reply to a find takes the entry of a second find, which is not answered yet |
| InFlight.OutstandingIsOnTheWay | Labs/Lab5/src/nodes.cpp:80-142 | commands of a kind not yet answered are those on their way down plus the replies to such commands on their way up |
| InFlight.PendingBelowInFlight | Labs/Lab5/src/control.cpp:46-91 | over every run, timeouts and late replies included, pending entries by command and addressee, and for creates also by child, never outnumber the commands of that kind on their way down and the replies on their way up; a pending create names its child's parent |
| InFlight.EveryMirror | Labs/Lab5/src/control.cpp:75-91 | as long as nothing timed out the pending entries for each node are, in order, its commands not yet answered |
| InFlight.KindMirror | Labs/Lab5/src/control.cpp:75-91 | as long as nothing timed out the pending entries of a kind are the unanswered commands of that kind, in order |
| InFlight.QuietPending | Labs/Lab5/src/control.cpp:46-91 | in every run, timeouts included, a quiet network has executed and answered everything and its pending list is empty if and only if every command to -1 timed out, so when there was none; as long as nothing timed out it holds exactly the commands to -1 |
| InFlight.PingOfMinusOneStays | Labs/Lab5/src/control.cpp:140-148 | a run in which the network is quiet and a ping of -1 is still pending |
| InFlight.StuckIsSettled | Labs/Lab5/src/nodes.cpp:134-175 | a run that no delivery can extend has answered everything, with only entries for -1 left, and none if nothing was addressed to -1 |
| InFlight.EverySettles | Labs/Lab5/src/nodes.cpp:134-175 | however internal steps are chosen from a reachable state, the network becomes quiet, with the same left |
| InFlight.SweepIsTimeouts | Labs/Lab5/src/control.cpp:46-58 | one sweep of the pending list is a sequence of single timeouts |

## Left out

- InFlight.PendingBelowInFlight: says nothing about entries for -1, because no node answers them (see `QuietPending`).
- BitonicArray.Sorter.Merge: runs the two calls of a granted permit one after the other; all their interleavings are the subject of `ForkJoin`.
- BitonicArray.Sorter.Sort: as for `Merge`; `max_threads` and `active_threads` are integers without bound.
- BitonicArray.SortWhole: the smallest `int`, for which n - 1 overflows, is excluded; argument parsing, `rand`, timing, the unused `thread_pool` and failures of `pthread_create` are not modelled.
- BestFit.BestFitAllocator.Free: double free, foreign and interior pointers are excluded by its precondition.
- BestFit.BestFitAllocator.constructor: `mmap` always succeeds for a positive size; the destructor is not modelled.
- McKusick.McKusickAllocator.Alloc: a request of one byte is excluded, since `__builtin_clzl(0)` is undefined.
- McKusick.McKusickAllocator.Free: double free, interior and foreign pointers inside the data pages are excluded by its precondition.
- McKusick.McKusickAllocator.constructor: less than two pages are excluded, since the count of data pages underflows.
- McKusickPool.EveryRun: needs no bound on addresses; overflow of `size_t` is not modelled in either allocator.
- Allocator memory: the bytes users write into live blocks; a link stored in a free block is assumed to survive until the block is handed out.
- Printers.TernaryRoundTrip: negating the smallest long is undefined in C++ and modelled as wrapping.
- Protocol.ComesToRest: is about steps of the model; how long a step takes, and the sleeping and polling of the loops, are not modelled.
- Nodes.ComputingNode.HandleParentMessage: an `ExecErr` never comes from a parent; the switch ignores it, as the code does.
- Control.Controller.HandleCommand: reading and parsing the command line, the 30-character key buffer and the printed texts are left out; keys are strings of any length.
- Lab 5 transport: sockets, message encoding, `fork` and `exec`, process ids other than as a parameter, crashed nodes and lost messages.
- Lab 5 time: clocks, `sent_time`, `beat_tracker` and the report about missing beats; entries may time out and nodes with a period may send heartbeats at any moment.
- Lab 1 and Lab 3: pipes and shared memory, mostly input and output around a filter loop.
- Lab 4 integrals: floating point, and switching libraries with `dlopen`.
- CP benchmarks: random workloads and timing.
