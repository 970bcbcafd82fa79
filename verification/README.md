# Verified models of eight C components

The repository collects small, self-contained C data structures and protocols. This project models
the eight with the most intricate state and proves what they promise, for every input, every run and
every interleaving. `dafny verify dfyconfig.toml` checks all of it.

| component | files here | what is proved in the end |
|---|---|---|
| red-black tree with parent pointers (`structure/rbtree.h`) | `rb_*.dfy` | insertion and erasure keep the colours, the black height, the parent pointers and the order; erasure is right **if and only if** a condition on three cells holds |
| multi-producer/multi-consumer ring (`structure/mpmc.c`) | `mpmc*.dfy` | what is delivered is a prefix of what is accepted, in order, on 32-bit counters that come round, for any number of threads |
| range-to-CIDR splitter (`structure/patricia.c`) | `words.dfy`, `cidr.dfy`, `range_split.dfy`, `prefix_match.dfy` | the two-word code computes the greedy split; the split covers exactly the range, with the fewest blocks possible |
| copy-on-write packets (`coding/packet.c`) | `packet_heap.dfy`, `packet_steps.dfy`, `packet.dfy` | every call changes the bytes of one packet only; a buffer lives exactly as long as some view points at it |
| skip list (`structure/skiplist.h`) | `skip_*.dfy` | every level holds exactly the nodes tall enough; the descending searches find what a scan of level 0 finds |
| thread-caching object pool (`coding/pool.c`) | `pool*.dfy` | every object is in exactly one place at every step of any number of threads; what each call gives, takes and moves |
| zero-copy pipeline (`structure/ringbuf.h`, `structure/objpool.h`, `structure/ringbuf_example.c`) | `fifo.dfy`, `ring_buf.dfy`, `obj_pool.dfy`, `pipeline*.dfy` | when the consumer exits it has seen every item, in order, and every packet is free again |
| IPv6 header walk (`structure/check_ip.c`) | `ipv6_walk.dfy` | the walk answers exactly for the buffers that a printer of header chains produces |

`bits.dfy` holds powers of two and bitwise operators on natural numbers, `machine.dfy` the machine types,
`options.dfy` and `sets.dfy` an option type and the elements of a sequence.

## How the models are built

*Objects and memory.* The red-black tree and the skip list are classes over node objects, with the
fields and loops of the C code. A snapshot function turns the fields of a set of nodes into a value, a
C routine is described by a function on such values, and a method with the routine's stores is proved
to compute that function. Trees and lists are then lemmas about values. Packets live in a class whose
fields map addresses to live views and live buffers; freeing removes an address, so that a use after
free, a double free or a leak would show. A key embedded in a node's owner is an `int` field of the
node, and `cmp` compares those: the rank of a key under any strict total order. A node and its payload
are one object.

*Threads.* The ring, the pool and the pipeline are step functions. A program counter per thread says
which shared access comes next, and its fields are the thread's locals; an event picks the thread. Runs
are sequences of events. Interleavings are sequentially consistent. What the proofs remember beside the
memory (tickets, the height of an object in the free list) decides no step.

*Machine arithmetic.* 32-bit counters, 64-bit words and 128-bit values in two words are modelled with
their wrap-around. Where a proof counts without bound, a lemma shows that wrapping its state after every
step gives the run of the code.

## Where the code and its comments differ

- `rbtree_erase` keeps `parent` pointing at the erased node when the successor is that node's right
  child (line 387). If the successor is black and childless, the fixup starts at an unlinked node.
  `EraseTwoExactly` says exactly when the result is still right; `EraseRootFails` is the smallest
  failing tree.
- `mpmc_ring_enqueue` says "full" when it returns false. With a stale head it also returns false when
  consumers have passed that head; `RefusedWhen` gives the exact condition and `RefusedWhileEmpty` a
  run that refuses on an empty ring.
- The heads of that ring are 32 bits wide. A producer that sleeps between its check and its
  compare-and-swap while exactly 2^32 tickets are claimed, and wakes up when the ring is full, overwrites
  an item; `Overrun` is such a run. `FreshExactly` says which compare-and-swaps take one head for another,
  and `RoomyExactly` which of those do harm: the ones that find no room.
- `patricia_insert_range_v6` on the whole address space inserts the single address `::/128` and reports
  success; `patricia_insert_range_v4` refuses its whole space. Every other range is handled as promised.
- `mbuf_trim` with a negative length leaves a view whose tail lies before its data, and `mbuf_pull` with a
  negative length beyond the headroom one whose data lies before its buffer.
- `mbuf_copy_bits` and `mbuf_header_pointer` take a negative offset, and then deliver headroom as if it
  were part of the packet.

## Model

| member | source | states |
|---|---|---|
| RbTree.FocusRotate | structure/rbtree.h:25-65 | a rotation turns the subtree at a node, and only it, wherever it hangs: the memory still holds one tree with consistent parent pointers |
| RbCode.Root.RotateLeft | structure/rbtree.h:25-44 | the stores of the left rotation amount to that rotation |
| RbCode.Root.RotateRight | structure/rbtree.h:46-65 | the mirror image |
| RbInsert.InsertStepRed | structure/rbtree.h:168-173 | red uncle: recolouring moves the only possible violation two levels up and keeps the in-order sequence |
| RbInsert.InsertStepOuter | structure/rbtree.h:178-186 | black uncle, outer grandchild: one rotation ends the repair, colours, black heights and order intact |
| RbInsert.InsertStepInner | structure/rbtree.h:174-186 | black uncle, inner grandchild: two rotations do |
| RbCode.Root.InsertFixupLeft | structure/rbtree.h:161-187 | one iteration under a left child computes the step of the memory model and the node to go on with |
| RbCode.Root.InsertFixupRight | structure/rbtree.h:189-218 | the mirror image |
| RbInsert.InsertFixupSound | structure/rbtree.h:222-239 | from a tree whose only fault is a red node under a red parent, the loop ends within the node's depth in a red-black tree with the same in-order sequence |
| RbCode.Root.InsertFixup | structure/rbtree.h:222-239 | the loop computes that repair and terminates |
| RbOrder.InsertSound | structure/rbtree.h:260-266 | attaching a node where the search ends and repairing gives a sorted red-black tree whose sequence is the old one with the node in its place |
| RbCode.Root.Insert | structure/rbtree.h:241-267 | NULL exactly for a key that is present, and then nothing changes; otherwise the tree is valid and its sequence is the old one with the node added |
| RbErase.EraseStepSound | structure/rbtree.h:271-349 | one iteration of the erase repair either ends it or moves the missing black one level up, never dereferences NULL, and keeps the in-order sequence |
| RbErase.EraseFixupSound | structure/rbtree.h:353-370 | from one missing black, started at the true parent, the loop ends in a red-black tree with the same in-order sequence |
| RbCode.Root.EraseFixupLeft | structure/rbtree.h:271-311 | one iteration computes that step, NULL dereferences included |
| RbCode.Root.EraseFixupRight | structure/rbtree.h:313-349 | the mirror image |
| RbCode.Root.EraseFixup | structure/rbtree.h:353-370 | the loop computes that repair and terminates |
| RbUnlink.SpliceFocus | structure/rbtree.h:418-432 | replacing a node by its only child leaves a consistent tree |
| RbUnlink.TransplantFocus | structure/rbtree.h:398-415 | the successor takes over the erased node's place, links and colour, and nothing else in the tree changes |
| RbUnlink.UnlinkTwo | structure/rbtree.h:379-415 | for every node with two children the unlink and transplant stage leaves one tree with consistent parent pointers, the successor in the erased node's place |
| RbUnlink.InorderTwo | structure/rbtree.h:379-415 | after that stage the in-order sequence is the old one without the erased node, whatever the colours |
| RbUnlink.EraseOne | structure/rbtree.h:416-436 | a node with at most one child is always erased correctly |
| RbStale.StaleDecides | structure/rbtree.h:387-435 | the repair started at the unlinked node succeeds exactly for a black right child whose left child is black and childless |
| RbStale.EraseTwoExactly | structure/rbtree.h:372-437 | with two children, erase leaves the red-black tree without exactly that node if and only if a condition on cells read before the call holds |
| RbStale.EraseOneAlways | structure/rbtree.h:372-437 | with at most one child the condition holds, and so does the result |
| RbStale.EraseRootFails | structure/rbtree.h:387-435 | the smallest failing input: erasing the root of three black nodes |
| RbCode.Root.UnlinkTwo | structure/rbtree.h:381-415 | the code's search, splice and transplant compute the unlink stage, and `parent` is what the successor's cell held before it |
| RbCode.Root.Erase | structure/rbtree.h:372-437 | the tree stays valid and loses exactly the node when the condition holds; otherwise a NULL is dereferenced or no such tree is left |
| RbCode.Root.First | structure/rbtree.h:69-79 | the first node in key order |
| RbCode.Root.Last | structure/rbtree.h:81-91 | the last node in key order |
| RbCode.Root.Next | structure/rbtree.h:93-110 | the successor in key order |
| RbCode.Root.Prev | structure/rbtree.h:112-129 | the predecessor in key order |
| RbOrder.SuccessorAt | structure/rbtree.h:93-110 | in key order the successor of an element is the next one, and the last one has none |
| RbOrder.PredecessorAt | structure/rbtree.h:112-129 | the predecessor is the one before, and the first one has none |
| RbOrder.PredecessorUndoesSuccessor | structure/rbtree.h:93-129 | going forward and then back returns to the same node, for every node but the last |
| RbCode.Root.ForEach | structure/rbtree.h:69-110 | walking next from first visits the in-order sequence |
| RbCode.Root.Find | structure/rbtree.h:133-152 | a node exactly when the key is present, after at most 2 log2(n + 1) comparisons |
| RbOrder.HeightLog | structure/rbtree.h:133-152 | the height of every red-black tree is at most 2 log2(n + 1) |
| Mpmc.CreateStarts | structure/mpmc.c:29-67 | creation succeeds exactly for powers of two from 8 on, and starts in the invariant with that capacity, no ticket claimed and all threads idle |
| Mpmc.StepKeeps | structure/mpmc.c:81-163 | every step of every thread keeps cons.tail <= cons.head <= prod.tail <= prod.head <= cons.tail + capacity and all that goes with it |
| Mpmc.RunKeeps | structure/mpmc.c:81-163 | so does every run |
| Mpmc.FirstInFirstOut | structure/mpmc.c:107-123 | the dequeue of ticket n takes what the enqueue of ticket n put |
| Mpmc.TicketsAreThreads | structure/mpmc.c:103-121 | claimed and unpublished tickets correspond one to one to the threads in the middle of an operation |
| Mpmc.NoSharedSlot | structure/mpmc.c:108-148 | no two of those threads, of either kind, use the same slot |
| Mpmc.FreshExactly | structure/mpmc.c:88-105 | a compare-and-swap can be fooled exactly when a positive multiple of 2^32 claims came since the load of its head |
| Mpmc.StepImage | structure/mpmc.c:88-121 | a step on 32-bit counters is the step on tickets, wrapped, if and only if it is not a compare-and-swap that takes one head for another |
| Mpmc.RunImage | structure/mpmc.c:81-163 | and so is a run without such a step |
| MpmcCalls.HoldsArgument | structure/mpmc.c:81-108 | on both word sizes and in every run, a thread inside an enqueue holds the pointer of the event that began the call |
| MpmcCalls.AcceptedIsSubmitted | structure/mpmc.c:81-123 | in every run, what is accepted is, in order, what was passed to the enqueues that returned true |
| MpmcCalls.SubmittedIsLog | structure/mpmc.c:81-163 | in ticket order, what was passed to the enqueues that returned true is the published part of the log, and what was delivered its beginning |
| MpmcWrap.RoomyExactly | structure/mpmc.c:81-163 | a step on 32-bit counters leads to a memory that some state in the invariant has if and only if it is not a compare-and-swap, true or fooled, that claims a ticket for which there is no room, or no item |
| MpmcWrap.WrapRunImage | structure/mpmc.c:81-163 | a run on 32-bit counters without such a claim is a run on tickets, wrapped, in which every claim takes the next ticket; what its callers have seen is the published part of the log |
| MpmcWrap.Linearized | structure/mpmc.c:81-163 | for the 32-bit code, any threads and any schedule without such a claim: delivered is a prefix of accepted, and accepted is what was passed to the enqueues that returned true |
| MpmcOverrun.Overrun | structure/mpmc.c:81-163 | a run with such a claim, from creation on, after which delivered is not a prefix of accepted |
| Mpmc.TestWasExact | structure/mpmc.c:95-105 | when the compare-and-swap succeeds, the uint32 test before it was the true comparison |
| Mpmc.RefusedExactly | structure/mpmc.c:95-98 | the test before the compare-and-swap, with an up-to-date head, ends the call exactly when the ring is full, and for a dequeue exactly when nothing is published |
| MpmcCalls.ReturnsOnly | structure/mpmc.c:88-162 | a call ends only by publishing its ticket or, with nothing changed, at that test for a head from which the ring looks full or empty; a lost race ends no call |
| MpmcCalls.LostRaceGoesRound | structure/mpmc.c:103-105 | a failed compare-and-swap changes nothing, and the call goes on with its argument and the head that is there; the same for a dequeue (lines 143-145) |
| Mpmc.RefusedWhen | structure/mpmc.c:95-98 | with any head, an enqueue is refused exactly when the ring was full at that head or the consumers have passed it, by a distance that modulo 2^32 is neither 0 nor above 2^32 minus the capacity |
| MpmcCalls.EmptyHandedWhen | structure/mpmc.c:131-140 | with any head, a dequeue comes back empty-handed from its test exactly when that head is prod.tail modulo 2^32 |
| Mpmc.RefusedWhileEmpty | structure/mpmc.c:88-98 | a run after which an enqueue is refused while the ring is empty |
| MpmcCalls.EnqueueAlone | structure/mpmc.c:81-123 | whenever there is room and no other ticket is in progress, a thread anywhere in an enqueue, running alone, returns true within seven steps, its pointer logged at prod.tail and nothing else published; only a head from which the ring looks full at the test is excepted |
| MpmcCalls.DequeueAlone | structure/mpmc.c:126-163 | whenever there is an item and no other ticket is in progress, a thread anywhere in a dequeue, running alone, returns true within seven steps and delivers the item of cons.tail, changing nothing else; only a head that is prod.tail modulo 2^32 at the test is excepted |
| Mpmc.FinishEnqueue | structure/mpmc.c:108-121 | the enqueue at prod.tail can always finish by its own steps |
| Mpmc.FinishDequeue | structure/mpmc.c:148-161 | the dequeue at cons.tail can always finish by its own steps |
| Mpmc.Drains | structure/mpmc.c:111-161 | from every reachable state all claimed operations can complete: no spin loop deadlocks |
| Cidr.BlockExpLargest | structure/patricia.c:616-624 | the block is aligned and fits, and the block twice as large is not or does not |
| Cidr.SplitChained | structure/patricia.c:614-642 | the blocks follow each other without gap or overlap from the first address to the last |
| Cidr.ChainedAscends | structure/patricia.c:614-642 | they are disjoint and ascend |
| Cidr.SplitCovers | structure/patricia.c:609-644 | they are CIDR blocks, and an address lies in the range if and only if it lies in one of them |
| Cidr.SplitBlocksMaximal | structure/patricia.c:616-624 | no larger CIDR block inside the range contains any of them |
| Cidr.SplitOptimal | structure/patricia.c:614-642 | no set of CIDR blocks with the same union has fewer members |
| Cidr.SplitShape | structure/patricia.c:614-642 | the block sizes strictly rise up to some index and strictly fall from there on |
| Cidr.SplitCount | structure/patricia.c:614-642 | a range other than the whole space needs at most 2w - 2 blocks |
| Cidr.SplitCountTight | structure/patricia.c:614-642 | the bound is reached in every width |
| Words.Compare128IsOrder | structure/patricia.c:646-653 | the comparison of word pairs orders 128-bit integers |
| Words.Diff128IsSub | structure/patricia.c:674-677 | the borrow is right |
| Words.Sum128IsAdd | structure/patricia.c:755-759 | the carry is right |
| Words.GrowMaskIsDouble | structure/patricia.c:708-709 | the two-word shift doubles a mask |
| Words.HalveIsDiv | structure/patricia.c:736-737 | the two-word shift halves a block |
| Words.Isolate64IsLowBit | structure/patricia.c:681-683 | `x & -x` on uint64 is the largest power of two dividing x |
| RangeSplit.BlockV4 | structure/patricia.c:616-624 | the block of the v4 loop is the greedy one |
| RangeSplit.ShiftV4 | structure/patricia.c:626-633 | the shift loop takes its logarithm |
| RangeSplit.InsertRangeV4 | structure/patricia.c:609-644 | inserts the greedy split of the range as network-order prefixes, in order, up to the first refusal; an inverted range and the whole space give -1 and nothing |
| RangeSplit.LoadAddress | structure/patricia.c:660-667 | sixteen bytes become the number they spell |
| RangeSplit.StoreAddress | structure/patricia.c:742-747 | and back |
| RangeSplit.LargestMask | structure/patricia.c:704-719 | the largest 2^j - 1 that does not exceed the difference |
| RangeSplit.AlignV6 | structure/patricia.c:679-700 | the alignment of the start as a block and as a mask, and what a zero start gives |
| RangeSplit.BlockV6 | structure/patricia.c:679-730 | the block of the v6 loop is the greedy one, except for the whole space, where it wraps to zero |
| RangeSplit.ShiftV6 | structure/patricia.c:732-740 | the shift loop takes its logarithm, 0 for a wrapped block |
| RangeSplit.InsertRangeV6 | structure/patricia.c:655-762 | inserts the greedy split over plain 128-bit integers for every range but the whole space, where it inserts ::/128 |
| RangeSplit.V6CoversExactly | structure/patricia.c:655-762 | what is inserted covers exactly the range if and only if the range is not the whole space |
| RangeSplit.V4FirstLength | structure/patricia.c:633-637 | a prefix length of 0 comes up exactly for the whole space |
| PrefixMatching.BitTestIsBit | structure/patricia.h:110-111 | BIT_TEST appends the next bit, most significant first |
| PrefixMatching.FindFirstDiffBit | structure/patricia.c:85-94 | the first differing bit within both lengths; the smaller length exactly when prefix_match holds |
| PrefixMatching.PrefixMatchIsTopBits | structure/patricia.c:68-83 | the byte-and-mask comparison compares, as numbers, the bits before the smaller length, for keys of any lengths |
| PrefixMatching.BitsAreTopBits | structure/patricia.c:85-94 | equal first bits, one by one, are equal numbers |
| PrefixMatching.PrefixMatchIsBits | structure/patricia.c:68-94 | prefix_match holds exactly when no bit before both lengths differs, for keys of any lengths |
| PrefixMatching.InIsTopBits | structure/patricia.c:68-83 | an address lies in a block exactly when the first bits agree |
| PrefixMatching.StoredKeySuffices | structure/patricia.c:60-62 | the truncated key a node stores matches like the whole one, whichever of the two lengths is smaller |
| PrefixMatching.RangeMatches | structure/patricia.c:68-94 | an address lies in [start, end] if and only if prefix_match holds against an emitted block |
| PrefixMatching.ApplyCidrMask | structure/patricia.c:527-543 | in place, the key is rounded down to its block base and nothing behind it changes; a length beyond the key changes nothing |
| PacketHeap.AllocKeeps | coding/packet.c:50-64 | a new view and a new buffer keep every count exact |
| PacketHeap.ShareKeeps | coding/packet.c:119-132 | so does another view of a buffer |
| PacketHeap.DropKeeps | coding/packet.c:41-45 | so does freeing a view, and its buffer with the last one |
| PacketHeap.UnshareKeeps | coding/packet.c:70-83 | so does copying a shared buffer, and no view shows other bytes afterwards |
| PacketHeap.WriteKeeps | coding/packet.c:95-97 | a write behind the tail of an unshared buffer appends to that view and is invisible to every other |
| PacketHeap.LiveWhileViewed | coding/packet.c:39-47 | a buffer lives exactly while some view points at it, and its count is the number of those views |
| PacketHeap.CountsDetermined | coding/packet.c:151-156 | the views and the bytes determine every count, so that undoing the views undoes the counts |
| Packet.PacketMemory.Alloc | coding/packet.c:50-64 | a new empty packet with the asked tailroom and 128 bytes of headroom; all others unchanged |
| Packet.PacketMemory.FreeChain | coding/packet.c:39-47 | exactly the views of the chain go, and each buffer with its last view |
| Packet.PacketMemory.Free | coding/packet.c:39-47 | exactly that packet disappears; NULL is let through |
| Packet.PacketMemory.EnsureWritable | coding/packet.c:67-84 | afterwards no other view looks at the buffer; no packet's bytes change, and an unshared buffer is left alone |
| Packet.PacketMemory.Append | coding/packet.c:86-107 | the packet's bytes become old bytes followed by the first len bytes of the buffer; every other packet, clones included, keeps its bytes; pkt_len stays the total; only as many fragments are added as the bytes that do not fit need |
| Packet.PacketMemory.CloneOne | coding/packet.c:113-133 | one more view of the same buffer, counted, or nothing at all when malloc fails |
| Packet.PacketMemory.Clone | coding/packet.c:136-167 | the clone has the same bytes through the same buffers; NULL exactly for NULL or when there are fewer successful mallocs than fragments, and then every view and count is as before |
| Packet.PacketMemory.Seek | coding/packet.c:182-186 | the fragment that holds the offset, on any layout, empty fragments included; for a negative offset the first one |
| Packet.PacketMemory.CopyBits | coding/packet.c:176-206 | 0 exactly when the offset is before the end and the range does not run over it; what is stored is the range, cut at the end, of the packet with as much headroom in front as a negative offset says |
| Packet.PacketMemory.HeaderPointer | coding/packet.c:211-232 | NULL exactly when the range runs over the end; a pointer exactly when one fragment holds the range, into the headroom exactly for a negative offset; the bytes are those of the range |
| Packet.PacketMemory.Pull | coding/packet.c:237-249 | refuses exactly more than the first fragment holds; otherwise drops the prefix, or takes headroom back for a negative length; the result is well formed if and only if the headroom suffices |
| Packet.PacketMemory.Trim | coding/packet.c:254-283 | keeps exactly the first new_len bytes, frees the rest, touches no other packet, and changes nothing when there is nothing to cut; the result is well formed if and only if new_len is not negative |
| SkipShape.LevelsAre | structure/skiplist.h:66-82 | the chain that level i links holds exactly the nodes taller than i, ascends strictly, contains the level above, and is empty exactly from list->level on |
| SkipSteps.LinkStep | structure/skiplist.h:222-231 | the two stores that link a node into one level complete that level and leave the others alone |
| SkipSteps.UnlinkStep | structure/skiplist.h:274-285 | unlinking a node from one level likewise |
| SkipSteps.FindScanIs | structure/skiplist.h:112-137 | a linear scan finds the node at the key's rank, if it has the key |
| SkipSteps.FindLeScanIs | structure/skiplist.h:145-170 | a linear scan for the last key not above finds that node or the one before |
| SkipList.List.IsEmpty | structure/skiplist.h:43-46 | true exactly when level 0 has no node |
| SkipList.List.First | structure/skiplist.h:66-69 | the first node of level 0 |
| SkipList.List.Last | structure/skiplist.h:83-98 | the descent ends at the last node of level 0 |
| SkipList.List.Next | structure/skiplist.h:100-103 | the next node of level 0 |
| SkipList.List.Prev | structure/skiplist.h:105-108 | the previous one: the inverse of next |
| SkipList.List.Find | structure/skiplist.h:112-137 | the same node as a linear scan of level 0, for any heights; a node exactly when the key is present |
| SkipList.List.FindLe | structure/skiplist.h:145-170 | the same node as a linear scan of level 0: the greatest key that is not above |
| SkipList.List.Search | structure/skiplist.h:191-206 | on every level the last node before the key's rank |
| SkipList.List.Insert | structure/skiplist.h:174-240 | NULL exactly for a key that is present, and then nothing changes; otherwise the list is the old one with the node at its rank, heights kept, all levels, prev and list->level right |
| SkipList.List.Erase | structure/skiplist.h:248-297 | the list is the old one without exactly that node, all levels, prev and list->level right |
| SkipList.RandomLevel | structure/skiplist.h:54-62 | one more than the leading heads among the draws, from 1 to the maximum |
| PoolProof.StepKeeps | coding/pool.c:79-289 | every step of any number of threads, and every write of a caller to what it holds, keeps the invariant of the pool |
| PoolProof.RunKeeps | coding/pool.c:79-289 | so does every run |
| PoolProof.HeadingKeeps | coding/pool.c:148-154 | the splice keeps it although the cache's count is lowered only later |
| PoolProof.TakingKeeps | coding/pool.c:183-189 | so does every fetch of a refill |
| PoolProof.ReturningKeeps | coding/pool.c:270-272 | after a refill the caller gets the object in the top slot, which no caller had: mp_alloc never returns NULL |
| PoolCalls.AllocGives | coding/pool.c:265-268 | from a cache that has something the caller gets the object in the top slot, which no caller had, the count falls by one, and nothing else changes |
| PoolCalls.AllocRefills | coding/pool.c:164-191 | with an empty cache, up to 32 objects move from the head of the free list into the cache, in order, and the caller gets the last of them |
| PoolCalls.AllocWaits | coding/pool.c:164-181 | with an empty cache and an empty list the thread waits without the lock, and nothing is changed |
| PoolCalls.WaiterServed | coding/pool.c:169-191 | a thread that has waited gets an object once there is one |
| PoolCalls.FreeCaches | coding/pool.c:282-285 | with room in the cache, mp_free takes the object from its caller into the top slot, and the next mp_alloc returns it |
| PoolCalls.FreeFlushes | coding/pool.c:128-154 | with a full cache the upper 256 of the 512 objects go to the head of the free list, in order, the freed object lies on top of the lower 256, and the next mp_alloc returns it |
| PoolCalls.ExitReturns | coding/pool.c:79-118 | a thread that ends puts its whole cache in front of the free list, in order, and changes nothing else |
| PoolCalls.ThreadBegins | coding/pool.c:196-209 | a new thread has an empty cache of 512 slots, and nothing else changes |
| PoolCalls.CallerWrites | coding/pool.c:42-44 | a caller may overwrite an object it holds, the place of its link included |
| PoolLaws.OnePlace | coding/pool.c:79-289 | every object is in exactly one place: one height of the free list, one slot of one cache, one call's hand, or with a caller |
| PoolLaws.ListEnds | coding/pool.c:99-103 | the free list is acyclic |
| PoolLaws.CountsBounded | coding/pool.c:282-288 | a cache's count stays within 0..512, also at every store into the array |
| PoolLaws.OneHolder | coding/pool.c:148-191 | at most one thread is between lock and unlock |
| PoolLaws.SpliceReturns | coding/pool.c:90-102 | a flush or an exit puts exactly the objects it gives back in front of the free list, in order |
| PoolLaws.ExitedKeepsNothing | coding/pool.c:79-118 | a thread that has exited keeps no object |
| PoolLaws.AllHome | coding/pool.c:79-118 | once all threads have exited and no caller holds anything, the free list is the whole pool |
| PoolLaws.HistoryUnused | coding/pool.c:79-289 | no step depends on what the proofs remember |
| PoolLaws.Create | coding/pool.c:215-249 | creation starts in the invariant with all objects free |
| PoolCalls.CreatedList | coding/pool.c:239-246 | creation leaves the objects on the free list from the last one down, 2048 bytes apart |
| PoolLaws.StepObjects | coding/pool.c:79-289 | no step makes or loses an object |
| PoolLaws.PoolKeeps | coding/pool.c:79-289 | after creation and any run the pool has exactly its objects, each in one place, no cache overflows, one thread at most holds the lock, and when everybody has exited all objects are on the free list |
| Fifo.MaskIsSlot | structure/ringbuf.h:101-114 | masking a counter takes it round the array |
| Fifo.WrapWindow | structure/ringbuf.h:74-77 | a wrapped 32-bit counter names the same entries |
| RingBufs.RingBuf.constructor | structure/ringbuf.h:57-65 | an empty ring |
| RingBufs.RingBuf.Push | structure/ringbuf.h:96-106 | refused exactly when full; otherwise the pointer is the new last entry |
| RingBufs.RingBuf.Pop | structure/ringbuf.h:108-118 | NULL and no change when empty; otherwise the first entry, removed |
| RingBufs.RingBuf.Peek | structure/ringbuf.h:120-129 | the first entry, or NULL |
| RingBufs.RingBuf.Len | structure/ringbuf.h:74-77 | the number of entries, across the wrap-around |
| RingBufs.RingBuf.FreeCount | structure/ringbuf.h:79-82 | the number of free slots |
| RingBufs.RingBuf.IsEmpty | structure/ringbuf.h:84-87 | no entries |
| RingBufs.RingBuf.IsFull | structure/ringbuf.h:89-92 | as many entries as slots |
| ObjPools.ObjPool.constructor | structure/objpool.h:27-43 | every object of the slab is free, in order |
| ObjPools.SlabLayout | structure/objpool.h:39-42 | the objects of the slab follow one another from its start to its end without gap or overlap |
| ObjPools.ObjPool.Acquire | structure/objpool.h:69-79 | NULL when none is free; otherwise the first free object, removed |
| ObjPools.ObjPool.Release | structure/objpool.h:81-94 | refused exactly when full; otherwise the object is the last free one |
| ObjPools.ObjPool.Available | structure/objpool.h:52-55 | the number of free objects |
| Pipeline.StartOk | structure/ringbuf_example.c:132-142 | the initial state of the two threads is in the invariant |
| Pipeline.StepKeeps | structure/ringbuf_example.c:48-130 | every step of either thread keeps it |
| Pipeline.RunKeeps | structure/ringbuf_example.c:48-130 | so does every interleaving |
| PipelineLaws.OnePlace | structure/ringbuf_example.c:48-130 | every packet is in exactly one of pool, producer, ring and consumer |
| PipelineLaws.NeverFull | structure/ringbuf_example.c:67-111 | a push never finds the ring full and a release never finds the pool full |
| PipelineLaws.InOrder | structure/ringbuf_example.c:101-108 | no reordering is ever counted |
| PipelineLaws.ReorderCounted | structure/ringbuf_example.c:102-108 | in any state, a packet is counted as out of order exactly when its number is not the expected one |
| PipelineLaws.NoDeadlock | structure/ringbuf_example.c:55-60 | the producer waits for a packet only while one is on its way to it |
| PipelineLaws.Finishes | structure/ringbuf_example.c:48-130 | from every reachable state some schedule takes the consumer to its end |
| PipelineLaws.AllDelivered | structure/ringbuf_example.c:95-127 | when the consumer exits it has received every item and every packet is in the pool |
| PipelineLaws.StepImage | structure/ringbuf.h:74-106 | a step on 32-bit counters is the step on unbounded ones, wrapped |
| PipelineLaws.RunImage | structure/ringbuf_example.c:48-130 | and so is a run |
| PipelineLaws.ProgramDelivers | structure/ringbuf_example.c:48-170 | the same for the 32-bit program, any capacity, any number of items, any interleaving |
| PipelineLaws.ProgramFinishes | structure/ringbuf_example.c:48-170 | after any beginning of the 32-bit program some continuation ends it, with every item received |
| Ipv6Walk.GetIpv6FinalNextHeader | structure/check_ip.c:28-114 | the loop terminates and computes the walk |
| Ipv6Walk.TurnOnTheWire | structure/check_ip.c:37-113 | one turn of the loop, for each of the 256 protocol numbers, by the literal numbers and lengths of the standards |
| Ipv6Walk.AnswerOnTheWire | structure/check_ip.c:28-114 | the answer by the bytes of the packet: byte 6 announces what follows the first 40 bytes |
| Ipv6Walk.WalkPrinted | structure/check_ip.c:37-113 | over a printed chain the walk ends at its upper protocol, behind its last byte |
| Ipv6Walk.ReadAll | structure/check_ip.c:37-113 | whatever the walk accepts is a printed chain |
| Ipv6Walk.ChainAccepted | structure/check_ip.c:28-48 | a packet that is a base header, a chain and anything gets the chain's upper protocol and total length |
| Ipv6Walk.AnsweredExactly | structure/check_ip.c:28-114 | an answer other than 0xFF exactly for those packets, and with exactly that protocol and length; a failure stores nothing |
| Ipv6Walk.LengthExact | structure/check_ip.c:47 | below 2 GiB the cast to int changes nothing |
| Ipv6Walk.OneReading | structure/check_ip.c:37-113 | no buffer is two chains |

## Left out

- Tree placement and longest-prefix answers of `structure/patricia.c` (`patricia_insert`,
  `patricia_delete`, `patricia_lpm`, `patricia_search`): a shorter prefix can be placed below a longer
  one (lines 264-288), so that longest-match claims would not describe the code. The range routines see
  `patricia_insert` as appending a prefix, or refusing it, and are never given a NULL argument.
- Address and rule strings, global tables, rule ownership: library calls and plumbing.
- Weak memory orders, barriers, padding, pausing: the threads are sequentially consistent.
- `coding/pool.c`: `waiters`, the condition variable and its mutex. A waiting thread may wake at any
  moment, so that only safety is claimed; a signal sent between lines 170 and 175 is not seen by the code.
- Packet.PacketMemory.Alloc: the code does not check malloc, and the model's malloc succeeds; Clone checks
  it, and its malloc may fail.
- Packet.PacketMemory.EnsureWritable: the same.
- Packet.PacketMemory.CopyBits: an offset before the start of the first fragment's buffer, where the code
  would read foreign memory. The same for HeaderPointer.
- Packet.PacketMemory.Append: lengths and pkt_len are unbounded integers, here and in the other packet
  routines.
- Mpmc.RunImage: assumes that no compare-and-swap of the run takes one head for another;
  MpmcWrap.WrapRunImage does not.
- MpmcWrap.Linearized: assumes that no claim of the run goes beyond the room in the ring, which only a
  compare-and-swap after a multiple of 2^32 claims can do; MpmcOverrun.Overrun shows that the assumption
  cannot be dropped.
- SkipList.List.Insert: a height below 1, which the caller is told not to set, would link the node into no
  level and is not modelled.
- `structure/rbtree.h`: `rbtree_replace`, three stores per neighbour.
- malloc, mmap and pthread internals, destruction, printing, benchmarks, `main` functions, pointer
  arithmetic between a node and its owner.
- IPv4 parsing and port extraction in `structure/check_ip.c`: fixed offsets.
- `coding/table.c`, `coding/tiered_table.c`, `coding/ringbuffer.c`, `structure/dlist.h`, the macro
  headers and the other example programs: easier relatives of what is modelled.
