# Incudine core structures in Dafny

Incudine is a real-time audio environment. Its schedulers, queues, allocator and
codecs are small mutable structures whose correctness depends on an invariant of the
whole structure. This project models the hardest of them and proves those invariants,
in Dafny 4.11. `dafny verify dfyconfig.toml` checks everything.

| part | files | form of the model |
|---|---|---|
| TLSF allocator | `TlsfMapping`, `TlsfBits`, `TlsfLayout`, `TlsfLists`, `TlsfFrames`, `TlsfSteps`, `Tlsf`, `Sets` | class `Tlsf` over a memory of words with in-place headers, links and bitmaps |
| node graph | `GraphShape`, `GraphLinks`, `Graph` | class `Graph`, one map per node field |
| EDF scheduler | `EdfOrder`, `EdfHeap`, `EdfSearch`, `EdfCancel`, `EdfPlay`, `EdfPour`, `EdfOthers`, `EdfScheduler` | class `Heap` over an array; the pour protocol as a state machine and as class `Scheduler` on two heaps |
| integer hash table | `HashShape`, `HashTable` | class `Table` over an array |
| byte ring buffer | `RingSteps`, `RingBuffer` | state machine of atomic steps; class `RingBuffer` over an array |
| function FIFOs | `FifoQueue`, `FifoRelay` | class `FunctionFifo`; state machine of the two-hop relay |
| MIDI track codec | `MidiVlq`, `MidiTrack`, `MidiFile` | classes `TrackWriter` and `TrackReader`, each proved against a function |
| SLIP and OSC resize | `Slip`, `OscResize` | array methods proved against functions |
| shared | `PowersOfTwo`, `Cyclic`, `Bytes`, `Numbers` | functions and lemmas |

Each class carries a ghost abstraction (the blocks of the area, the list of nodes in
pre-order, the ordered queue of events). Its methods state the exact new abstraction;
lemmas on plain values prove what the abstraction means. Large predicates are hidden
with `hide` where a proof only passes them on.

## What is proved

* **Allocator.** Every operation keeps the blocks tiling the area up to the sentinel,
  coalesced, with true boundary tags, and keeps the free lists and both bitmap levels
  an exact index of the free blocks. An allocation fails exactly when no free block
  reaches the size of the class that is searched, and otherwise takes a block that no
  other one of that size would have fitted better by one part in 32. Live buffers are
  disjoint and keep their contents; a reallocation stays in place exactly if it can,
  gives back all that could be a block, and keeps the common prefix. `used_size` follows
  the live buffers and adds up with the cost of the free blocks to the same number.
* **Graph.** After any mix of additions, new groups and leaf removals, `next` and
  `prev` list the tree in pre-order, `last` is the last direct member, and the chain of
  conses that a tick runs is exactly the leaves in pre-order. What each operation does
  to the members of every group is stated separately from the list encoding.
* **Scheduler.** The heap is a stable priority queue for every interleaving of
  schedule-at and get-heap, although insertion compares times only and the tags
  restart; pruned searches agree with full scans; removal from the middle takes out
  exactly the chosen entry. The scheduling loop calls every event of others once, in
  order, never more than half a sample early, and leaves none that is due. The pour
  protocol runs every event of the temporary heap once, in order, exactly at its own
  tick, and calls its end action once, for all interleavings with other events, also
  between the calls that pour-on-rt-heap makes; the guarantee is stated for the two
  heaps of class `Scheduler`, whose methods keep a trace of steps.
* **Hash table.** Deletion without tombstones leaves the old map minus the key, with
  every other key still found by probing.
* **Queues.** For every interleaving, the ring buffer delivers a prefix of what it
  accepted, and relayed functions run in the order in which the lock was granted; one is
  dropped exactly when a FIFO has no room for it, and everything else on its way can
  always arrive. On an event heap that others use as well, relayed events of one time
  keep that order.
* **Codecs.** Round trips for variable-length quantities, tracks and SLIP frames on
  all inputs, with the bytes written spelled out, and the exact effect of resizing an
  OSC value in place.

Where a law speaks of what happens while nothing is full, "room" is a condition on every
step of the run (`RoomThroughout`, `RoomForAll`), and a lemma says that something is lost
exactly if it fails.

## Where the code and its own words differ

* The variable-length reader accepts five bytes, although its error message speaks of
  more than four: a quantity survives exactly if it is below 2^35
  (`MidiVlq.VlqRoundTrip`), and a track exactly if all its deltas are
  (`MidiTrack.TrackRoundTrip`, `MidiTrack.LongDeltaFails`).
* `osc_slip_decode` has a comment about skipping initial END characters; only the one at
  index 0 is skipped. Behind `k` of them, `k` at least 1, a message comes back exactly if
  `k` is 1 or the message is empty, because the second one ends it. Without any, a
  message is accepted unless it is empty: a lone END counts as the initial one, and the
  next message is decoded in its place (`Slip.LeadingEnds`, `Slip.NextMessage`).
* `unschedule-if` promises to cancel the events that satisfy the test. It cancels none
  exactly if there is none, and all of them if at most eleven events are pending
  (`EdfHeap.Heap.UnscheduleIf`); with twelve it can leave one, because the index at
  which it goes on is a depth (`EdfCancel.TwelveMissOne`).
* Adding a node after the root is not refused: the node is linked behind the last one,
  and only then the missing parent is an error (`NodeGraph.Graph.AddNodeAfter`).

## Model

| member | source | states |
|---|---|---|
| TlsfMapping.MsBitOf | contrib/tlsf/src/tlsf.c:256-299 | the table lookups of ms_bit find the exponent of the power of two just at or below the word |
| TlsfMapping.InsertClass | contrib/tlsf/src/tlsf.c:331-341 | MAPPING_INSERT gives a valid class whose lower bound the size reaches |
| TlsfMapping.InsertBetween | contrib/tlsf/src/tlsf.c:331-341 | the size lies between the lower bound of its class and that of the next class |
| TlsfMapping.ClassOrder | contrib/tlsf/src/tlsf.c:331-341 | a block reaches the lower bound of a class exactly if its own class is that class or a later one |
| TlsfMapping.SearchFit | contrib/tlsf/src/tlsf.c:311-329 | the size MAPPING_SEARCH returns is the lower bound of the class it returns, covers the request, and exceeds it by less than one part in 32 |
| TlsfMapping.SearchLeast | contrib/tlsf/src/tlsf.c:311-329 | no smaller size that covers the request is the lower bound of its own class |
| TlsfMapping.ClassWidth | contrib/tlsf/src/tlsf.c:331-341 | a block exceeds another one of its class or a later class by less than one part in 32 |
| TlsfMapping.SearchAligned | contrib/tlsf/src/tlsf.c:311-329 | rounding for the search keeps multiples of 16 |
| TlsfAllocator.GoodFit | contrib/tlsf/src/tlsf.c:697-712 | a request is covered by its rounded size and that by the size searched for, within one part in 32 |
| TlsfAllocator.RoundedUp | contrib/tlsf/src/tlsf.c:705 | the rounded request is the least multiple of the alignment that covers it, but no less than the smallest block |
| TlsfBits.SearchWord | contrib/tlsf/src/tlsf.c:283-290 | masking and ls_bit find the least set bit at or above an index, or show that there is none |
| TlsfBits.SetBitAdds | contrib/tlsf/src/tlsf.c:301-304 | on the set of bits of a word, set_bit adds one element |
| TlsfBits.ClearBitRemoves | contrib/tlsf/src/tlsf.c:306-309 | clear_bit takes one element away |
| TlsfBits.FromBitKeeps | contrib/tlsf/src/tlsf.c:344-360 | the search mask keeps the elements from an index on |
| TlsfBits.ZeroIsEmpty | contrib/tlsf/src/tlsf.c:363-375 | a word is zero exactly if its set is empty |
| TlsfBits.LsBitFinds | contrib/tlsf/src/tlsf.c:283-290 | ls_bit gives the least element of the set |
| TlsfAllocator.Tlsf.FindSuitableBlock | contrib/tlsf/src/tlsf.c:344-360 | the head of the first non-empty list at or above the class; NULL exactly if all of them are empty |
| TlsfAllocator.Tlsf.ExtractBlockHdr | contrib/tlsf/src/tlsf.c:363-375 | the head leaves its list, the rest of it stays, and lists, links and both bitmap levels stay an exact index of the other free blocks |
| TlsfAllocator.Tlsf.ExtractBlock | contrib/tlsf/src/tlsf.c:377-392 | the same for a block anywhere in its list |
| TlsfAllocator.Tlsf.InsertBlock | contrib/tlsf/src/tlsf.c:394-402 | a block becomes the head of its list, in front of the others, and the index includes it |
| TlsfLists.Extracted | contrib/tlsf/src/tlsf.c:363-392 | taking a block off its list keeps all lists well linked and the index exact |
| TlsfLists.Inserted | contrib/tlsf/src/tlsf.c:394-402 | putting a block on its list keeps all lists well linked and the index exact |
| TlsfAllocator.Tlsf.constructor | contrib/tlsf/src/tlsf.c:430-502 | one free block fills the area but for less than two alignments, the structure is whole, and the counters add up to the pool size and one header |
| TlsfAllocator.Tlsf.MallocEx | contrib/tlsf/src/tlsf.c:697-756 | NULL exactly if no free block reaches the size searched for; else the head of the first list from there on becomes a live buffer of that size, or of its own if the rest could not be a block. No free block that reaches the size is in an earlier class, or smaller by one part in 32. All other buffers and contents are kept, and the counters are exact |
| TlsfAllocator.Tlsf.FreeEx | contrib/tlsf/src/tlsf.c:759-795 | exactly this buffer leaves the live ones, neighbours are merged, contents of others are kept, and the counters are exact |
| TlsfAllocator.Tlsf.ReallocEx | contrib/tlsf/src/tlsf.c:798-882 | on every path the old buffer is replaced by one that has room and starts with the old contents. It is the same block exactly if that is large enough, alone or with a free successor, and then cut to the request; else a best fit as in MallocEx. Failure changes nothing and happens exactly if neither is possible. The counters are exact |
| TlsfAllocator.Tlsf.Shrink | contrib/tlsf/src/tlsf.c:822-845 | shrinking in place cuts the buffer to the request, merging the rest with a free successor, unless the rest could not be a block |
| TlsfAllocator.Tlsf.Grow | contrib/tlsf/src/tlsf.c:846-869 | growing takes over the free successor and cuts the buffer to the request, unless the rest could not be a block |
| TlsfAllocator.Tlsf.WriteUser | contrib/tlsf/src/tlsf.c:697-756 | whatever the user writes inside a live buffer leaves the structure whole and all other buffers alone |
| TlsfLayout.SplitTiles | contrib/tlsf/src/tlsf.c:738-747 | cutting a block keeps the blocks tiling the area |
| TlsfLayout.MergeTiles | contrib/tlsf/src/tlsf.c:776-788 | merging a block with its successor keeps the blocks tiling the area |
| TlsfSteps.SplitTagged | contrib/tlsf/src/tlsf.c:738-747 | after a cut every boundary tag is true again |
| TlsfSteps.SearchFailed | contrib/tlsf/src/tlsf.c:344-360 | empty lists from a class on mean that no free block reaches the size searched for |
| TlsfSteps.SearchFound | contrib/tlsf/src/tlsf.c:344-360 | the head of a list at or above the class is a free block that is large enough |
| TlsfSteps.FoundFits | contrib/tlsf/src/tlsf.c:344-360 | a member of the first list that is not empty is a best fit |
| TlsfSteps.LiveDisjoint | contrib/tlsf/src/tlsf.c:697-756 | two live buffers never overlap |
| TlsfFrames.FreeSumSplit | contrib/tlsf/src/tlsf.c:87-96 | the cost of the free blocks after a cut |
| TlsfFrames.FreeSumMerge | contrib/tlsf/src/tlsf.c:87-96 | the cost of the free blocks after a merge |
| GraphShape.AddedMember | src/graph.lisp:645-739 | the group of a new node gets it at its head, at its tail, or right before or after the target, between its other members |
| GraphShape.AddedElsewhere | src/graph.lisp:645-739 | every other group keeps its members |
| GraphShape.AddedEmpty | src/graph.lisp:326-393 | a new node has no members |
| GraphShape.FreedMember | src/graph.lisp:1005-1017 | a freed leaf leaves its group, and all groups keep their other members in order |
| GraphShape.InsPar | src/graph.lisp:645-739 | no node changes its group when another one is added |
| GraphShape.EndOfLast | src/graph.lisp:610-616 | a group ends where its last member ends |
| GraphLinks.WovenAt | src/graph.lisp:46-94 | in the invariant, next and prev are the neighbours in pre-order, parent the enclosing group, and last the last direct member |
| GraphLinks.AddWoven | src/graph.lisp:645-739 | the link updates of an addition keep next, prev, parent and last true for the new tree |
| GraphLinks.DelWoven | src/graph.lisp:973-1017 | the link updates of freeing a leaf keep them true for the tree without it |
| GraphLinks.LastChoice | src/graph.lisp:645-739 | the new node becomes the last member exactly in the cases in which the source sets the field |
| GraphLinks.DelChained | src/graph.lisp:973-987 | after freeing a leaf, setting the funcons of the node before it repairs the chain from there on, and completely if that node is a leaf |
| NodeGraph.Graph.UpdatePreviousFuncons | src/graph.lisp:287-301 | walking back from a node behind which the chain is right makes the whole chain right |
| NodeGraph.Graph.FindLastNode | src/graph.lisp:610-616 | the last node inside a group at any depth |
| NodeGraph.Graph.AddNodeToHead | src/graph.lisp:645-667 | a leaf is added at the head of a group, refused elsewhere; links and chain are whole |
| NodeGraph.Graph.AddNodeToTail | src/graph.lisp:669-701 | a leaf is added at the tail of a group, empty or not |
| NodeGraph.Graph.AddNodeBefore | src/graph.lisp:703-720 | a leaf is added before any node but the root |
| NodeGraph.Graph.AddNodeAfter | src/graph.lisp:722-739 | a leaf is added after a node with all its members; after the root, the tree stays and the node hangs behind the last one without a parent |
| NodeGraph.Graph.NodeAdd | src/graph.lisp:761-802 | full graph, missing target, missing parent, existing node and the four actions: when each outcome comes and the new tree, with the whole invariant, or with the stray node if the parent is missing |
| NodeGraph.Graph.MakeGroupBefore | src/graph.lisp:326-355 | an empty group is put before a node; the chain of functions stays whole |
| NodeGraph.Graph.MakeGroupHead | src/graph.lisp:365-379 | an empty group is put at the head of a group; the chain of functions stays whole |
| NodeGraph.Graph.NodeFree | src/graph.lisp:1028-1055 | freeing a leaf removes exactly it from the tree, with links and chain whole |
| NodeGraph.Graph.UnlinkParent | src/graph.lisp:1005-1017 | the group gets the member before as last one, found by climbing, or becomes empty |
| NodeGraph.Graph.ComputeTick | src/rt.lisp:166-185 | the functions that run are those of all leaves in pre-order |
| NodeGraph.AddedLeaves | src/graph.lisp:645-739 | an added leaf is run behind the leaves before its place, and all others as before |
| EdfOrder.RootLeast | src/edf-sched.lisp:128-131 | in a heap no node is before the root |
| EdfOrder.QueueInsert | src/edf-sched.lisp:134-155 | with a fresh tag, stable insertion by time alone keeps the queue strictly ordered by time and tag |
| EdfOrder.ScheduledStable | src/edf-sched.lisp:134-155 | any series of calls gives a queue sorted by time, with the events of each time in calling order and nothing lost or added |
| EdfOrder.ThinnedSpares | src/edf-sched.lisp:405-433 | a thinned queue still holds every spared event, in order |
| EdfPlay.PlayStable | src/edf-sched.lisp:134-212 | for every series of schedule-at and get-heap, refused events included: the events of each time are taken and pending in the order of the calls, nothing is lost or added, and what is pending is in the order of times |
| EdfPlay.RefusedIff | src/edf-sched.lisp:134-155 | an event is refused exactly when the heap is full, and the others are accepted in the order of the calls |
| EdfPlay.PlayAll | src/edf-sched.lisp:134-212 | on a heap that is never full, each time has the events of before and those scheduled since, in this order, taken or pending |
| EdfPlay.PlayIsSorted | src/edf-sched.lisp:134-212 | if nothing is scheduled before an event that was taken, it does not matter when the gets come: the order is that of a heap filled with everything first |
| EdfHeap.Heap.ScheduleAt | src/edf-sched.lisp:134-155 | the event goes behind all pending ones that are not later; a full heap drops it |
| EdfHeap.Heap.GetHeap | src/edf-sched.lisp:187-212 | the first pending event is taken; an empty heap gives the dummy node |
| EdfHeap.Heap.PendingInTime | src/edf-sched.lisp:128-155 | the queue that a valid heap stands for is in the order of times |
| EdfHeap.Heap.DeleteEvent | src/edf-sched.lisp:373-403 | exactly the chosen entry leaves the queue, the heap order is restored, and the array is the one the two loops leave |
| EdfHeap.Heap.UnscheduleIf | src/edf-sched.lisp:405-433 | terminates; only events that satisfy the test and are not crucial are dropped, the others keep their order; the queue is unchanged exactly if there is no such event, and none is left if at most eleven were pending |
| EdfCancel.DeletedHeap | src/edf-sched.lisp:373-403 | the array that delete-event leaves is a heap for the queue without the entry |
| EdfCancel.DeletesSome | src/edf-sched.lisp:405-433 | the loop deletes nothing exactly if no node is to be cancelled |
| EdfCancel.SecondStays | src/edf-sched.lisp:373-403 | in a heap of at most eleven nodes, deleting a node of the last level leaves node 2 where it is |
| EdfCancel.DeletesAll | src/edf-sched.lisp:405-433 | with at most eleven nodes the loop leaves none that is to be cancelled, whatever the test |
| EdfCancel.TwelveMissOne | src/edf-sched.lisp:425-433 | twelve nodes of which one that satisfies the test stays |
| EdfHeap.Heap.NextTime | src/edf-sched.lisp:239-275 | the least time of the pending events with the wanted function from the start time on; zero if there is none |
| EdfHeap.Heap.LastTime | src/edf-sched.lisp:277-290 | the time of the last pending event; of node 0 if there is none |
| EdfSearch.SearchIsScan | src/edf-sched.lisp:254-275 | the search that stops at the first match on each path agrees with a full scan |
| EdfSearch.LaterInScan | src/edf-sched.lisp:285-290 | every node has one at least as late from the computed start index on |
| EdfSearch.ScanFindsLast | src/edf-sched.lisp:277-290 | the maximum from the start index on is the time of the last event of the queue |
| EdfPour.StepKeeps | src/edf-sched.lisp:511-556 | every step of the pour protocol, of the tick and of others keeps its invariant, with others scheduling also while pour-on-rt-heap is not done |
| EdfPour.PouredInOrder | src/edf-sched.lisp:530-556 | for every run with room: the events of the temporary heap run in order, each at its time plus the offset or at the first tick if that is later; at the end of a tick none is overdue, and the end action has been called, once, exactly if the temporary heap is empty |
| EdfPour.LoopEnds | src/edf-sched.lisp:231-237 | every turn of the scheduling loop leaves less to do in this tick, pouring included |
| EdfPour.TickIsRun | src/edf-sched.lisp:231-237 | the loop of one tick, pouring included, is a run of single steps that leaves nothing due |
| EdfPour.LostIff | src/edf-sched.lisp:134-155 | in a run, an event is lost exactly if a step does not find room in the real-time heap |
| EdfOthers.TickServes | src/edf-sched.lisp:231-237 | the loop of one tick calls the events of others at the front of the heap, in order and now, none more than half a sample early, and leaves none that is due |
| EdfOthers.OthersServed | src/edf-sched.lisp:231-237 | for every run with room, the events of others that were called and those pending are together those of the start and those scheduled since, and at each time in this order; none is called early and none that is due is left after a tick |
| EdfScheduler.Scheduler.CallHead | src/edf-sched.lisp:231-237 | on the real heap, one turn takes the first event, and calls it or begins to pour, as a step of the trace |
| EdfScheduler.Scheduler.CallFirst | src/edf-sched.lisp:539-546 | the same for one due event of the temporary heap |
| EdfScheduler.Scheduler.MoveNext | src/edf-sched.lisp:547-555 | the same for the end of pouring: one event moves, the next call is planned or the end action is called |
| EdfScheduler.Scheduler.PourOnRtHeap | src/edf-sched.lisp:530-556 | on two real heaps, pouring does what the state machine does, by steps of it |
| EdfScheduler.Scheduler.SchedLoop | src/edf-sched.lisp:231-237 | on two real heaps, the loop of one tick does what the state machine does, by steps of it: events of others are called in order, none early, none lost, and none that is due is left |
| EdfScheduler.Scheduler.OthersOnHeaps | src/edf-sched.lisp:231-237 | the guarantee for events of others on two valid heaps after any traced steps with room |
| EdfScheduler.Scheduler.At | src/edf-sched.lisp:134-155 | somebody else's event is scheduled on the real-time heap at any moment, as a step of the trace |
| EdfScheduler.Scheduler.NextSample | src/nrt.lisp:155-167 | the sample counter moves on when nothing is due, as a step of the trace |
| EdfScheduler.Scheduler.PouredOnHeaps | src/edf-sched.lisp:530-556 | the pour guarantee for two valid heaps after any traced steps: order, exact ticks, nothing overdue after the loop of a tick, and the end action once the temporary heap is empty |
| HashShape.ProbeFinds | src/int-hash.lisp:52-65 | the probe for a key that is in the table ends at its slot |
| HashShape.ProbeMisses | src/int-hash.lisp:52-65 | a probe that ends at a null slot shows that the key is not in the table |
| HashShape.InsertProbed | src/int-hash.lisp:67-79 | filling the null slot of the probe keeps every entry reachable |
| HashShape.RepairStart | src/int-hash.lisp:81-92 | nulling a slot makes it the only hole that paths may cross, and only for entries up to the next null slot |
| HashShape.RepairFinds | src/int-hash.lisp:95-101 | an entry that is probed again finds the hole or itself |
| HashShape.RepairMove | src/int-hash.lisp:95-101 | moving the entry into the hole makes its old slot the hole |
| HashShape.RepairEnd | src/int-hash.lisp:90-94 | at the next null slot every entry is reachable again |
| HashShape.Masks | src/int-hash.lisp:52-65 | with a power of two of slots, masking is the remainder and the cyclic step |
| IntHashTable.Table.IndexFor | src/int-hash.lisp:52-65 | the first slot on the probe path that is null or holds the key; ends because some slot is null |
| IntHashTable.Table.GetIHash | src/int-hash.lisp:67-79 | the slot of the key, or a null slot if it has none; in a full table a missing key is an error |
| IntHashTable.Table.Insert | src/int-hash.lisp:67-79 | the map with one key more, or unchanged if the table is full or has the key |
| IntHashTable.Table.FixCollisionsFrom | src/int-hash.lisp:81-101 | the same entries, all reachable by probing |
| IntHashTable.Table.Remove | src/int-hash.lisp:81-101 | the old map minus the key, with every other key still found |
| RingSteps.MaskIs | src/ringbuffer.c:26-33 | unsigned arithmetic of 32 bits and masking give the remainder by the size |
| RingSteps.AddressIs | src/ringbuffer.c:79-98 | byte i of a transfer is at its place modulo the size, on either side of the split |
| RingSteps.SpacesAre | src/ringbuffer.c:100-108 | both spaces follow from the number of bytes in the buffer |
| RingSteps.StepKeeps | src/ringbuffer.c:79-165 | every atomic step of writer and reader keeps the invariant |
| RingSteps.DeliveredInOrder | src/ringbuffer.c:79-165 | for every interleaving the delivered bytes are a prefix of the accepted ones, also those still being copied, and between operations the spaces add up to the size minus one |
| RingSteps.StartTakes | src/ringbuffer.c:79-136 | a write takes the bytes for which there is room beside those held when it loads the read head, all but one place; a read takes those held when it loads the write head |
| RingSteps.AllTaken | src/ringbuffer.c:79-98 | if there was room for every write, every byte is accepted or about to be published, for every interleaving |
| RingSteps.CopiesEnabled | src/ringbuffer.c:79-98 | every byte address of a transfer is inside the buffer |
| ByteRing.NextPowOfTwo | src/ringbuffer.c:22-28 | the least power of two that is not below n, and one for zero |
| ByteRing.RingBuffer.Write | src/ringbuffer.c:79-98 | the bytes that fit are appended to the queue |
| ByteRing.RingBuffer.Read | src/ringbuffer.c:117-136 | the oldest bytes leave the queue for the destination |
| ByteRing.RingBuffer.Peek | src/ringbuffer.c:138-156 | the oldest bytes are copied and stay |
| ByteRing.RingBuffer.GetWriteSpace | src/ringbuffer.c:100-108 | the size minus one minus the bytes in the queue |
| ByteRing.RingBuffer.GetReadSpace | src/ringbuffer.c:157-165 | the bytes in the queue |
| FifoQueue.FullCount | src/fifo.lisp:115-132 | full means one value less than places, empty means no value |
| FifoQueue.StoreValues | src/fifo.lisp:126-133 | a stored value is invisible until the write head moves |
| FifoQueue.PublishWriteValues | src/fifo.lisp:126-133 | moving the write head appends the stored value |
| FifoQueue.PublishReadValues | src/fifo.lisp:237-246 | moving the read head takes the oldest value |
| FifoQueue.FunctionFifo.Enqueue | src/fifo.lisp:126-133 | the value goes behind the others, or the FIFO is full and unchanged |
| FifoQueue.FunctionFifo.PerformFunctions | src/fifo.lisp:237-246 | all values are taken, oldest first |
| FifoRelay.StepKeeps | src/fifo.lisp:140-159 | every step of producers, relay and real-time thread keeps all functions in one pipeline in order |
| FifoRelay.DroppedIff | src/fifo.lisp:126-133 | in a run, a function is dropped exactly if a post or the relay finds a FIFO with one value less than places |
| FifoRelay.RanInLockOrder | src/fifo.lisp:250-253 | for every interleaving, functions run in lock order, each at most once; when nothing is on its way all have run exactly if no step met a full FIFO, and each full one cost one function |
| FifoRelay.Drains | src/fifo.lisp:140-159 | from every state with the invariant, whatever is on its way can be brought to its end without a further post |
| FifoRelay.RelayedAtStable | src/edf-sched.lisp:157-165 | on a heap in use, with gets, a capacity and events of others in any order, relayed calls of AT for the same time are taken and pending in the order of posting; all of them if there was room in the FIFOs and the heap and nothing is on its way |
| MidiVlq.VlqRoundTrip | src/midifile.lisp:646-660 | reading a written quantity gives it back exactly if it is below 2^35, and an error otherwise |
| MidiVlq.VlqShape | src/midifile.lisp:838-848 | the bytes of a quantity: the least number that holds it, digits to base 128 from the most significant on, the top bit set on all but the last |
| MidiVlq.FourBytes | src/midifile.lisp:115-117 | deltas below 2^28 take at most four bytes |
| MidiTrack.ReadOne | src/midifile.lisp:804-835 | one written event is read as the same message, with and without running status, at its time or at the time of its predecessor if that is later |
| MidiTrack.ClampedAt | src/midifile.lisp:850-858 | the stored time of an event is the largest of the start and the times up to it; the message is unchanged |
| MidiTrack.ClampedSame | src/midifile.lisp:850-858 | events whose times never decrease are stored as they are |
| MidiTrack.DataBytes | src/midifile.lisp:691-711 | how many bytes the reader takes for each range of status bytes, with and without running status, and the errors of a track that ends too early or has no running status |
| MidiTrack.ReadEnd | src/midifile.lisp:734-749 | End Of Track is read with no byte of the track left |
| MidiTrack.TrackRoundTrip | src/midifile.lisp:804-835 | reading a written track gives the same messages at the clamped times and ends at End Of Track with nothing left |
| MidiTrack.LongDeltaFails | src/midifile.lisp:646-660 | with a delta of more than 35 bits the reader stops with an error |
| MidiFile.EncodeOctets | src/midifile.lisp:278-287 | the four-byte code of a message, cut to its length, is the message |
| MidiFile.FourBytesRoundTrip | src/midifile.lisp:77-95 | four bytes hold a number modulo 2^32 |
| MidiFile.TrackFound | src/midifile.lisp:508-518 | the next track is found with its length, whatever is left of a track before it and whatever chunks of other types come between |
| MidiFile.TrackWriter.EnsureBufferSpace | src/midifile.lisp:860-865 | the new size of the buffer, and what was written is kept |
| MidiFile.TrackWriter.WriteDeltaTime | src/midifile.lisp:838-848 | the loop writes the quantity behind the old contents |
| MidiFile.TrackWriter.WriteEventTime | src/midifile.lisp:850-858 | the difference to the absolute time is written, zero for late events, and the track time becomes the later of the two |
| MidiFile.TrackWriter.ShortMessageToOctets | src/midifile.lisp:867-874 | the bytes of the message code, lowest first |
| MidiFile.TrackWriter.WriteShortEvent | src/midifile.lisp:876-902 | every event that fits the buffer after its growth is appended, one byte shorter exactly under running status |
| MidiFile.TrackWriter.EndOfTrack | src/midifile.lisp:473-484 | the bytes of End Of Track are added unless it is there |
| MidiFile.TrackWriter.WriteTrack | src/midifile.lisp:486-500 | the letters of the type, the length most significant byte first, which has to be below 2^32, and all data; the track is empty after it |
| MidiFile.TrackReader.ReadVariableLengthQuantity | src/midifile.lisp:646-660 | the loop reads what the function defines and stops behind it |
| MidiFile.TrackReader.NextTrack | src/midifile.lisp:508-518 | the loop over chunks finds what the function defines |
| MidiFile.TrackReader.NextEvent | src/midifile.lisp:804-835 | outcome and new state of read-event for channel messages and End Of Track, errors included |
| MidiFile.TrackThroughFile | src/midifile.lisp:486-500 | channel messages written to a track of less than 2^32 bytes and read back, with the length from the chunk header, are the same messages, each at the latest time so far, and the same events if the times never decrease |
| Slip.FrameShape | src/network/osc.c:677-701 | the frame is longer by two and the number of END and ESC bytes, with no END inside |
| Slip.FrameBytes | src/network/osc.c:677-701 | the bytes of a frame: END at both ends, and what END, ESC and every other byte become |
| Slip.RoundTrip | src/network/osc.c:677-726 | decoding a frame gives back the original bytes, whatever follows |
| Slip.Malformed | src/network/osc.c:710-720 | a byte behind ESC that is no escape code is dropped with it, and decoding goes on |
| Slip.Unfinished | src/network/osc.c:703-726 | without END everything up to the given length is decoded |
| Slip.LeadingEnds | src/network/osc.c:703-726 | for any number of END characters before a message: exactly when it comes back, what comes instead, and the case without any |
| Slip.NextMessage | src/network/osc.c:703-726 | behind a lone END the next message is decoded |
| Slip.SlipEncode | src/network/osc.c:677-701 | the destination holds the frame and a zero byte |
| Slip.SlipDecode | src/network/osc.c:703-726 | decoding in place computes what decoding the original contents means |
| Slip.EncodeDecode | src/network/osc.c:677-726 | a frame decoded over itself gives back bytes and length |
| OscResize.MoveDataLeft | src/network/osc.c:432-438 | overlapping words move down unharmed |
| OscResize.MoveDataRight | src/network/osc.c:440-446 | overlapping words move up unharmed |
| OscResize.TableShifted | src/network/osc.c:415-421 | the pointer table stays ordered and inside memory |
| OscResize.OtherValue | src/network/osc.c:383-430 | every other value keeps its words |
| OscResize.OscMessage.MaybeReserveSpace | src/network/osc.c:383-430 | the value gets its new size and a cleared last word, keeps its front, all others keep their words and order, and the free memory moves by the difference |
| PowersOfTwo.NextPowerLeast | src/config.lisp:235-239 | next-power-of-two is the least one that is not below n |
| PowersOfTwo.PowerTest | src/config.lisp:241-245 | the bit test of power-of-two-p is right |
| PowersOfTwo.AndMask | src/ringbuffer.c:79-87 | masking with a power of two minus one is the remainder |

## Left out

- The allocator's `add_new_area`, pool detection by signature, `calloc_ex`, locks, mmap, sbrk and debug dumps.
- The bitmap words of the allocator are sets of bit indices in class `Tlsf`; module `TlsfBits` defines the set of a word and proves that the bit operations of the source are the set operations that the class uses.
- Allocator memory is a map from addresses to words, with headers as typed words; reading user data as a header is not modelled. Areas and rounded requests are below 2^30.
- Pausing, moving, fading, replacing and controlling nodes, freeing groups, and new groups at the tail of a group or after a node.
- Nodes of the graph are named by identifiers and their fields are maps; allocation of node objects and their place in the hash table are not part of the graph model. A cons is named by its leaf.
- In `NodeGraph.Graph.NodeFree` the back link of the following node is set before the chain is repaired, not after; nothing in between reads it.
- NodeGraph.Graph.NodeFree: frees leaves only; a group that is freed takes its members with it, which is not modelled.
- NodeGraph.Graph.AddNodeAfter: what a graph with a stray node behind the root does next is not modelled.
- EdfHeap.Heap.UnscheduleIf: with twelve or more pending events it does not say which matching events are left, because some can be.
- MidiFile.TrackReader.NextEvent: for meta events other than End Of Track and for system exclusive messages it says only that they are reported as such, not what they leave in the buffer.
- Resizing the event heap, discarding non-crucial events, forcing events with a time step, and the pool of heaps; ordering tags do not wrap around.
- The functions that the scheduler, the FIFOs and a tick call are recorded, not executed; what they schedule is covered by steps of others, which may come after every single call. `SchedLoop` itself is the loop when they schedule nothing.
- `EdfPour` takes times as whole samples; times between samples are left out.
- The circular-list version of the FIFO and the other FIFO pairs.
- Reset and the advance operations of the ring buffer; memory barriers are taken to order the steps as the program does.
- The cached node index of the graph's hash table; the nulled slot is an argument of the repair.
- MIDI headers, several tracks, tempo map, meta events other than End Of Track, system exclusive messages, rounding of beats to pulses, and going on after a parse error.
- OSC bundles, addresses, type tags, byte order and sockets; resizing a value of a message inside a bundle.
- Envelopes, buffers, FFT and other signal processing, configuration, logging and the object pools.
