# Unrolled list, modelled and verified in Dafny

This project models the core of a C++ header-only container library: the
unrolled list `unrolled_list<T, K>` (lib/unrolled_list.h) and its node
type `Node<T, K>` (lib/Node.h).

A **node** is a double-ended circular buffer of K slots. Logical element
`i` lives in slot `(left_ + i) mod K`. It supports:
- push and pop at both ends;
- positional insert and erase, which rotate a hole towards the nearer end;
- indexing;
- the two-node helpers `CanBeMerged`, `MoveToLeft` and `MoveToRight`.

The **list** is a doubly linked chain of such nodes with `first_node_`,
`last_node_` and `size_`. Its iterator is a (node, index) pair. It supports:
- push and pop at both ends;
- single-element insert, which splits a full node in two;
- single-element erase, which unlinks an emptied node or merges an
  under-filled one with a neighbour;
- range erase, which first unlinks the wholly covered nodes;
- clear, swap and assign.

The project is split into these files:

- `seqops.dfy` (module `SeqOps`): insertion, removal, swap and
  "move one element from a to b" on sequences, with the lemmas relating them.
- `ring.dfy` (module `Ring`): `CalcModInd` and the slot arithmetic of a node.
  - `View(slots, left)` is the slot array read from `left` onwards.
  - `Layout(s, K)` is the ideal picture of a node holding `s`: `s` followed by vacant slots.
  - A node is valid when `View(slots, left) == Layout(Contents, K)`.
- `node.dfy` (module `NodeBuffer`): class `Node`.
  - Its state is a slot `array`, `left`, `size`, `prev`/`next`, and a ghost `Contents: seq<T>`.
  - Every operation is a method proved against `Contents`.
- `blocks.dfy` (module `ChainModel`): the value-level specification of the list.
  - A list is the sequence of its nodes' contents (`seq<seq<T>>`, the "blocks"), and an iterator is a `Cursor`.
  - Every list operation is a function on blocks.
  - Lemmas state what each function does to `Flatten` (the list's elements in order) and to the shape (every node within 1..K).
- `chain.dfy` (module `ChainHeap`): what it means for a sequence of heap nodes to be linked in order, and how a chain changes when a segment is replaced.
- `list.dfy` (module `UnrolledList`): class `UnrolledList`.
  - Its state is `first`, `last`, `size` and real `prev`/`next` links, plus a ghost `Chain` of nodes.
  - Every method is proved to change `Blocks()` exactly as its `ChainModel` function says, and to keep the invariant:
    - the nodes are linked both ways in chain order;
    - `first`/`last` are null together;
    - no node is empty;
    - `size_` is the number of elements.
- `refill.dfy` (module `Refill`): the refill step of erase as evidently meant, and the floor of RequiredNodeSize elements per node that it keeps.
- `scenarios.dfy` (module `Scenarios`): the node-count scenarios of tests/allocator_ut.cpp as lemmas on the block model.

Two kinds of operation are modelled beside their corrected form:
- operations whose source behaviour differs from what is evidently meant (see "## Findings");
- the insert as written, in its stack copy of the node.

Node allocation is modelled with `new`. Deallocation is the node leaving `Repr`.
No node is ever created other than by push_back, push_front and insert, so
node counts are block counts.

## Model

| member | source | states |
|---|---|---|
| Ring.CalcModInd | lib/Node.h:192-194 | the slot index is always in [0, K) for every argument the code passes (≥ −K) |
| Ring.CalcModIndIsResidue | lib/Node.h:192-194 | CalcModInd is the residue of the index modulo K |
| Ring.CalcModIndWindow | lib/Node.h:192-194 | for arguments in [−K, 2K) the slot is the argument shifted by at most one K |
| Ring.CalcModIndAsUnsigned | lib/Node.h:192-194 | the source's unsigned 64-bit wrap-around `(ind + K) % K` gives the same slot as the Euclidean model for every argument in [−K, 2^64 − K) |
| Ring.PhysInjective | lib/Node.h:179-186 | two logical indices below K that map to the same slot are equal |
| Ring.PhysPreimage | lib/Node.h:179-186 | every slot is the slot of some logical index below K |
| Ring.ViewSwap | lib/Node.h:237-252 | swapping the slots of logical positions i and j swaps positions i and j of the node's view |
| Ring.LayoutMove | lib/Node.h:225-252 | moving an element within the live window commutes with the layout, so a rotated hole leaves a valid layout |
| Ring.PushBackKeepsLayout | lib/Node.h:75-88 | writing slot (left + size) mod K turns the layout of s into the layout of s + [x] |
| Ring.PopBackKeepsLayout | lib/Node.h:90-101 | vacating slot (left + size − 1) mod K turns the layout of s into that of s without its last element |
| Ring.PushFrontKeepsLayout | lib/Node.h:103-115 | writing slot (left − 1) mod K and starting there turns the layout of s into that of [x] + s |
| Ring.PopFrontKeepsLayout | lib/Node.h:117-129 | vacating slot left and starting at (left + 1) mod K turns the layout of s into that of s[1..] |
| Ring.ViewAllVacant | lib/Node.h:75-88 | an all-vacant node is all-vacant from any start slot, so an empty node may restart at K / 2 |
| Ring.DestroyKeepsVacated | lib/Node.h:53-57 | destroying element i of a node whose first i elements are destroyed leaves the first i + 1 destroyed |
| NodeBuffer.CalcDist | lib/Node.h:198-203 | the distance is at most K / 2, and walking that many slots forward from one of the two slots reaches the other |
| NodeBuffer.CalcDistOfLogical | lib/Node.h:198-203 | for the slots of logical indices less than K / 2 apart the distance is exactly their difference |
| NodeBuffer.SiftDirection | lib/Node.h:225-236 | SiftInsert's test `CalcModInd(from + count) == to` holds iff the hole moves towards the back (r1 ≤ r2) |
| NodeBuffer.SiftRightStep | lib/Node.h:237-244 | one forward swap extends the rotation of the view by one position |
| NodeBuffer.SiftLeftStep | lib/Node.h:245-252 | one backward swap extends the rotation of the view by one position |
| NodeBuffer.PopBackSlotAsWritten | lib/Node.h:94 | the slot pop_back destroys, as written, is a slot of the node |
| NodeBuffer.PopBackDestroysWrongSlot | lib/Node.h:90-101 | for K > 1 that slot never holds the last element: it holds the first one when the node is full and no live element otherwise |
| NodeBuffer.TransferCount | lib/Node.h:274-299 | the number moved is min(source size, max_len, room): at most each, and equal to one of them |
| NodeBuffer.Node.constructor | lib/Node.h:19-23 | a fresh valid empty node with no links |
| NodeBuffer.Node.Copy | lib/Node.h:39-52 | the copy has the same contents, start slot and links, in fresh storage |
| NodeBuffer.Node.ConstructCopies | lib/Node.h:33-36 | constructing other's elements into vacant storage with the same start slot makes the node valid |
| NodeBuffer.Node.Destroy | lib/Node.h:53-57 | every slot is vacant afterwards |
| NodeBuffer.Node.Assign | lib/Node.h:24-38 | contents, start slot and links become the other node's |
| NodeBuffer.Node.Get | lib/Node.h:179-186 | operator[] gives logical element ind |
| NodeBuffer.Node.Front | lib/Node.h:72 | front() is the first element |
| NodeBuffer.Node.Back | lib/Node.h:73 | back() is the last element |
| NodeBuffer.Node.PushBack | lib/Node.h:75-88 | refuses iff full, leaving everything unchanged; otherwise contents become old + [v], and `left` is reset to K / 2 first if the node was empty |
| NodeBuffer.Node.PopBack | lib/Node.h:90-101 | no-op on an empty node; otherwise contents lose their last element and the node stays valid |
| NodeBuffer.Node.PopBackAsWritten | lib/Node.h:90-101 | contents lose their last element, but for K > 1 the node is no longer valid: the dropped element's slot stays constructed, and the slot destroyed is the first element's when the node was full and an already vacant one otherwise |
| NodeBuffer.Node.PushFront | lib/Node.h:103-115 | refuses iff full, leaving everything unchanged; otherwise contents become [v] + old and `left` moves back one slot mod K (from K / 2 when empty) |
| NodeBuffer.Node.PopFront | lib/Node.h:117-129 | no-op on an empty node; otherwise drops the first element and advances `left` by one mod K |
| NodeBuffer.Node.SiftRight | lib/Node.h:237-244 | the element at logical r moves to r + count and the ones between shift back by one |
| NodeBuffer.Node.SiftLeft | lib/Node.h:245-252 | the element at logical r moves to r − count and the ones between shift forward by one |
| NodeBuffer.Node.SiftInsert | lib/Node.h:225-236 | the element at r1 moves to r2 the short way round |
| NodeBuffer.Node.Insert | lib/Node.h:131-156 | a full node is unchanged, an empty node becomes [v], otherwise contents become old with v at ind |
| NodeBuffer.Node.Erase | lib/Node.h:158-171 | an empty node is unchanged; otherwise contents lose exactly the element at ind |
| NodeBuffer.CanBeMerged | lib/Node.h:270-273 | the two nodes' sizes sum to at most K; CanBeMergedIffTotalTransfer proves this is exactly when a transfer of up to K elements moves all of either node |
| NodeBuffer.CanBeMergedIffTotalTransfer | lib/Node.h:270-299 | two nodes can be merged iff a move of up to K elements transfers all of either node's elements |
| NodeBuffer.MoveToLeft | lib/Node.h:274-287 | exactly TransferCount elements go from the front of the right node to the back of the left; the concatenation is unchanged and both stay valid |
| NodeBuffer.MoveToRight | lib/Node.h:288-299 | exactly TransferCount elements go from the back of the left node to the front of the right; the concatenation is unchanged and both stay valid |
| ChainModel.BeginEnd | lib/unrolled_list.h:221-222 | begin() designates position 0 and end() the position after the last element |
| ChainModel.Designates | lib/unrolled_list.h:94 | an iterator other than end() designates an element of its node, the one at its position in the list |
| ChainModel.PosInjective | lib/unrolled_list.h:37-77 | with no empty node, two iterators at the same position are the same (node, index) pair |
| ChainModel.CursorOrder | lib/unrolled_list.h:37-77 | an iterator in an earlier node is at an earlier position |
| ChainModel.Succ | lib/unrolled_list.h:46-54 | ++: at the last index of a node other than the last, (next, 0); otherwise ind + 1. SuccStep proves it advances one position |
| ChainModel.Pred | lib/unrolled_list.h:55-63 | --: at index 0 of a node other than the first, (prev, size − 1); otherwise ind − 1. PredStep proves it goes back one position |
| ChainModel.SuccStep | lib/unrolled_list.h:46-54 | ++ moves to the next position (the next node's index 0 at a non-last node's end) |
| ChainModel.PredStep | lib/unrolled_list.h:55-63 | -- moves to the previous position (the previous node's last index at a non-first node's start) |
| ChainModel.SuccPred | lib/unrolled_list.h:46-63 | ++ and -- undo each other |
| ChainModel.Walk | lib/unrolled_list.h:46-54 | n increments advance the position by n |
| ChainModel.WalkBeginToEnd | lib/unrolled_list.h:221-222 | from begin(), exactly size() increments reach end() |
| ChainModel.PushBackBlocks | lib/unrolled_list.h:508-537 | push_back on the blocks: a new node [v] when there is no last node or it is full, else v appended to the last node. PushBackBlocksSpec proves the elements become s + [v] |
| ChainModel.PushBackBlocksSpec | lib/unrolled_list.h:508-537 | the elements become s + [v], every node stays within 1..K, and a node is added iff the list is empty or its last node is full |
| ChainModel.PushFrontBlocks | lib/unrolled_list.h:472-496 | push_front on the blocks: a new node [v] when there is no first node or it is full, else v put before the first node's elements. PushFrontBlocksSpec proves the elements become [v] + s |
| ChainModel.PushFrontBlocksSpec | lib/unrolled_list.h:472-496 | the elements become [v] + s, nodes stay within 1..K, and a node is added iff the list is empty or its first node is full |
| ChainModel.PopBackBlocks | lib/unrolled_list.h:539-548 | pop_back on the blocks: the last node loses its last element and is unlinked if that empties it; no rebalancing. PopBackBlocksSpec proves the effect on the elements |
| ChainModel.PopBackBlocksSpec | lib/unrolled_list.h:539-548 | no-op when empty; otherwise drops the last element, and a node is removed iff the last node held one element |
| ChainModel.PopFrontBlocks | lib/unrolled_list.h:498-507 | pop_front on the blocks: the first node loses its first element and is unlinked if that empties it; no rebalancing. PopFrontBlocksSpec proves the effect on the elements |
| ChainModel.PopFrontBlocksSpec | lib/unrolled_list.h:498-507 | no-op when empty; otherwise drops the first element, and a node is removed iff the first node held one element |
| ChainModel.RemoveBlock | lib/unrolled_list.h:636-651 | EraseNode on the blocks: node k is dropped and the others keep their order. RemoveBlockSpec proves exactly its elements go |
| ChainModel.RemoveBlockSpec | lib/unrolled_list.h:636-651 | unlinking node k removes exactly its elements and one node, keeping the others' shape |
| ChainModel.AddToBlock | lib/unrolled_list.h:652-740 | AddToNode / AddToFullNode: v inserted at ind in a node with room; a full node split into K / 2 + 1 and K − K / 2 elements, v in the half ind falls in. AddToBlockSpec proves the contents and sizes |
| ChainModel.AddToBlockSpec | lib/unrolled_list.h:652-740 | inserting into a node puts v at ind; a full node is split into K / 2 + 1 and K − K / 2 elements, both in 1..K |
| ChainModel.InsertBlocks | lib/unrolled_list.h:250-290 | insert at (k, ind): node k replaced by AddToBlock's nodes, and the iterator moved into the new node when ind is past the first one's end (282-287). InsertBlocksSpec proves the result |
| ChainModel.InsertBlocksSpec | lib/unrolled_list.h:250-290 | the list's elements get v at the iterator's position, shapes stay in 1..K, and the returned iterator designates v |
| ChainModel.NeedToFill | lib/unrolled_list.h:565-570 | a node is below RequiredNodeSize, K − K / 2; the floor erase tests before merging (EraseBlocksSpec, Refill.EraseFilledKeepsFloor) |
| ChainModel.CanBeFilled | lib/unrolled_list.h:571-573 | two nodes hold fewer than 2 · RequiredNodeSize elements; CanBeFilledImpliesCanBeMerged proves it implies they fit in one node |
| ChainModel.CanBeFilledImpliesCanBeMerged | lib/unrolled_list.h:565-573 | whenever CanBeFilled holds, CanBeMerged holds too, so the refill branches at 395-399 never run |
| ChainModel.EraseUnsettled | lib/unrolled_list.h:361-400 | erase up to the iterator fix-up: remove the element, unlink an emptied node (iterator begin(), end() or (next, 0)), else merge a node below the floor with prev, shifting ind by prev's size, or with next. EraseEmptiedSpec and EraseKeptSpec prove the result |
| ChainModel.EraseBlocks | lib/unrolled_list.h:361-407 | erase at (k, ind), with end() where the source returns null (the corrected half of the 402-405 finding). EraseBlocksSpec proves it removes exactly that element and returns its position |
| ChainModel.EraseBlocksAsWritten | lib/unrolled_list.h:361-407 | erase at (k, ind) as written. EraseAsWrittenDiffers proves it agrees with EraseBlocks except for the null iterator |
| ChainModel.EraseBlocksSpec | lib/unrolled_list.h:361-407 | erase removes exactly the element at the iterator, keeps every node within 1..K, and returns an iterator at the same position |
| ChainModel.EraseEmptiedSpec | lib/unrolled_list.h:371-381 | erasing a node's only element unlinks it and returns begin(), end() or the next node's start, at the erased position |
| ChainModel.EraseEmptiedIs | lib/unrolled_list.h:371-381 | erasing a node's only element leaves the other nodes, one element fewer, and begin() if it was first, end() if last, else the next node at 0 |
| ChainModel.EraseKeptSpec | lib/unrolled_list.h:383-400 | when the node keeps elements, the merge with prev (index shifted by prev's size) or next keeps the elements and the erased position |
| ChainModel.EraseInPlace | lib/unrolled_list.h:367-368 | a node that stays above the floor just loses the element |
| ChainModel.EraseMergePrev | lib/unrolled_list.h:384-389 | merging into the previous node keeps the elements in order and the position ind + prev.size |
| ChainModel.EraseMergeNext | lib/unrolled_list.h:390-394 | merging with the next node keeps the elements in order and the position |
| ChainModel.Settle | lib/unrolled_list.h:402-406 | past its node's end the iterator moves to (next, 0), or stays as end() on the last node. SettleSpec proves the position is kept |
| ChainModel.SettleSpec | lib/unrolled_list.h:402-406 | moving past a node's end to the next node's start (or staying at end()) keeps the position |
| ChainModel.SettleAsWritten | lib/unrolled_list.h:402-406 | past its node's end the iterator becomes (next, 0), which is (null, 0) on the last node. SettleAsWrittenDiffers proves where it differs from Settle |
| ChainModel.SettleAsWrittenDiffers | lib/unrolled_list.h:402-405 | the source's iterator differs from the intended one exactly when the intended one is end(), and is then null |
| ChainModel.EraseAsWrittenDiffers | lib/unrolled_list.h:361-407 | erase as written changes the list as intended; its iterator differs exactly when a surviving node's last element was erased at the list's end, and is then null |
| ChainModel.EraseLastReturnsNull | lib/unrolled_list.h:402-405 | erasing 2 from [[1, 2]] returns (null, 0) as written and end() = (node, 1) as intended |
| ChainModel.EraseAt | lib/unrolled_list.h:436-443 | one erase call inside range erase: a null iterator or one past its node's end is returned unchanged (ValidateIteratorInErase), else EraseBlocks or EraseBlocksAsWritten. EraseAtSpec proves the corrected step |
| ChainModel.EraseAtSpec | lib/unrolled_list.h:436-443 | one erase at a valid iterator removes the element there and keeps the position |
| ChainModel.EraseRepeat | lib/unrolled_list.h:428-432 | n erase calls, each at the iterator the previous one returned. EraseRepeatSpec proves n corrected calls remove the n elements from the start position |
| ChainModel.EraseRepeatSpec | lib/unrolled_list.h:428-432 | n erases, each at the iterator the previous returned, remove the n elements from the position |
| ChainModel.EraseOneMore | lib/unrolled_list.h:428-432 | one more erase at the iterator n − 1 erases returned removes one more element at the same position |
| ChainModel.RemoveCovered | lib/unrolled_list.h:412-428 | the covered nodes unlinked (from first's node if first.ind == 0, else the one after, up to last's node) and the iterator erasure starts from. RangeCoveredCursor and RangeCoveredContents prove its effect |
| ChainModel.RangeCoveredCursor | lib/unrolled_list.h:607-635 | after the covered nodes are unlinked, the start iterator (first, or last's node at 0) is at first's old position |
| ChainModel.RangeCoveredContents | lib/unrolled_list.h:412-428 | across nodes, removing elem_cnt elements from there leaves exactly the elements outside [first, last) |
| ChainModel.RangeCount | lib/unrolled_list.h:418-421 | the number of single erases as evidently meant: last.ind − first.ind in one node, else as written. AcrossThenRepeat proves the two agree across nodes |
| ChainModel.RangeCountAsWritten | lib/unrolled_list.h:418-421 | elem_cnt as written: last.ind when first.ind == 0, else first's node size − first.ind + last.ind. RangeEraseOvercounts shows it too large in one node |
| ChainModel.EraseRangeBlocks | lib/unrolled_list.h:408-435 | range erase with the count corrected: RemoveCovered, then RangeCount corrected erases. EraseRangeBlocksSpec proves exactly [first, last) goes |
| ChainModel.EraseRangeBlocksAsWritten | lib/unrolled_list.h:408-435 | range erase as written: elem_cnt as written and each step the erase as written. RangeEraseOvercounts shows it removing too much |
| ChainModel.EraseRangeBlocksSpec | lib/unrolled_list.h:408-435 | range erase leaves exactly the elements outside [first, last), nodes within 1..K, and returns an iterator at first's position |
| ChainModel.EraseRangeSameNode | lib/unrolled_list.h:408-435 | the same, when first and last are in one node |
| ChainModel.EraseRangeAcross | lib/unrolled_list.h:408-435 | the same, when they are in different nodes |
| ChainModel.AcrossThenRepeat | lib/unrolled_list.h:412-432 | with first and last in different nodes, the count as written is the corrected one, and the erases after the covered nodes are unlinked remove that many elements from first's position |
| ChainModel.CoveredThenErased | lib/unrolled_list.h:412-432 | unlinking the covered nodes and then erasing that count from first's position leaves exactly the elements outside [first, last) |
| ChainModel.RangeEraseOvercounts | lib/unrolled_list.h:418-421 | erasing [1, 2) of [0, 1, 2, 3] leaves [0, 2, 3] as intended but [0] as written |
| ChainModel.Build | lib/unrolled_list.h:198-210 | the list one push_back per value builds. BuildSpec and BuildFull prove its contents and node sizes |
| ChainModel.BuildSpec | lib/unrolled_list.h:198-210 | a list built by push_backs holds the values in order, every node within 1..K |
| ChainModel.BuildFull | lib/unrolled_list.h:508-537 | in a list built by push_backs every node but the last is full |
| UnrolledList.UnrolledList.constructor | lib/unrolled_list.h:180-181 | a valid list with no nodes |
| UnrolledList.UnrolledList.Size | lib/unrolled_list.h:234 | size() is the number of elements |
| UnrolledList.UnrolledList.Empty | lib/unrolled_list.h:236 | empty() iff no elements, iff no nodes |
| UnrolledList.UnrolledList.NodeFacts | lib/unrolled_list.h:884-889 | the list invariant over first_node_, last_node_ and size_, which LinkNodes and EraseNode maintain, unpacked for one node: every linked node is valid, holds its block, and its prev/next are its chain neighbours (null at the ends) |
| UnrolledList.UnrolledList.Begin | lib/unrolled_list.h:221 | begin() is the block-model begin |
| UnrolledList.UnrolledList.End | lib/unrolled_list.h:222 | end() is (last node, its size) |
| UnrolledList.UnrolledList.Inc | lib/unrolled_list.h:46-54 | ++ on the heap is the block-model successor |
| UnrolledList.UnrolledList.Dec | lib/unrolled_list.h:55-63 | -- on the heap is the block-model predecessor |
| UnrolledList.UnrolledList.Get | lib/unrolled_list.h:94 | dereferencing gives the element at the iterator's position |
| UnrolledList.UnrolledList.Front | lib/unrolled_list.h:460-465 | front() is the first element |
| UnrolledList.UnrolledList.Back | lib/unrolled_list.h:466-471 | back() is the last element |
| UnrolledList.UnrolledList.LinkNodes | lib/unrolled_list.h:833-840 | right's prev becomes left and left's next becomes right, each when not null |
| UnrolledList.UnrolledList.EraseNode | lib/unrolled_list.h:636-651 | a null node is a no-op; otherwise exactly that node is unlinked, first/last/size_ follow and the chain stays linked |
| UnrolledList.UnrolledList.Detach | lib/unrolled_list.h:639-646 | the node's neighbours are linked to each other and first/last updated |
| UnrolledList.UnrolledList.AppendNode | lib/unrolled_list.h:526-535 | a node linked after the last becomes the last block |
| UnrolledList.UnrolledList.PrependNode | lib/unrolled_list.h:487-493 | a node linked before the first becomes the first block |
| UnrolledList.UnrolledList.Single | lib/unrolled_list.h:841-845 | a fresh unlinked node holding just v |
| UnrolledList.UnrolledList.GrowBack | lib/unrolled_list.h:526-535 | the list gains a last node [v] |
| UnrolledList.UnrolledList.GrowFront | lib/unrolled_list.h:487-493 | the list gains a first node [v] |
| UnrolledList.UnrolledList.PushIntoLast | lib/unrolled_list.h:517 | v is appended to the last node, size_ + 1 |
| UnrolledList.UnrolledList.PushIntoFirst | lib/unrolled_list.h:480 | v is prepended to the first node, size_ + 1 |
| UnrolledList.UnrolledList.PushBack | lib/unrolled_list.h:508-537 | blocks become PushBackBlocks of the old ones: elements s + [v], a new node only when none or the last is full |
| UnrolledList.UnrolledList.PushFront | lib/unrolled_list.h:472-496 | blocks become PushFrontBlocks of the old ones: elements [v] + s, a new node only when none or the first is full |
| UnrolledList.UnrolledList.PopFromLast | lib/unrolled_list.h:543-544 | the last node loses its last element, size_ − 1 |
| UnrolledList.UnrolledList.PopFromFirst | lib/unrolled_list.h:502-503 | the first node loses its first element, size_ − 1 |
| UnrolledList.UnrolledList.PopLastElement | lib/unrolled_list.h:543-547 | blocks become PopBackBlocks: an emptied last node is unlinked, with no rebalancing |
| UnrolledList.UnrolledList.DropFirstIfEmpty | lib/unrolled_list.h:505 | the first node is unlinked iff it is empty |
| UnrolledList.UnrolledList.PopFirstElement | lib/unrolled_list.h:502-506 | blocks become PopFrontBlocks: an emptied first node is unlinked, with no rebalancing |
| UnrolledList.UnrolledList.PopBack | lib/unrolled_list.h:539-548 | no-op on an empty list; otherwise the last element is dropped and the list stays valid |
| UnrolledList.UnrolledList.PopFront | lib/unrolled_list.h:498-507 | no-op on an empty list; otherwise the first element is dropped and the list stays valid |
| UnrolledList.UnrolledList.Interpose | lib/unrolled_list.h:717-718 | n, m and n's old successor end up linked in that order, other links unchanged |
| UnrolledList.UnrolledList.LinkAfter | lib/unrolled_list.h:716-718 | a fresh node linked after chain node k becomes block k + 1 |
| UnrolledList.UnrolledList.AddInPlace | lib/unrolled_list.h:659-661 | a node with room gets v at ind, size_ + 1 |
| UnrolledList.UnrolledList.SplitFull | lib/unrolled_list.h:675-707 | the full node and the empty new node end holding the two halves AddToBlock gives |
| UnrolledList.UnrolledList.AddToFullNode | lib/unrolled_list.h:666-740 | node k is replaced by the two halves, the new node linked right after it with its back link to node k |
| UnrolledList.UnrolledList.AddToFullNodeAsWritten | lib/unrolled_list.h:666-718 | on a node outside the list: the split contents, and the new node linked after the node it was given |
| UnrolledList.UnrolledList.SplitInCopyAsWritten | lib/unrolled_list.h:262-275 | after the split in a stack copy and the swap, the new node's back link is the copy, not the list's node |
| UnrolledList.UnrolledList.AddToNode | lib/unrolled_list.h:652-665 | blocks become InsertBlocks of the old ones |
| UnrolledList.UnrolledList.Locate | lib/unrolled_list.h:282-287 | the loop finds the node and index at the given position |
| UnrolledList.UnrolledList.InsertIntoEmpty | lib/unrolled_list.h:254-256 | an empty list gets one node [v] and an iterator to v |
| UnrolledList.UnrolledList.AddToListNode | lib/unrolled_list.h:262-281 | inserting at (node k, ind) gives InsertBlocks' blocks and keeps the list valid |
| UnrolledList.UnrolledList.InsertAt | lib/unrolled_list.h:262-290 | blocks and returned iterator are those of InsertBlocks |
| UnrolledList.UnrolledList.Insert | lib/unrolled_list.h:250-290 | a null pos throws (nothing changes) iff the list is non-empty; otherwise v is inserted at pos and the returned iterator designates it |
| UnrolledList.UnrolledList.MergeNodes | lib/unrolled_list.h:860-882 | the smaller node moves into the larger (left on a tie), the concatenation is unchanged, the reduced node ends empty iff they fit in one, and otherwise the filled node ends full (K elements) |
| UnrolledList.UnrolledList.FillLeftToRequired | lib/unrolled_list.h:577-588 | when CanBeFilled, exactly enough of right's front elements move to left to reach RequiredNodeSize; otherwise none |
| UnrolledList.UnrolledList.FillRightToRequired | lib/unrolled_list.h:589-600 | when CanBeFilled, exactly enough of left's back elements move to right to reach RequiredNodeSize; otherwise none |
| UnrolledList.UnrolledList.RemoveFromNode | lib/unrolled_list.h:367-368 | node k loses the element at ind, size_ − 1 |
| UnrolledList.UnrolledList.MergePair | lib/unrolled_list.h:386-394 | two neighbours that fit in one node become one block, their concatenation |
| UnrolledList.UnrolledList.Rebalance | lib/unrolled_list.h:383-400 | the blocks and index become those the block model gives (merge with prev, else next, else none) |
| UnrolledList.UnrolledList.EraseEmptied | lib/unrolled_list.h:371-381 | an emptied node is unlinked and the iterator is that of EraseBlocks |
| UnrolledList.UnrolledList.EraseKept | lib/unrolled_list.h:383-406 | a surviving node is rebalanced and the iterator settled as EraseBlocks says |
| UnrolledList.UnrolledList.EraseIn | lib/unrolled_list.h:367-406 | erase at a valid (node, ind) gives EraseBlocks' blocks and iterator |
| UnrolledList.UnrolledList.Erase | lib/unrolled_list.h:361-407 | an invalid iterator (null or ind ≥ node size) changes nothing and is returned; otherwise blocks and iterator are EraseBlocks' |
| UnrolledList.UnrolledList.DeleteNodeRange | lib/unrolled_list.h:621-635 | the range starts at first's node (or the next one when first.ind > 0 in a different node) and ends at last's node |
| UnrolledList.UnrolledList.EraseChainNode | lib/unrolled_list.h:615-617 | one step of the loop: node k is unlinked and its successor returned |
| UnrolledList.UnrolledList.EraseCoveredNode | lib/unrolled_list.h:615-617 | one more covered node is dropped; the next node is the stop node iff all covered nodes are gone |
| UnrolledList.UnrolledList.EraseNodesFrom | lib/unrolled_list.h:614-618 | the remaining covered nodes are dropped: the chain becomes its prefix plus its suffix from the stop node |
| UnrolledList.UnrolledList.EraseNodesBetween | lib/unrolled_list.h:613-618 | every node from `from` up to, not including, `to` is unlinked |
| UnrolledList.UnrolledList.EraseCoveredNodes | lib/unrolled_list.h:607-619 | blocks become RemoveCovered's: every wholly covered node is unlinked in one pass |
| UnrolledList.UnrolledList.EraseRepeatedly | lib/unrolled_list.h:428-432 | count erases give EraseRepeat's blocks and iterator |
| UnrolledList.UnrolledList.EraseRange | lib/unrolled_list.h:408-435 | blocks and iterator become EraseRangeBlocks': exactly [first, last) removed |
| UnrolledList.UnrolledList.Clear | lib/unrolled_list.h:444-454 | every element of every node is destroyed and the list is empty with size_ 0 |
| UnrolledList.UnrolledList.Swap | lib/unrolled_list.h:227-233 | the two lists exchange contents and nodes, both staying valid |
| UnrolledList.UnrolledList.ExchangeFields | lib/unrolled_list.h:227-233 | the five fields are exchanged |
| UnrolledList.UnrolledList.FromSeq | lib/unrolled_list.h:198-210 | the list built from a sequence holds it, by push_back |
| UnrolledList.UnrolledList.Filled | lib/unrolled_list.h:191-197 | the (n, t) constructor holds n copies of t |
| UnrolledList.UnrolledList.Assign | lib/unrolled_list.h:455-459 | assign builds a new list of the given sequence, swaps it in and destroys the old nodes with the temporary; afterwards the list holds exactly that sequence, as `Build(s, K)` |
| UnrolledList.UnrolledList.DestroyOther | lib/unrolled_list.h:217-219 | destroying another list empties it and leaves this one unchanged |
| Refill.EraseUnsettledFilled | lib/unrolled_list.h:383-400 | erase up to the iterator fix-up with the refill as meant: a node below the floor that fits with neither neighbour takes elements from prev's back (ind grows by their number), else from next's front, until it holds RequiredNodeSize, when the two hold at least 2 · RequiredNodeSize. EraseKeptFilledSpec proves the result |
| Refill.EraseBlocksFilled | lib/unrolled_list.h:361-407 | erase at (k, ind) with the refill as meant and end() where the source gives null (the corrected half of the 395-399 finding). EraseBlocksFilledSpec and EraseFilledKeepsFloor prove its properties |
| Refill.FloorLostAsWritten | lib/unrolled_list.h:395-399 | nodes of 4, 2 and 4 elements with K = 4 are at the floor of 2; erasing the middle node's first element leaves it with 1 as written, while the refill as meant gives [[0, 1, 2], [3, 7], [8, 9, 10, 11]] with the iterator at the same position |
| Refill.AtFloorSplice | lib/unrolled_list.h:565-570 | replacing nodes by nodes at the floor keeps every node at the floor |
| Refill.FillFromPrev | lib/unrolled_list.h:395-396 | FillRightToRequired as meant: prev gives its last RequiredNodeSize − size elements, both nodes end within 1..K and at the floor, the order is kept, and the erased position moves by the count |
| Refill.FillFromNext | lib/unrolled_list.h:397-398 | FillLeftToRequired as meant: next gives its first RequiredNodeSize − size elements, both nodes end within 1..K and at the floor, the order is kept, and the position stays |
| Refill.KeptWithoutFill | lib/unrolled_list.h:383-394 | where no refill applies, the surviving node is as the merge step leaves it |
| Refill.KeptByPrevFill | lib/unrolled_list.h:395-396 | the refill from prev leaves the node surviving, the element gone and the position kept |
| Refill.KeptByNextFill | lib/unrolled_list.h:397-398 | the refill from next leaves the node surviving, the element gone and the position kept |
| Refill.EraseKeptFilledSpec | lib/unrolled_list.h:383-400 | a node that keeps elements survives the merge or refill with every node within 1..K, exactly the element removed, and the erased position kept |
| Refill.EraseBlocksFilledSpec | lib/unrolled_list.h:361-407 | with the refill as meant, erase still removes exactly the designated element, keeps every node within 1..K and returns an iterator to the erased position |
| Refill.UnmergeableCanBeFilled | lib/unrolled_list.h:565-573 | two nodes that do not fit in one hold at least 2 · RequiredNodeSize elements, so the refill as meant applies whenever a merge fails |
| Refill.EraseFilledKeepsFloor | lib/unrolled_list.h:565-570 | with the refill as meant, a list whose nodes all hold at least RequiredNodeSize elements (or that has one node) still does after any erase |
| Scenarios.PushBackNeverFrees | lib/unrolled_list.h:508-537 | push_back adds at most one node and removes none |
| Scenarios.BuildNodeCount | lib/unrolled_list.h:508-537 | n push_backs make ceil(n / K) nodes, the last holding (n − 1) mod K + 1 elements |
| Scenarios.ElevenPushBacksMakeThreeNodes | tests/allocator_ut.cpp:109-123 | 11 push_backs with K = 5 allocate 3 nodes |
| Scenarios.PopsNeverAllocate | lib/unrolled_list.h:498-548 | pop_back and pop_front remove at most one node and add none |
| Scenarios.PopBothEndsFreesTwoNodes | tests/allocator_ut.cpp:125-137 | after 11 push_backs with K = 5, five rounds of pop_back and pop_front free exactly 2 of the 3 nodes |
| Scenarios.TwentyPushBacks | tests/allocator_ut.cpp:139-149 | 20 push_backs with K = 5 fill 4 nodes, and positions 3 and 13 are (0, 3) and (2, 3) |
| Scenarios.FiveErasuresMerge | lib/unrolled_list.h:383-406 | five erasures from (0, 3) in three full nodes end in a merge that leaves two nodes |
| Scenarios.RangeOverFullNodes | tests/allocator_ut.cpp:152-157 | over four full nodes of K = 5, erasing from (0, 3) to (2, 3) leaves two nodes |
| Scenarios.EraseRangeFreesTwoNodes | tests/allocator_ut.cpp:139-157 | erasing [3, 13) from 20 elements with K = 5 frees exactly 2 of the 4 nodes and leaves the elements outside the range |

## Left out

- Debug printing (lib/DebugPrint.h and every Print/Println call) is console output and is treated as a no-op.
- Allocator machinery:
  - allocator_traits, rebind, raw aligned storage and the allocation counters of the test allocator are not modelled;
  - nodes are created with `new`, and slots are an `array` of `Slot` values (`Vacant` or `Holds(x)`);
  - construct and destroy are total, so the exception and rollback paths (lib/unrolled_list.h:202-209, 327-340, 479-486, 515-525, 677-712; lib/Node.h:95-99, 122-126) are not modelled.
- Node counts: allocation and deallocation counts are derived from the change in the number of nodes. No other path creates or frees a node.
- Multi-element insert (range, count and initializer-list forms, lib/unrolled_list.h:291-360) is not modelled. It inserts every element at the same un-advanced index, so it is not a clean sequence operation.
- Dead code is not modelled:
  - SplitNode (lib/unrolled_list.h:846-855) is never called;
  - Node::FindClosest, IncludeCell and DeleteCell (lib/Node.h:195-197, 204-221) are unused;
  - the commented-out blocks are ignored.
- Thin wrappers are not modelled:
  - reverse iterators and the const_iterator duplicate;
  - get_allocator, max_size and operator==;
  - the copy constructor and operator= from another list, which are assign from its elements. `UnrolledList.UnrolledList.Assign` takes those elements as a sequence.
- UnrolledList.UnrolledList.Assign, FromSeq, Filled: these run the source's push_back loop on the heap, proved step by step against `Build(s[..i], K)`, the fold of PushBackBlocks. Assign then swaps the new list in and destroys the old nodes, as the source does. What is left out is the allocator and the exceptions it may throw partway through the loop.
- UnrolledList.UnrolledList.Erase: use after free is not modelled. The source's IsFirstNode/IsLastNode read the freed node's links after EraseNode (lib/unrolled_list.h:372-378). The model reads the prev/next saved at lines 369-370, which hold the values the freed node last had.
- UnrolledList.UnrolledList.EraseNodesFrom: the while loop of EraseCompletlyCoveredNodes (lib/unrolled_list.h:614-618) is written as tail recursion over the chain index, with the same steps in the same order.
- UnrolledList.UnrolledList.Rebalance: the refill branches (lib/unrolled_list.h:395-399) are proved unreachable (CanBeFilledImpliesCanBeMerged) and appear as `assert false`. In the refill branches the heap model follows the code as written. The refill as meant, and the floor it keeps, exist only on blocks (Refill.EraseBlocksFilled); no heap method carries them.
- UnrolledList.UnrolledList.EraseRange, EraseRepeatedly: they are built on the heap erase (UnrolledList.UnrolledList.Erase), which returns end() where the source returns (null, 0) (lib/unrolled_list.h:402-405). EraseRange counts a range inside one node as last.ind − first.ind, where the source over-counts (lib/unrolled_list.h:418-421). Like the source, neither ever refills, so neither keeps the RequiredNodeSize floor.
- UnrolledList.UnrolledList.Insert, AddToFullNode: the split node's back link is the corrected one, the list's own node k, where the source leaves it pointing at the stack copy `tmp_new_node` (lib/unrolled_list.h:266-275). Each as-written behaviour of the list exists only in the as-written members: ChainModel.EraseBlocksAsWritten, ChainModel.EraseRangeBlocksAsWritten, ChainModel.EraseRepeat with AsWritten, and UnrolledList.UnrolledList.SplitInCopyAsWritten.
- NodeBuffer.Node.Erase, NodeBuffer.MoveToRight, UnrolledList.UnrolledList.PopFromLast, FillRightToRequired, SplitFull: they call the corrected NodeBuffer.Node.PopBack, which destroys the last live slot. The source's pop_back (lib/Node.h:94) destroys slot (left_ + size_) mod K. On a full node that is the first element's slot, which the node still counts as live. The paths that reach a full node this way are: an erase from the back half of a full node; the full-node split (MoveToRight from AddToFullNode, lib/unrolled_list.h:696); and pop_back on a full last node. The model does not carry the corruption into these callers. NodeBuffer.PopBackDestroysWrongSlot and NodeBuffer.Node.PopBackAsWritten show it for one call.
- FillLeftToRequired, FillRightToRequired: they require the donor node to hold enough elements. The source calls front()/back() on it without a check, which is undefined on an empty node.
- MergeNodes: the null branches are modelled, but erase never reaches them.
- UnrolledList.UnrolledList.Clear: the nodes' deallocation is modelled as the destruction of their elements and their leaving the list's footprint.
- UnrolledList.UnrolledList.Swap, DestroyOther: they require that neither list is one of the other's nodes. This separation is implicit in C++.
- NodeBuffer.Node.Insert, Erase: they require `ind <= size` / `ind < size` on a non-empty node that has room. The source leaves other indices undefined.
- UnrolledList.UnrolledList.Insert: a position iterator must belong to this list. An iterator into another list is undefined in the source.
- Integer widths: `size_t` arithmetic is modelled with unbounded integers. Wrap-around matters where CalcModInd gets a negative argument, at three call sites: `left_ - 1` (lib/Node.h:110 in push_front, lib/Node.h:189 for insert), `new_memory_index - (size_ - ind)` in insert (lib/Node.h:150), and `from - 1` in SiftLeft's loop, whose `from` goes below 0 (lib/Node.h:248-250). Every such argument is at least −K, and `Ring.CalcModIndAsUnsigned` shows the unsigned result equal to the model's on all of [−K, 2^64 − K).

## Findings

| source | as written | input that shows it | evidently intended | confidence | as-written member | corrected member |
|---|---|---|---|---|---|---|
| lib/Node.h:94 | pop_back destroys slot (left_ + size_) mod K, one past the last element | K = 2, a full node: the destroyed slot holds the first element, and the last element stays constructed | destroy slot (left_ + size_ − 1) mod K | high (not executed) | NodeBuffer.PopBackDestroysWrongSlot | NodeBuffer.Node.PopBack |
| lib/unrolled_list.h:266-275 | a full node is split in the stack copy `tmp_new_node`; after std::swap the new node's prev_ is still &tmp_new_node | insert into a list of one full node: the new node's back link is the copy, destroyed when insert returns | the new node's prev_ is the list's node | high (not executed) | UnrolledList.UnrolledList.SplitInCopyAsWritten | UnrolledList.UnrolledList.AddToFullNode |
| lib/unrolled_list.h:402-405 | erasing the last element of a surviving last node returns (null, 0) | erase index 1 of [[1, 2]] with K = 4 | return end() = (last node, its size) | high (not executed) | ChainModel.EraseLastReturnsNull | ChainModel.EraseBlocksSpec |
| lib/unrolled_list.h:418-421 | with first and last in one node and first.ind > 0, elem_cnt is first_sz − first.ind + last.ind, too large by the node's size | erase [1, 2) of [[0, 1, 2, 3]] with K = 4 leaves [[0]] | elem_cnt = last.ind − first.ind | high (not executed) | ChainModel.RangeEraseOvercounts | ChainModel.EraseRangeBlocksSpec |
| lib/unrolled_list.h:395-399 | the refill tests CanBeFilled (the two nodes hold fewer than 2 · RequiredNodeSize), which implies they fit in one node, so the merge before it has already run and the refill never does; a node below the floor that fits with neither neighbour stays below it | nodes [[0, 1, 2, 3], [6, 7], [8, 9, 10, 11]], K = 4: erasing 6 leaves [7] between two full nodes, below RequiredNodeSize 2 | refill when the two hold at least 2 · RequiredNodeSize, so both can reach the floor | high (not executed) | Refill.FloorLostAsWritten | Refill.EraseBlocksFilled |
