# Verified models of the systems labs

This project models the self-contained cores of a collection of systems programs written in C and proves
properties of the models with Dafny 4.11. `dafny verify dfyconfig.toml` checks everything.

**The allocator** (`HeapWords`, `HeapLayout`, `HeapTags`, `FreeLists`, `Allocator`, `HeapFacts`, `HeapCheck`).
One array of 64-bit words holds headers, footers, free-list links and payloads; two arrays hold the list
heads. The class `SegHeap` rewrites these words in place. Ghost fields say what the words mean: a layout (a map
from block starts to blocks) and the contents of the free lists. Addresses are word indices from a 16-byte
aligned base, and a link holds the byte address. The invariant says that blocks tile the heap up to the
epilogue, that every size, flag bit and footer agrees with the layout, that no two neighbouring blocks are
free, and that each free block is in exactly the list it belongs to. Every operation is proved to turn the
layout into the layout its name promises (`Freed`, `Placed`, `Append`), and to leave the payload words of all
other live blocks alone, although links, tags and payloads share the array.

**The splay tree** (`Trees`, `TreePotential`, `TreeLinks`, `KeyOrder`, `SplayNodes`, `SplayTree`). Nodes are
objects with `left`, `right` and `parent`. Links are taken down as a map from nodes to their three pointers, and
related to an inductive tree and to a path in it. Rotations, the splay loop and the deletion by successor are
proved on these, the search tree is proved to be a finite map, and the splay loop is charged against a potential.

**The sparse memory** (`ByteWords`, `FlatMemory`, `PageTables`, `SparseMemory`). Pages come from a pool and are
found through bucket chains; loads pick up arbitrary bytes past the end of a page; accesses may straddle pages.
The store refines a flat map from addresses to bytes. Memory outside the heap is the map `host`. Leaving the
program (exit, abort, fault) is an outcome.

**The shell's job control** (`JobTable`, `JobList`, `ShellRuns`, `ShellAborts`). The job list is an array updated in place; its
methods are proved against functions on table values. The same functions drive a transition system in which the
parent side of command evaluation, the children and the SIGCHLD handler interleave in every way the signal mask
allows. Children that are forked while the table is full are remembered as untracked.

**The command line parser** (`CommandLines`, `CommandForms`, `CommandParser`). The line is split in place in a buffer and
described by positions; the method is proved against a scanner on strings, about which the round trip is proved.

**The cache simulator** (`CacheSets`, `CacheTraces`, `CacheRecency`, `CacheSimulator`), **the buffered reader** (`RobustRead`),
**the signal-safe printf** (`Numerals`, `SafePrintf`, `FormatStrings`, `FormatMeaning`,
`SafeOutput`), **the proxy's response
cache** (`CacheQueues`, `ResponseCache`) and **the bit counter** (`BitCount`) follow the same pattern: methods
that work in place, proved against functions whose properties are lemmas. `Basics` holds what several
of them share.

## What the code does not do

Where the code falls short of what its comments or tests promise, the code is kept and the exact condition is
proved.

- `coalesce_block` forgets to move `heap_end` when the last block is freed and merges with its predecessor:
  `HeapFacts.HeapEndKept` (exactly then) and `HeapFacts.HeapEndLost` (a run that gets there). `extend_heap`
  relies on `heap_end`, and would take old payload words for links (`HeapFacts.FreeForgotten`), so `Malloc` requires
  it to be right, or a free block to fit, or the system to refuse; `HeapFacts.HeapEndRestored` says exactly when an
  allocation leaves it right.
- The size computation in `malloc` wraps around: the block covers the request exactly when the request is at most
  2^64 - 24 bytes. For sixteen larger requests the size comes out as 0 (`HeapFacts.RequestExact`): the address
  of a block that stays free is returned (`Allocator.SegHeap.Malloc`), and the heap is broken exactly if the block
  before it is of minimum size (`HeapTags.RetaggedExact`; `HeapFacts.NothingAllocated` is such a run).
- `mm_checkheap` wants the epilogue to be 1, so it rejects every good heap whose last block is allocated
  (`HeapCheck.CheckHeap`, an equivalence; `HeapCheck.GoodHeapRejected` exhibits one).
- The first branch of `coalesce_block` can never be taken (asserted in `Allocator.SegHeap.CoalesceBlock`).
- `mem_memcpy` goes wrong on a range of more than 8 bytes copied onto its own tail
  (`FlatMemory.CopyExact`, an equivalence).
- The cache simulator is a least-recently-used cache for one and two lines per set and for no other number
  (`CacheTraces.AgreesExactly`, an equivalence). What it is for any number is `CacheRecency.PartsAgree`: all evictions
  come from the first two lines.
- The response cache is not bounded by its maximum: a full cache grows if objects at its head are together one byte
  shorter than the new one (`CacheQueues.AddedWithin`, an equivalence). One-byte objects grow a full cache without end
  (`CacheQueues.GrowsWithoutBound`); `CacheQueues.AddedBound` has the bound that does hold.
- Moving the tail of the response cache to the tail makes the object lead to itself, which breaks the queue exactly
  then (`ResponseCache.Cache.ReplaceTail`).
- The shell aborts when an untracked child stops, and when `bg` or `fg` names an unknown process, and for no other
  reason (`ShellRuns.ReapSafe`, `ShellRuns.ResumeSafe`, `ShellRuns.OnlyUnknownJobs`). Both happen
  (`ShellAborts.OneTooMany`, `ShellAborts.UnknownProcess`).
- `parseline` takes 127 arguments, one less than its header promises, and ignores the rest of the line once it has
  them: files and the ampersand count only up to 126 arguments (`CommandLines.ParseExact`, an equivalence;
  `CommandLines.BackgroundLost`, a line that fails).

## Model

| member | source | states |
|---|---|---|
| `HeapWords.Pack` | Lab5/mm.c:188-215 | packing a size and three flags loses none of them: each extractor gives back its part |
| `HeapWords.FlagUpdates` | Lab5/mm.c:615-720 | setting or clearing a flag of a packed word changes that flag alone |
| `HeapWords.SpliceBytes` | Lab5/memlib.c:427-430 | a partial word copy takes exactly the low bytes and keeps the others |
| `HeapLayout.FreedShape` | Lab5/mm.c:615-720 | in all four cases freeing a block keeps the tiling and gives one free block between two live neighbours |
| `HeapLayout.FreedBlocks` | Lab5/mm.c:615-720 | no block changes but those merged and the back link of the one after them |
| `HeapLayout.FreedCoalesced` | Lab5/mm.c:615-720 | after a free no two neighbouring blocks are free |
| `HeapLayout.PlacedShape` | Lab5/mm.c:1015-1069 | allocating from a free block keeps the tiling and leaves no free neighbours |
| `HeapLayout.PlacedBlocks` | Lab5/mm.c:1015-1069 | only the block, its remainder and the back link of what follows change |
| `HeapLayout.AppendTiled` | Lab5/mm.c:724-783 | extending keeps the tiling whether or not the last block is free |
| `HeapLayout.AppendBlocks` | Lab5/mm.c:724-783 | extending changes only the last block |
| `HeapLayout.AppendCoalesced` | Lab5/mm.c:724-783 | extending never leaves two free neighbours |
| `HeapTags.FreedTagged` | Lab5/mm.c:615-720 | the words written by a free make every header, footer, prev_alloc and prev_min bit and the epilogue agree with the new layout |
| `HeapTags.RetaggedExact` | Lab5/mm.c:1015-1069 | tagging a free block as if nothing small came before it is right exactly if nothing small does |
| `HeapTags.PlacedTagged` | Lab5/mm.c:1015-1069 | the same for a split |
| `HeapTags.AppendTagged` | Lab5/mm.c:724-783 | the same for an extension |
| `HeapTags.FreedKeeps` | Lab5/mm.c:1124-1144 | a free changes no payload word of another live block |
| `HeapTags.PlacedKeeps` | Lab5/mm.c:1015-1069 | a split changes no payload word of any live block |
| `HeapTags.AppendKeeps` | Lab5/mm.c:724-783 | an extension changes no payload word of any live block |
| `FreeLists.GetIndexIs` | Lab5/mm.c:485-504 | which sizes a class holds: those from 32 * 2^c to 64 * 2^c, all smaller ones in the first and all larger ones in the last |
| `FreeLists.GetIndexMonotone` | Lab5/mm.c:485-504 | larger sizes have no smaller class |
| `FreeLists.SameBucket` | Lab5/mm.c:425-430 | minimum-size blocks share a bucket exactly if their addresses differ by a multiple of six |
| `FreeLists.PoppedListed` | Lab5/mm.c:508-581 | popping takes a block out of its list and leaves every other membership as it was |
| `FreeLists.PushedListed` | Lab5/mm.c:585-611 | pushing puts a block into the one list it belongs to |
| `FreeLists.PopSegLinked` | Lab5/mm.c:508-581 | unlinking at any position leaves the links of every list spelling out its contents |
| `FreeLists.PopMinLinked` | Lab5/mm.c:425-463 | the same for the table of minimum-size blocks |
| `FreeLists.PushSegLinked` | Lab5/mm.c:585-611 | linking at the head leaves the links of every list spelling out its contents |
| `FreeLists.PushMinLinked` | Lab5/mm.c:465-482 | the same for the table of minimum-size blocks |
| `FreeLists.PopFrame` | Lab5/mm.c:508-581 | popping writes link words of free blocks and nothing else |
| `FreeLists.PushFrame` | Lab5/mm.c:585-611 | pushing writes link words of free blocks and nothing else |
| `FreeLists.FreedListed` | Lab5/mm.c:615-720 | after a free each free block but the merged one is in exactly its list |
| `FreeLists.PlacedListed` | Lab5/mm.c:1015-1069 | the same for a split and its remainder |
| `FreeLists.AppendListed` | Lab5/mm.c:724-783 | the same for an extension and the last block |
| `FreeLists.FirstFitComplete` | Lab5/mm.c:787-810 | the search finds a block that fits, and finds none exactly when no free block in the heap is large enough |
| `FreeLists.FirstFitFirst` | Lab5/mm.c:787-810 | the block found is the first in its list and class that is large enough, or the head of the first minimum-size list when 16 bytes are wanted |
| `FreeLists.FirstFitNothing` | Lab5/mm.c:787-810 | a search for no bytes finds a free block above the minimum size, and none exactly when there is none |
| `FreeLists.EmptyHeapTest` | Lab5/mm.c:724-783 | the two words that extend_heap compares with 1 are both 1 exactly when the heap has no block |
| `FreeLists.PayloadWrites` | Lab5/mm.c:350-362 | writing into a live payload disturbs no tag, no list and no other payload |
| `Allocator.SegHeap.PopMinBlock` | Lab5/mm.c:425-463 | the words and the bucket head become those of the list without the block |
| `Allocator.SegHeap.PushMinBlock` | Lab5/mm.c:465-482 | the words and the bucket head become those of the list with the block in front |
| `Allocator.SegHeap.PopSegBlock` | Lab5/mm.c:508-581 | at every position in its list, and never reaching the final assertion, the block is unlinked |
| `Allocator.SegHeap.Pop` | Lab5/mm.c:508-581 | exactly the given block leaves its list and all else stays right |
| `Allocator.SegHeap.PushSegBlock` | Lab5/mm.c:585-611 | the words and the class head become those of the list with the block in front |
| `Allocator.SegHeap.Push` | Lab5/mm.c:585-611 | a free block in no list enters the one it belongs to |
| `Allocator.SegHeap.WriteBlock` | Lab5/mm.c:350-362 | which words get the tag and that no other word changes |
| `Allocator.SegHeap.FindFreePrev` | Lab5/mm.c:668-676 | the free block before a freed one is found, two words back or by its footer |
| `Allocator.SegHeap.CoalesceNone` | Lab5/mm.c:615-720 | case 1 of coalescing |
| `Allocator.SegHeap.CoalesceNext` | Lab5/mm.c:615-720 | case 2 of coalescing |
| `Allocator.SegHeap.CoalescePrev` | Lab5/mm.c:668-690 | case 3 of coalescing, in which heap_end is not updated and the words of the freed block are left behind |
| `Allocator.SegHeap.CoalesceBoth` | Lab5/mm.c:615-720 | case 4 of coalescing |
| `Allocator.SegHeap.CoalesceBlock` | Lab5/mm.c:615-720 | the layout, the words, the lists and heap_end after merging, in all cases |
| `Allocator.SegHeap.MemSbrk` | Lab5/memlib.c:228-272 | the break moves by the request or not at all |
| `Allocator.SegHeap.FindFit` | Lab5/mm.c:787-810 | the walks over the lists find the first fit |
| `Allocator.SegHeap.ExtendHeap` | Lab5/mm.c:724-783 | given the right heap_end the invariant is kept, the last block is free and longer, and heap_end names it; refusal changes nothing, whatever heap_end is |
| `Allocator.SegHeap.SplitBlock` | Lab5/mm.c:1015-1069 | the invariant is kept, the block is allocated with its remainder given back, and heap_end stays right if it was |
| `Allocator.SegHeap.SplitNothing` | Lab5/mm.c:1015-1069 | a split for no bytes leaves the block free and listed, and its tags are right exactly if the block before it is not of minimum size |
| `Allocator.SegHeap.MmInit` | Lab5/mm.c:981-1011 | a heap of one free chunk, or failure, and nothing live |
| `Allocator.SegHeap.AdjustedSize` | Lab5/mm.c:1073-1121 | the least multiple of 16 that holds the request and its header |
| `Allocator.SegHeap.Malloc` | Lab5/mm.c:1073-1121 | NULL is returned exactly when no free block holds the request and the system refuses the chunk or block it takes; otherwise exactly one new live block of the least size that holds the request appears, the heap has grown by just what was needed, the invariant is kept, no other payload changes, and heap_end follows a block taken from the end; for a request that wraps around to 0 the block stays free and listed |
| `Allocator.SegHeap.Free` | Lab5/mm.c:1124-1144 | the invariant is kept, exactly one block stops being live, the layout is merged, the merged block heads its list and no other payload changes |
| `Allocator.SegHeap.StoreWord` | Lab5/mm.c:243-246 | a store into a live payload keeps the invariant and all other payloads |
| `Allocator.SegHeap.MemCopy` | Lab5/memlib.c:414-432 | every byte of the range arrives and no word outside it changes |
| `Allocator.SegHeap.Realloc` | Lab5/mm.c:1148-1183 | the new block starts with the smaller of the two sizes of old bytes, exactly the old block is gone and no other payload changes; exactly when NULL is returned, and that it leaves all live blocks alone |
| `HeapFacts.WalkComplete` | Lab5/mm.c:374-379 | walking by sizes from the start meets every block once, in order |
| `HeapFacts.WalkBytes` | Lab5/mm.c:374-379 | the sizes add up to the distance walked |
| `HeapFacts.BytesConserved` | Lab5/mm.c:615-783 | free and split conserve the total bytes and an extension adds exactly its own |
| `HeapFacts.PayloadsApart` | Lab5/mm.c:243-246 | payloads are 16-byte aligned, inside the heap and disjoint |
| `HeapFacts.HeapEndKept` | Lab5/mm.c:668-690 | heap_end names the last block after a free exactly unless the last block was freed and merged backwards |
| `HeapFacts.FreeForgotten` | Lab5/mm.c:668-690 | what every such free leaves at heap_end: a word that extend_heap takes for the tag of a free block, and old payload words where pop reads links |
| `HeapFacts.HeapEndLost` | Lab5/mm.c:668-690 | a run of mm_init, two mallocs, two stores of any words and two frees on any heap of a chunk or more, after which heap_end is wrong and pop would take the two words for links |
| `HeapFacts.HeapEndRestored` | Lab5/mm.c:1015-1069 | heap_end is right after an allocation exactly if it was right before or the word after the block used is an epilogue of 1 |
| `HeapFacts.RequestExact` | Lab5/mm.c:1073-1121 | the adjusted size covers the request exactly when the request is at most 2^64 - 24, and which requests it is 0 for |
| `HeapFacts.NothingAllocated` | Lab5/mm.c:1015-1121 | a request of 2^64 - 8 bytes is answered with a block that stays free, and breaks a tag of the heap |
| `HeapCheck.ListsCount` | Lab5/mm.c:907-974 | all lists together have as many nodes as there are free blocks |
| `HeapCheck.CheckBlock` | Lab5/mm.c:834-892 | none of the checks of one block fails in a good heap |
| `HeapCheck.CheckBlocks` | Lab5/mm.c:834-892 | the walk counts the free blocks and ends at the epilogue |
| `HeapCheck.CheckSeg` | Lab5/mm.c:927-969 | none of the checks of a list fails in a good heap, and its nodes are counted |
| `HeapCheck.CheckHeap` | Lab5/mm.c:815-978 | a good heap is accepted exactly when the word at the end of the block of heap_end is 1; with the right heap_end that is the epilogue, so never when the last block is allocated |
| `HeapCheck.GoodHeapRejected` | Lab5/mm.c:815-978 | a heap that two allocations fill is good and is rejected |
| `Trees.RotSame` | Lab5/stree.c:186-226 | a rotation keeps the in-order sequence and the elements |
| `Trees.StepKeeps` | Lab5/stree.c:228-260 | a round of the loop lifts the element and keeps the in-order sequence, in all six cases |
| `Trees.SplayedSame` | Lab5/stree.c:228-260 | splaying ends with the element at the root and the in-order sequence unchanged |
| `Trees.WithoutRootParts` | Lab5/stree.c:134-153 | taking the root out removes it alone from the in-order sequence |
| `TreePotential.ZigZigPhi` | Lab5/stree.c:239-248 | two rotations on the same side, outer one first, are paid for by the gain in rank |
| `TreePotential.ZigZagPhi` | Lab5/stree.c:249-258 | two rotations on opposite sides are paid for by the gain in rank |
| `TreePotential.AccessBound` | Lab5/stree.c:228-260 | rounds plus change in potential are at most 3 (rank of the root - rank of the node) + 1 |
| `TreePotential.InsertBound` | Lab5/stree.c:41-79 | an insertion costs at most 4 log2 of the size plus 1, rounds and potential together |
| `TreePotential.RemoveBound` | Lab5/stree.c:120-156 | a removal costs at most 3 log2 of the size plus 1 |
| `TreeLinks.LeftRotatedSpells` | Lab5/stree.c:186-205 | the pointer writes of a left rotation rotate the tree and keep parent and child links consistent |
| `TreeLinks.RightRotatedSpells` | Lab5/stree.c:207-226 | the pointer writes of a right rotation rotate the tree and keep parent and child links consistent |
| `TreeLinks.ReplacedSpells` | Lab5/stree.c:262-272 | replacing a node with at most one child by that child keeps the links consistent |
| `TreeLinks.DetachedReady` | Lab5/stree.c:141-147 | the successor leaves its place and takes over the right subtree |
| `TreeLinks.SwappedSpells` | Lab5/stree.c:148-150 | the successor takes the place of the removed root |
| `KeyOrder.MapOfInsert` | Lab5/stree.c:41-79 | a node put at its place adds its key to the map and keeps the order |
| `KeyOrder.MapOfRemove` | Lab5/stree.c:120-156 | a node taken out removes exactly its key |
| `KeyOrder.SearchFound` | Lab5/stree.c:81-96 | the search ends at a node exactly when the key is in the map |
| `KeyOrder.NearestBefore` | Lab5/stree.c:98-118 | what precedes the place where a search fails is the largest smaller key |
| `SplayTree.Splay.LeftRotate` | Lab5/stree.c:186-205 | the fields after the writes, and the root |
| `SplayTree.Splay.RightRotate` | Lab5/stree.c:207-226 | the fields after the writes, and the root |
| `SplayTree.Splay.SplayUp` | Lab5/stree.c:228-260 | the loop ends with the node at the root of the splayed tree after the counted rounds |
| `SplayTree.Splay.Find` | Lab5/stree.c:81-96 | the record of the key, or NULL exactly when it is absent |
| `SplayTree.Splay.FindNearest` | Lab5/stree.c:98-118 | the record of the largest key not above the argument |
| `SplayTree.Splay.Insert` | Lab5/stree.c:41-79 | true exactly for an absent key, which is added as a leaf and splayed to the root; nothing changes otherwise; the count and the budget are kept |
| `SplayTree.Splay.SubtreeMinimum` | Lab5/stree.c:274-279 | the smallest node of the subtree and the path to it |
| `SplayTree.Splay.Replace` | Lab5/stree.c:262-272 | the fields after the writes, and the root |
| `SplayTree.Splay.Remove` | Lab5/stree.c:120-156 | exactly the key is splayed to the root and removed and its record returned, NULL if it was absent; the count and the budget are kept |
| `SplayTree.Splay.CountIsSize` | Lab5/stree.c:41-156 | node_count is the size of the map |
| `SplayTree.Splay.RoundsBounded` | Lab5/stree.c:228-260 | over any run the splay rounds stay within 4 log2 of the peak size plus 1 for each insertion and removal |
| `ByteWords.FromBytesAt` | Lab5/memlib.c:323-365 | an eight-byte load has the bytes of memory in little-endian order |
| `ByteWords.JoinAt` | Lab5/memlib.c:335-349 | masking the low part and shifting the high part joins the two halves of a straddling read |
| `ByteWords.SameBytes` | Lab5/memlib.c:323-365 | a word is determined by its bytes |
| `ByteWords.HalvesRoundTrip` | Lab5/memlib.c:308-320 | the halves of a 128-bit value put together give the value |
| `FlatMemory.ReadBack` | Lab5/memlib.c:323-411 | what was written is what is read, cut to its length |
| `FlatMemory.CopyIsCopy` | Lab5/memlib.c:414-432 | copying in words equals copying at once for disjoint ranges and for copies downwards |
| `FlatMemory.OverlapBreaks` | Lab5/memlib.c:414-432 | contents on which an overlapping upward copy goes wrong |
| `FlatMemory.CopyExact` | Lab5/memlib.c:414-432 | copying in words is right for all contents exactly when the destination is not above the source, or the ranges are disjoint, or at most 8 bytes are copied |
| `PageTables.LatestSkips` | Lab5/memlib.c:533-535 | following a chain misses no page of its bucket |
| `PageTables.WithBitAt` | Lab5/memlib.c:570-575 | setting a byte's bit sets no other |
| `PageTables.TwoPages` | Lab5/memlib.c:323-349 | where a straddling access is cut, and how many pages it allocates |
| `SparseMemory.Memory.FindPage` | Lab5/memlib.c:529-535 | the page of an id is found exactly when there is one |
| `SparseMemory.Memory.NewPage` | Lab5/memlib.c:536-560 | a new page is put in front of its own chain with no bit set |
| `SparseMemory.Memory.MarkWritten` | Lab5/memlib.c:566-596 | a write sets exactly the bits of its bytes on this page |
| `SparseMemory.Memory.CheckWritten` | Lab5/memlib.c:566-596 | a checked read goes on exactly when all its bytes on this page have been written |
| `SparseMemory.Memory.GetMem` | Lab5/memlib.c:527-601 | which page is found or allocated, and exactly when the run ends instead |
| `SparseMemory.Memory.LoadWord` | Lab5/memlib.c:330-348 | an eight-byte load has the page's bytes up to its end and anything beyond |
| `SparseMemory.Memory.Read` | Lab5/memlib.c:323-365 | the little-endian value of the flat memory wherever bytes are written, exactly when the read succeeds, and how it fails |
| `SparseMemory.Memory.Write` | Lab5/memlib.c:368-411 | the flat memory with the value's bytes stored, across a page border too, exactly when the write succeeds, and how it fails |
| `SparseMemory.Memory.Read128` | Lab5/memlib.c:308-314 | the two halves of the flat memory |
| `SparseMemory.Memory.Write128` | Lab5/memlib.c:316-320 | the flat memory with all sixteen bytes stored |
| `SparseMemory.Memory.MemCpy` | Lab5/memlib.c:414-432 | the flat memory after copying in words, and success when source bytes are written and pages suffice |
| `SparseMemory.Memory.MemSet` | Lab5/memlib.c:435-457 | the flat memory with the range filled, and success when pages suffice |
| `SparseMemory.Memory.Reset` | Lab5/memlib.c:194-221 | nothing is written any more and all pages are free |
| `SparseMemory.Memory.SetUBCheck` | Lab5/memlib.c:90-93 | the checks can be switched at any time: the store stays right, with all its bytes and marks |
| `SparseMemory.Memory.Sbrk` | Lab5/memlib.c:228-272 | the break moves by the request or not at all, and memory stays as it was |
| `SparseMemory.Memory.EachInItsBucket` | Lab5/memlib.c:527-556 | each page id has one page, found in the chain of its own bucket and in no other |
| `SparseMemory.Memory.BitsExact` | Lab5/memlib.c:560-596 | a byte's initSet bit is set exactly when the byte has been written since the reset, and then the page holds it |
| `JobTable.LargestIs` | Lab4/tsh_helper.c:287-294 | the largest job ID in use |
| `JobTable.FoundByPid` | Lab4/tsh_helper.c:441-462 | a job is found exactly when the table lists the process |
| `JobTable.NextJid` | Lab4/tsh_helper.c:340-415 | nextjid is one more than the largest ID in use and no slot from it on is in use |
| `JobTable.AddKeeps` | Lab4/tsh_helper.c:340-391 | adding a new process hits no assertion, keeps the invariant and all other jobs and makes just this process known with its state and command line, or returns 0 exactly when the IDs are used up |
| `JobTable.DeleteKeeps` | Lab4/tsh_helper.c:399-415 | deleting keeps the invariant and all other jobs and forgets just the one process |
| `JobTable.SetStateKeeps` | Lab4/tsh_helper.c:480-487 | setting a state keeps the invariant, the rest of the job and all other jobs |
| `JobTable.AddAborts` | Lab4/tsh_helper.c:340-391 | exactly when adding a job ends the shell, and that the free-slot assertions never do |
| `JobTable.SetAborts` | Lab4/tsh_helper.c:310-334 | exactly when setting a state ends the shell, and why |
| `JobList.Jobs.FindMaxJid` | Lab4/tsh_helper.c:287-294 | the downward loop finds the largest ID in use |
| `JobList.Jobs.FindFgJob` | Lab4/tsh_helper.c:421-435 | the loop finds the first foreground job |
| `JobList.Jobs.FindJobFromPid` | Lab4/tsh_helper.c:441-462 | the loop finds the first job of the process |
| `JobList.Jobs.Add` | Lab4/tsh_helper.c:340-391 | the answer, the aborts and the whole new list |
| `JobList.Jobs.Delete` | Lab4/tsh_helper.c:399-415 | the answer and the whole new list |
| `JobList.Jobs.ChangeState` | Lab4/tsh_helper.c:480-487 | the answer, the aborts and the whole new list |
| `ShellRuns.AddSafe` | Lab4/tsh.c:385-455 | entering a forked child never aborts, gives it a job in the state and with the command line of the command, and leaves it untracked exactly when the table is full |
| `ShellRuns.ReapSafe` | Lab4/tsh.c:471-507 | a report of the handler keeps the invariant; an ended child is forgotten, a stopped one has its job in the stopped state, and the shell aborts exactly for an untracked child that stopped |
| `ShellRuns.ResumeSafe` | Lab4/tsh.c:287-383 | bg and fg keep the invariant, leave the child not stopped with its job in the state asked for, and abort exactly for an unknown process |
| `ShellRuns.NextSafe` | Lab4/tsh.c:236-507 | every step in every interleaving keeps the invariant |
| `ShellRuns.TableIsChildren` | Lab4/tsh.c:236-507 | over every run, whenever signals are unblocked the table lists exactly the children forked and not reaped, untracked ones aside |
| `ShellRuns.StoppedJobs` | Lab4/tsh.c:471-507 | over every run, a child whose stop has been reported has its job in the stopped state |
| `ShellRuns.Foreground` | Lab4/tsh.c:370-457 | over every run at most the awaited job is in the foreground, and none between commands |
| `ShellRuns.OnlyUnknownJobs` | Lab4/tsh_helper.c:310-334 | over every run an unknown job is the only cause of an abort |
| `ShellRuns.TableInvariant` | Lab4/tsh_helper.c:340-415 | over every run nextjid is one more than the largest ID and the slots from it on are unused |
| `ShellAborts.UnknownProcess` | Lab4/tsh.c:294-380 | a run in which bg or fg names a process that no job has, and the shell aborts |
| `ShellAborts.UntrackedStops` | Lab4/tsh.c:467-507 | every run that is at the prompt with a running untracked child can go on to an abort: the child stops |
| `ShellAborts.ManyChildren` | Lab4/tsh.c:385-460 | runs with any number of background children; those beyond the size of the table are untracked |
| `ShellAborts.OneTooMany` | Lab4/tsh.c:385-507 | a run with 65 children whose last one stops, and the shell aborts |
| `ShellAborts.WaitEnds` | Lab4/tsh.c:445-507 | every run that waits for a running child can go on to the prompt: the child ends and its job is gone, or it stops and its job is stopped |
| `CommandLines.ScanQuoted` | Lab4/tsh_helper.c:103-110 | a quoted token is read back whole |
| `CommandLines.ScanFull` | Lab4/tsh_helper.c:76-150 | from 127 quoted arguments on, the first 127 are read and the rest of the line is ignored |
| `CommandLines.ParseExact` | Lab4/tsh_helper.c:45-183 | exactly which quoted command lines parse back to themselves, for any number of arguments, files and ampersand |
| `CommandLines.ParseQuoted` | Lab4/tsh_helper.c:45-183 | 1 to 126 quoted arguments with optional files parse back to exactly themselves, and an ampersand changes only where the command runs |
| `CommandLines.BackgroundLost` | Lab4/tsh_helper.c:76-183 | 127 arguments and an ampersand: the command comes out in the foreground |
| `CommandForms.ParseWritten` | Lab4/tsh_helper.c:45-183 | a line of up to 126 words in double quotes, in single quotes or bare, with redirections anywhere and any blanks in between, parses to just these words and files; a last word that starts with an ampersand puts the command into the background; which first word is which builtin |
| `CommandForms.SecondRedirection` | Lab4/tsh_helper.c:76-100 | a second input or output file is an error |
| `CommandForms.NoFileName` | Lab4/tsh_helper.c:150-160 | a redirection without a file name is an error |
| `CommandForms.OpenQuote` | Lab4/tsh_helper.c:102-118 | a quote that is not closed is an error |
| `CommandForms.LongLine` | Lab4/tsh_helper.c:45-75 | only the first 1023 characters of a line count |
| `CommandParser.Split` | Lab4/tsh_helper.c:76-150 | splitting in place gives exactly the scanner's tokens at the recorded positions, or fails when it fails |
| `CommandParser.Parse` | Lab4/tsh_helper.c:45-183 | the answer and the record are those of the parsed line |
| `CacheSets.AccessKeeps` | Lab3/csim.c:77-131 | an access keeps tags distinct and lines filled in order, and how valid and dirty lines change |
| `CacheSets.AccessEvent` | Lab3/csim.c:77-131 | a hit exactly when the tag is there, an eviction only in a full set |
| `CacheSets.AccessIsReference` | Lab3/csim.c:77-131 | with one or two lines an access is an access to a recency list |
| `CacheTraces.Conserved` | Lab3/csim.c:77-131 | over any trace and any number of lines, hits and misses are the accesses, misses less evictions the valid lines, and bytes made dirty are evicted or still dirty |
| `CacheTraces.FromEmpty` | Lab3/csim.c:38-131 | the same from an empty cache with zero counters |
| `CacheTraces.AgreesFrom` | Lab3/csim.c:77-131 | over any trace the simulator with one or two lines and the recency lists stay in step |
| `CacheTraces.LastFour` | Lab3/csim.c:77-131 | four accesses after which a larger set has evicted a block that is not the least recently used |
| `CacheTraces.AgreesExactly` | Lab3/csim.c:77-131 | all counters agree with a least-recently-used cache on all traces exactly for at most two lines per set |
| `CacheRecency.AccessIsParts` | Lab3/csim.c:77-131 | for any number of lines an access is an access to a reference with two blocks kept by recency, from which all evictions come, and others that stay |
| `CacheRecency.PartsAgree` | Lab3/csim.c:77-131 | from an empty cache, for any number of lines and every trace, all counters are those of this reference |
| `CacheSimulator.Load` | Lab3/csim.c:77-131 | the set and the counters after an access |
| `CacheSimulator.Cache.RunTrace` | Lab3/csim.c:77-131 | the cache and the counters after a trace |
| `RobustRead.LineEnds` | Lab6/csapp.c:543-567 | a line ends at its first newline, at the maximum or at the end of the stream |
| `RobustRead.Reader.Read` | Lab6/csapp.c:482-509 | the next bytes of the stream, however it is chunked or interrupted |
| `RobustRead.Reader.ReadN` | Lab6/csapp.c:523-538 | as many bytes as asked for unless the stream ends, and exactly when it fails |
| `RobustRead.Reader.ReadLine` | Lab6/csapp.c:543-567 | the next line of the stream, terminated, nothing written beyond, and exactly when it fails |
| `RobustRead.RunCalls` | Lab6/csapp.c:482-567 | any sequence of calls, up to the first that fails, hands out consecutive segments with nothing lost, repeated or moved, each a whole line or the bytes asked for |
| `Numerals.NumeralIs` | Lab6/csapp.c:67-78 | a numeral has its number as value and no leading zero |
| `Numerals.NumeralUnique` | Lab6/csapp.c:67-78 | no other string of digits without leading zero has that value |
| `SafePrintf.WriteDigits` | Lab6/csapp.c:67-78 | the reversed numeral and nothing outside it |
| `SafePrintf.Reverse` | Lab6/csapp.c:57-64 | the stretch is reversed in place and nothing outside it changes |
| `SafePrintf.UnsignedToString` | Lab6/csapp.c:99-104 | the numeral and a terminator |
| `SafePrintf.SignedToString` | Lab6/csapp.c:82-96 | the signed numeral and a terminator |
| `FormatStrings.NextPiece` | Lab6/csapp.c:166-325 | a piece is not empty and never goes past the end of the format |
| `FormatStrings.ShortNumerals` | Lab6/csapp.c:160-164 | no conversion outgrows the buffer |
| `FormatStrings.PlainFormat` | Lab6/csapp.c:316-325 | a format without percent signs prints itself |
| `FormatStrings.EscapedPrints` | Lab6/csapp.c:348-372 | printing a string with its percent signs doubled prints the string |
| `SafeOutput.HandleFormat` | Lab6/csapp.c:166-325 | the piece taken, what it prints and the arguments left |
| `SafeOutput.Vdprintf` | Lab6/csapp.c:348-372 | the left-to-right expansion of the format is written, or the part that fits before the descriptor fails |
| `FormatMeaning.DigitsAre` | Lab6/csapp.c:66-80 | the digits are the decimal ones and then the small letters |
| `FormatMeaning.UnsignedPrints` | Lab6/csapp.c:235-305 | u, x and o, with and without l and z, print the numeral in base 10, 16 and 8 |
| `FormatMeaning.SignedPrints` | Lab6/csapp.c:229-290 | d and i, with and without l and z, print a minus sign exactly for negatives and the decimal numeral |
| `FormatMeaning.PointerPrints` | Lab6/csapp.c:214-312 | p prints 0x and the hexadecimal numeral, or (nil) |
| `FormatMeaning.StringPrints` | Lab6/csapp.c:193-202 | s prints the string, or (null) |
| `FormatMeaning.CharacterPrints` | Lab6/csapp.c:182-190 | c prints the character |
| `FormatMeaning.PercentPrints` | Lab6/csapp.c:205-212 | a doubled percent sign prints one |
| `FormatMeaning.TextPrints` | Lab6/csapp.c:316-325 | all other text prints itself, an unknown directive too |
| `CacheQueues.EvictedEnough` | Lab6/proxy.c:426-440 | how much eviction frees: enough but for one byte, and less than an object more |
| `CacheQueues.AddedBound` | Lab6/proxy.c:378-408 | eviction never empties the queue, and an add leaves at most the larger of the maximum and the old size plus one |
| `CacheQueues.AddedWithin` | Lab6/proxy.c:378-440 | an add keeps the maximum exactly if the cache was not full or no objects at its head are together one byte shorter than the new one |
| `CacheQueues.GrowsWithoutBound` | Lab6/proxy.c:378-440 | one-byte objects grow the cache without end |
| `ResponseCache.Cache.Find` | Lab6/proxy.c:412-421 | the object of the key, or NULL exactly when it is not cached |
| `ResponseCache.Cache.Evict` | Lab6/proxy.c:426-440 | a prefix of the queue is removed and the size follows |
| `ResponseCache.Cache.Add` | Lab6/proxy.c:378-408 | keys stay distinct, the size is the sum of lengths and within its bound, and the queue is what adding promises |
| `ResponseCache.Cache.MovedOrder` | Lab6/proxy.c:444-462 | the object that moves comes last, and all others keep their order |
| `ResponseCache.Cache.ReplaceTail` | Lab6/proxy.c:444-462 | any object but the tail moves to the end; the tail ends up leading to itself, after which the head and tail pointers fit no queue with an object in it |
| `BitCount.SignedNot` | Lab1/bits.c:300-301 | flipping all bits of a word negates its number and takes one off |
| `BitCount.FoldedMagnitude` | Lab1/bits.c:300-301 | the sign mask makes x or, for a negative x, its complement |
| `BitCount.SearchIsCount` | Lab1/bits.c:300-328 | the binary search on words equals counting the bits of the number one by one |
| `BitCount.CountBits` | Lab1/tests.c:96-105 | the reference loop and the search give the same count |
| `BitCount.LeastWidth` | Lab1/bits.c:300-328 | the result is the least width of a two's-complement representation, and at most 64 |

## Left out

- Allocator.SegHeap.ExtendHeap: an extension is modelled only while heap_end names the last block. HeapFacts.HeapEndKept states exactly when a free makes it wrong, and HeapFacts.FreeForgotten what the code would then read as a tag and as links.
- Allocator.SegHeap.Malloc: an extension with a wrong heap_end, as above.
- Allocator.SegHeap.Realloc: a live block and a request above 2^64 - 24 bytes, for which the copy can leave the new block.
- Allocator.SegHeap.MemSbrk: the system's limit is a fixed number of words chosen at construction, and NULL is word 0; `calloc` is not modelled.
- HeapCheck.CheckHeap: the messages it prints, and a stale heap_end so far off that its claimed epilogue lies outside the memory.
- SplayTree.Splay.Insert: failure of the node allocation; `tree_free`, `tree_show` and the value of the comparison counter. Keys are unbounded integers and records are opaque addresses.
- SparseMemory.Memory.Read: accesses of 1 to 8 bytes only, addresses that do not wrap around, and the build with UB checking compiled in. The loop of `get_mem` is two methods, one for each kind of access.
- SparseMemory.Memory.MemCpy: with UB checking switched off, a copy from bytes never written has no stated result.
- JobList.Jobs.Add: the warning about unblocked signals, and failure of the buffer allocation.
- ShellRuns.NextSafe: real signal masks, terminals, the child side of fork, redirection, and the parsing of numbers in `bg` and `fg`; the handler's steps are not interrupted by another handler, a process group is its leader, and killpg either reaches the process or ends the shell.
- CommandParser.Parse: a NULL command line.
- CacheSimulator.Load: the command line, the trace reader and the reported totals of `main`; counters are unbounded.
- RobustRead.Reader.ReadN: what calls of read do is a finite script, after which they deliver all they can; after an error the bytes already handed out are not described.
- SafePrintf.SignedToString: the negation of the least 64-bit integer, undefined in C, gives its magnitude.
- SafeOutput.Vdprintf: arguments of the wrong type or number; a write fails after a fixed number of characters.
- ResponseCache.Cache.ReplaceTail: an object that another thread has evicted meanwhile; locks and threads.
- BitCount.SearchIsCount: the amounts to shift by and their sum are small numbers, not 64-bit words.
- The allocator's dense mode below `mem_sbrk`, sanitizer hooks and statistics.
- The driver's range list, trace player, timing and scoring; the HTTP parser, sockets and the forwarding of responses.
- The superseded drafts, the plain queue, matrix transposition, and the other bit puzzles: easy or unfinished.
