# A verified model of the FreeDOS-32 core

This project models, in Dafny, the parts of FreeDOS-32 that keep state under a non-trivial invariant,
and proves what those parts promise:

- the **dlmalloc core** of the kernel heap: boundary tags, 32 small bins, 32 tree bins, the designated
  victim and top (`BinIndex`, `BinTricks`, `BitWords`, `SizeTrie`, `Links`, `Bins`, `TreeWrites`,
  `TreeInsert`, `TreeUnlink`, `SmallBins`, `BestFit`, `Tiles`, `TopArms`, `Placement`, `Heap`, `TricksAgree`);
- the **LEAN file system data path**: buffer cache, free bitmap, cluster map with its cursor cache, and
  read, write, seek and truncate on bytes (`FsWords`, `FsCache`, `FsBitmap`, `FsOwner`, `FsMap`,
  `FsContent`, `Volume`);
- the **physical memory manager**: a coalescing free list whose headers lie in the free memory itself
  (`FreeListSpec`, `MemPool`);
- **getopt's permutation** of the argument vector (`Getopt`);
- the **timed event queue** with handlers that re-enter it (`EventQueue`, `EventLinks`, `WakeRun`, `Events`);
- **path canonicalization** (`Truename`).

## How it is built

Code that updates memory in place is a class here, with the same fields: `Heap.Heap`, `Volume.Volume`,
`MemPool.MemPool`, `Getopt.Parser` and `Events.Pool`. Linked structures live in maps from addresses to
words, one map a field (`fd`, `bk`, `child[0]`, `parent`, ...), so relinking a ring or a trie is a
sequence of word writes as in the source. Beside the words each class keeps a ghost value: the bins as
tries and lists, the segment as a set of chunks, each file as a sequence of clusters, the pool as a
sequence of blocks, the event queue as a sorted sequence. An invariant (`Valid`, `Ready`, `Laid`) ties the
two together. Methods are specified by functions on the ghost values (`Insert` and `Remove` of a trie,
`Carve` of a free list, `WrittenAt` and `Resized` of a file, `Posted`, `Deleted` and `Run` of a queue,
`Parse` of an argument list, `Canonical` of a path), and lemmas say what those functions mean.

Some of these functions are also used by the methods themselves (the padding of a request, the kind of an option, the
order of times, the zeros of a gap, the dots of a component, ...). What they compute is stated once more without
them, in numbers, bytes or characters: at the operation where that is short, else in a lemma beside the definition
(`ServedBytes`, `Reports`, `Nanos`, `ZeroBetween`, `CutCells`, `NoDotEntry`, and the lemmas named `...OnDisk` and `...InCharacters`).

Two methods are no operations of the source but runs of several, to state what these do together:
`Heap.Heap.FreeThenMalloc` and `Volume.Volume.GrowAndCutBack`.

Addresses, sizes and words are natural numbers. Where the source relies on 32-bit wrap-around (the
`-nb` and `dvsize - nb` comparisons, the bin maps, the shifted size bits, `end - size` and the byte count of the memory
manager) the wrap is written out. The branch-free index macros are modelled on `bv32` in `BinTricks`, and `TricksAgree` shows that they compute the
same numbers.

The invariant of the heap says that a segment is tiled exactly by chunks, that no two neighbours are
free, that both in-use bits and the feet agree with the neighbours, and that a free chunk is top, the
designated victim, or in the bin of its size. Because the tiling is determined by the chunks in use,
`Released` and `Granted`, which say what happened to those, fix the whole segment. `Heap.TwoChunks` builds a heap
with chunks in use that meets it, and `Heap.FreeAndServe` runs the operations on it.

The invariant of the volume says that the buffers and the device agree with one logical store, the bitmap
marks exactly the clusters that have an owner, the superblock counts the others, every
inode describes its clusters, every cached position of an open file is right, and every file is exactly
as many clusters long as its size needs, unless it has been deleted and is not open. `Volume.SmallestVolume` builds a volume that meets it.

## What was found in the code

Each of these is stated as an exact condition, a concrete input, or a difference from what the documentation says.

- `pmm_free` adds the size of the following block to `top.size` when the freed region merges with that
  block only (`pmm.c:257-278`). The count stays right if and only if it does not
  (`MemPool.MemPool.Free`, `MemPool.DoubleCountExample`).
- `pmm_alloc_address` compares `end - size >= base`, which wraps when `end < size` (`pmm.c:53`). Success
  leaves a list behind if and only if the first block is not one that starts at or below the region and
  ends below `size` (`MemPool.MemPool.AllocAddress`, `MemPool.FooledExample`).
- The loop of `periodic_wake_up` goes on from a pointer that was saved before the handler ran. Over any script
  of handlers and any number of rounds, every step keeps pending and free list a partition if and only if, after
  each handler, the saved slot is null, not due, or still the first pending event (`WakeRun.RunExact`). With two
  events at one time and a handler that posts to that time, the posted event ends up in neither list
  (`WakeRun.PostIsLost`, `WakeRun.LostInMemory`). Handlers that leave the next event alone are safe, whether or not
  they post to due times (`WakeRun.CalmIsSafe`).
- That loop can end with due events left. It does if and only if, in its last round, the handler has posted a due event
  that it has not deleted again, or has deleted the saved event, which was due, and not every other due event
  (`WakeRun.NothingDueExact`, event by event in `WakeRun.DueLeftExact`). A handler that deletes the saved event and
  reuses its slot for a later time is an example of the second kind (`WakeRun.EndsEarly`).
- `leanfs_ftruncate` returns 0, as its comment promises, if and only if it does not extend the file: the extending
  arm returns the result of `do_write`, the number of zeros written (`file.c:218`, `Volume.Volume.Ftruncate`).
- `leanfs_append_cluster` stores a pointer in an indirect cluster without marking the buffer
  (`alloc.c:243`). Nothing is lost, because `flush_buffer` writes every valid buffer, marked or not.
- `leanfs_get_file_cluster` passes an uninitialized buffer pointer to `leanfs_fetch_indirect`
  (`alloc.c:88`), although `leanfs_readbuf` takes a non-null one as the buffer to reuse. In the model the pointer is
  null or names an arbitrary buffer of the volume, and the result is right whichever it is. On a miss the source
  dereferences the pointer, so with any other value the result is right only for a direct cluster, or when every
  indirect cluster on the way is buffered.
- `leanfs_lseek` returns a negative sum as it is, without an error code, and then leaves the pointer alone.
- `leanfs_write` counts the zeros of a gap in its result.
- The two arms that serve a request from top (`malloc.c:2718-2735`) are swapped relative to the split of the
  designated victim. When the remainder is a chunk of its own, it is the remainder that is handed out, which is
  enough if and only if top has twice the request, and the rest is forgotten: a tiling remains if and only if what
  memory happens to hold there can be walked to the fence. This only reduces the question to those words. What can be
  checked first is the word behind the remainder: if it is not the size of a chunk that ends at or before the fence, with
  matching bits, as when that memory is still zero, no tiling remains. When the remainder is less than a chunk, none
  remains either (`Heap.Heap.TakeFromTop`, `TopArms.TakenExact`, `TopArms.TakenChecked`, `TopArms.CutNever`).

## Model

| member | source | states |
|---|---|---|
| `FreeListSpec.CanonicalIsUnique` | fd32/kernel/pmm.c:225-280 | two canonical lists (address order, no two blocks touching, room for a header) that hold the same free addresses are the same list |
| `FreeListSpec.CarveIsCanonical` | fd32/kernel/pmm.c:53-81 | cutting a region out of a block leaves a canonical list |
| `FreeListSpec.CarveCells` | fd32/kernel/pmm.c:54-79 | exactly the region and the slivers of less than a header on either side stop being free |
| `FreeListSpec.CarveIsCut` | fd32/kernel/pmm.c:54-79 | in bytes: what lies on either side of the region stays free if and only if it is at least eight bytes |
| `FreeListSpec.CarveSum` | fd32/kernel/pmm.c:56-81 | the free bytes shrink by the region and the slivers |
| `FreeListSpec.CarveNothing` | fd32/kernel/pmm.c:182-204 | a request of no bytes leaves the list as it is |
| `FreeListSpec.MergeFrees` | fd32/kernel/pmm.c:237-276 | a block put in the place of neighbours that make it up with the region frees exactly the region, adds its size and keeps the list canonical |
| `FreeListSpec.AllocThenFree` | fd32/kernel/pmm.c:39-280 | handing a carved region back restores the very same list if and only if no sliver was dropped |
| `MemPool.FitTest` | fd32/kernel/pmm.c:52-53 | the unsigned test accepts a block exactly when it contains the region, or is the first block and the wrapped difference fools it |
| `MemPool.FreeCases` | fd32/kernel/pmm.c:234-276 | where the scan stops decides whether the region overlaps free memory, and whether it meets only the block behind it |
| `MemPool.SumBelowWord` | fd32/kernel/pmm.c:278 | the free bytes of a canonical list fit in a word, so the count never wraps on its own |
| `MemPool.FooledExample` | fd32/kernel/pmm.c:53 | a pool whose second block could serve a request that the first one is taken to contain |
| `MemPool.DoubleCountExample` | fd32/kernel/pmm.c:257-278 | a region freed below the only block meets just that block, so it is counted twice |
| `MemPool.MemPool.Init` | fd32/kernel/pmm.c:33-37 | an empty pool, with its count right |
| `MemPool.MemPool.Alloc` | fd32/kernel/pmm.c:169-213 | null exactly when no block is large enough, and then nothing changes; else the first block that is gives up its front, a rest of eight bytes or more stays free and a smaller one does not, the list stays canonical and `top.size`, right before, is right after; a request of no bytes gets the first block and changes nothing |
| `MemPool.MemPool.AllocAddress` | fd32/kernel/pmm.c:39-89 | succeeds exactly when a block contains the region or the comparison is fooled; the memory still holds a list exactly when it was not fooled, and then just the region, and what beside it is less than eight bytes, is gone, and the byte count stays right |
| `MemPool.MemPool.Free` | fd32/kernel/pmm.c:225-280 | stops exactly on an overlap; else frees exactly the region, canonically, and the byte count stays right if and only if the region does not merge with the block behind it alone |
| `BinTricks.ScanFormula` | fd32/kernel/malloc.c:1676-1706 | the branch-free tree index equals the bit-scan formula |
| `BinTricks.HighestBitIsScan` | fd32/kernel/malloc.c:1690-1706 | the shifts by 8, 4, 2 and 1 find the highest set bit |
| `BinTricks.IndexBounds` | fd32/kernel/malloc.c:1690-1721 | for every 32-bit size from 256 on, minsize(I) <= S, and S < minsize(I+1) below the last bin |
| `BinTricks.Mono` | fd32/kernel/malloc.c:1690-1706 | a larger size never has a smaller index |
| `BinTricks.NextMarked` | fd32/kernel/malloc.c:1753-1771 | masking with the bits to the left, isolating the least bit and converting it to an index gives the next marked bin, with none between |
| `TricksAgree.TreeIndexAgrees` | fd32/kernel/malloc.c:1676-1706 | the shifts compute the same index as the scan instruction, as a number, for every 32-bit size |
| `TricksAgree.MinSizeAgrees` | fd32/kernel/malloc.c:1719-1721 | the smallest size of a bin is the same as a word and as a number |
| `TricksAgree.NextMarkedAgrees` | fd32/kernel/malloc.c:1741-1771 | the next marked bin above a bin is the same by the tricks on words and by the formulas on numbers, and both tell alike when there is none |
| `BinIndex.TreeIndexBounds` | fd32/kernel/malloc.c:1676-1721 | the same bounds for sizes as numbers |
| `BinIndex.TreeIndexUnique` | fd32/kernel/malloc.c:1676-1721 | the bounds leave no other choice of bin |
| `BinIndex.TreeIndexMono` | fd32/kernel/malloc.c:1676-1687 | the index is monotone in the size |
| `BinIndex.SteersFromRoot` | fd32/kernel/malloc.c:1714-1716 | the size shifted left by the bin's amount steers a trie walk: at each level the sign bit tells the half the size is in, although higher bits are shifted out |
| `BitWords.MarkClear` | fd32/kernel/malloc.c:1727-1735 | marking and clearing a bin changes the bit of that bin and no other |
| `BitWords.FirstMarked` | fd32/kernel/malloc.c:1741-1768 | least bit and bit scan give the first marked bin |
| `BitWords.NextMarked` | fd32/kernel/malloc.c:1768-1771 | masking with the left bits gives the next marked bin above, or zero if there is none |
| `BitWords.MarkedFrom` | fd32/kernel/malloc.c:2648-2652 | a shifted map is zero, or has one of its two low bits set, exactly according to which bins from there on are marked |
| `BitWords.NextFrom` | fd32/kernel/malloc.c:2666-2668 | shifting down and up again and masking still gives the next marked bin above |
| `SizeTrie.InsertIsTrie` | fd32/kernel/malloc.c:2320-2369 | insertion keeps the trie rule with one node per size |
| `SizeTrie.InsertCount` | fd32/kernel/malloc.c:2320-2369 | insertion adds exactly that chunk to the bin's multiset |
| `SizeTrie.RightmostIsTrie` | fd32/kernel/malloc.c:2376-2383 | cutting off the rightmost leaf keeps the rule and takes its size out |
| `SizeTrie.RemoveIsTrie` | fd32/kernel/malloc.c:1309-1322 | removal keeps the trie rule, also when an inner node is replaced by its rightmost leaf |
| `SizeTrie.RemoveCount` | fd32/kernel/malloc.c:2388-2457 | removal takes exactly that chunk out of the multiset |
| `SizeTrie.HeightBound` | fd32/kernel/malloc.c:1332-1336 | a path has at most one node per undetermined bit, less the bits that the alignment fixes |
| `Bins.BinHeight` | fd32/kernel/malloc.c:1332-1336 | in the tree of every bin of a heap in order no walk down from the root, whatever turns it takes, gets further than the bits of the bin allow |
| `Bins.SizeTellsBin` | fd32/kernel/malloc.c:2053-2101 | a chunk of tree bin i has a size of that bin and of a node of the tree |
| `Bins.NotElsewhere` | fd32/kernel/malloc.c:2146-2173 | a chunk of one tree bin is in no other bin |
| `Links.RingInsert` | fd32/kernel/malloc.c:2353-2360 | linking a chunk behind the head of a ring keeps it circular both ways, in the expected order |
| `Links.RingRemove` | fd32/kernel/malloc.c:2391-2397 | unlinking any chunk of a ring of two or more keeps the rest circular, in order |
| `Links.ReprPlug` | fd32/kernel/malloc.c:2418-2431 | writing the child link above a subtree exchanges just that subtree of the tree that memory holds |
| `TreeInsert.WalkStep` | fd32/kernel/malloc.c:2336-2351 | one step of the insertion walk goes to the half of the size, or finds the free place where a leaf completes the insertion |
| `TreeInsert.InsertedBins` | fd32/kernel/malloc.c:2320-2369 | the writes of an insertion into one tree bin leave all 64 bins in order |
| `TreeUnlink.PreparedByRing` | fd32/kernel/malloc.c:2391-2397 | with chunks of the size left, closing the ring readies its last chunk to replace the node |
| `TreeUnlink.PreparedByLeaf` | fd32/kernel/malloc.c:2402-2417 | without, cutting the rightmost leaf off its parent readies it to replace the node |
| `TreeUnlink.UnlinkedNode` | fd32/kernel/malloc.c:2418-2456 | relinking parent and children of a node to its replacement leaves the tree without that chunk, and touches nothing outside the tree |
| `TreeUnlink.UnlinkedMember` | fd32/kernel/malloc.c:2388-2401 | a chunk that hangs off a node only leaves its ring |
| `TreeUnlink.RemovedBins` | fd32/kernel/malloc.c:2388-2457 | the writes of an unlinking leave all 64 bins in order |
| `SmallBins.PopRing` | fd32/kernel/malloc.c:2268-2302 | a chunk is the only one of its small bin exactly when its two neighbours coincide; else the rest stays a ring |
| `SmallBins.PushedBins` | fd32/kernel/malloc.c:2249-2265 | linking a chunk into a small bin leaves all bins in order and marks its own |
| `SmallBins.PoppedBins` | fd32/kernel/malloc.c:2268-2302 | unlinking one leaves all bins in order and clears the mark exactly with the last chunk |
| `BestFit.WrappedDifference` | fd32/kernel/malloc.c:2512-2527 | the unsigned remainder is below the best one exactly when the size fits and fits better, also against the first value `-nb` |
| `BestFit.StepDown` | fd32/kernel/malloc.c:2521-2538 | a step towards the request, with an untaken right subtree remembered in place of the one before, loses no better fit |
| `BestFit.StepLeftmost` | fd32/kernel/malloc.c:2551-2558 | a step to the leftmost child loses no better fit |
| `BestFit.LookedIsBest` | fd32/kernel/malloc.c:2541-2549 | a bin searched to the end, with only empty bins passed over before it, holds the best fit of all tree bins |
| `BestFit.SmallestIsBest` | fd32/kernel/malloc.c:2588-2600 | the smallest chunk of the first non-empty tree is the smallest of all trees |
| `Tiles.Coverage` | fd32/kernel/malloc.c:2176-2205 | every address of the segment lies in exactly one chunk |
| `Tiles.Neighbours` | fd32/kernel/malloc.c:2003-2035 | chunks do not overlap, and two neighbours are not both free |
| `Tiles.Predecessor` | fd32/kernel/malloc.c:2009-2012 | when the previous chunk is free, the foot leads to it |
| `Tiles.MergedTiles` | fd32/kernel/malloc.c:1236-1242 | making one free chunk of several keeps the tiling, top absorbed or not |
| `Tiles.SplitTiles` | fd32/kernel/malloc.c:2678-2680 | splitting a free chunk keeps the tiling |
| `Tiles.TakenTiles` | fd32/kernel/malloc.c:1869-1872 | handing out a whole free chunk keeps the tiling |
| `TopArms.TakenExact` | fd32/kernel/malloc.c:2721-2725 | after the first top arm a tiling exists if and only if the words behind the remainder can be walked to the fence |
| `TopArms.TakenChecked` | fd32/kernel/malloc.c:2721-2725 | none exists if the size, bits and foot found behind the remainder are not those of a chunk up to the fence; if that chunk would reach the fence exactly, they decide |
| `TopArms.CutNever` | fd32/kernel/malloc.c:2726-2730 | after the second top arm no set of chunks tiles the segment, with whatever top |
| `Placement.OnePlace` | fd32/kernel/malloc.c:2146-2205 | a free chunk other than top and the designated victim is once in the bin of its size and in no other |
| `Placement.RepliedInBytes` | fd32/kernel/malloc.c:1171-1194 | an answer for the padded size is one for the bytes asked for: zero exactly when no free chunk besides top has eight bytes more than asked for; else a chunk with room and less than a chunk to spare |
| `Placement.BinBySize` | fd32/kernel/malloc.c:2146-2173 | the size of a binned chunk says which bin it is in |
| `Placement.MergedHeap` | fd32/kernel/malloc.c:2755-2834 | merging keeps tags, bins, designated victim and top in agreement, and ends exactly one chunk's use |
| `Placement.FreedIsFree` | fd32/kernel/malloc.c:2755-2834 | the bytes of a freed chunk are in a free chunk at least as large, other than top unless top was behind it |
| `Placement.SplitHeap` | fd32/kernel/malloc.c:2569-2572 | splitting keeps them in agreement; the rest is a free chunk of at least the minimum size in no bin yet |
| `Placement.SmallestOfSmall` | fd32/kernel/malloc.c:2650-2672 | the first chunk of the first marked small bin that is large enough is the smallest fit, designated victim aside |
| `Placement.NearFitIsMarked` | fd32/kernel/malloc.c:2648-2652 | the two low bits of the shifted map are clear exactly when no small bin holds a chunk that would leave no remainder |
| `Placement.DvOrBest` | fd32/kernel/malloc.c:2561 | the unsigned comparison with `dvsize - nb` chooses the smaller of the best binned chunk and the designated victim, the latter on ties, and says when neither fits |
| `Placement.NoTrees` | fd32/kernel/malloc.c:2695-2701 | with an empty tree map only the designated victim can serve a large request |
| `Placement.NoBinFits` | fd32/kernel/malloc.c:2661-2690 | when the arms for a small request are exhausted, no free chunk besides top fits |
| `Heap.Heap.constructor` | fd32/kernel/malloc.c:3568-3584 | a fresh segment in order: all of it top, all bins empty, nothing in use |
| `Heap.Heap.InsertLarge` | fd32/kernel/malloc.c:2320-2369 | the word writes turn the bin's tree into the trie with the chunk inserted, and leave all bins in order |
| `Heap.Heap.LinkBelowRoot` | fd32/kernel/malloc.c:2333-2367 | the walk by the leading size bits ends at the node of the size or at a free place |
| `Heap.Heap.UnlinkLarge` | fd32/kernel/malloc.c:2388-2457 | the word writes turn the tree into the trie without the chunk, whichever of the three cases it is |
| `Heap.Heap.CutReplacement` | fd32/kernel/malloc.c:2402-2417 | the walk right, else left, finds the rightmost leaf and cuts it off |
| `Heap.Heap.InsertSmall` | fd32/kernel/malloc.c:2249-2265 | the chunk becomes the first of its small bin |
| `Heap.Heap.UnlinkSmall` | fd32/kernel/malloc.c:2268-2285 | the chunk leaves its small bin, the order of the others is kept |
| `Heap.Heap.UnlinkFirstSmall` | fd32/kernel/malloc.c:2288-2302 | the first chunk leaves its small bin |
| `Heap.Heap.InsertChunk` | fd32/kernel/malloc.c:2461-2463 | exactly that chunk is binned in addition |
| `Heap.Heap.UnlinkChunk` | fd32/kernel/malloc.c:2465-2467 | exactly that chunk is no longer binned |
| `Heap.Heap.WalkOwnBin` | fd32/kernel/malloc.c:2517-2539 | after the one root-to-leaf walk, the best fit is known or in the remembered subtree |
| `Heap.Heap.WalkLeftmost` | fd32/kernel/malloc.c:2551-2558 | the leftmost walk leaves nothing to search |
| `Heap.Heap.NextBin` | fd32/kernel/malloc.c:2541-2549 | the root of the next non-empty bin above, and all its sizes fit |
| `Heap.Heap.FindFit` | fd32/kernel/malloc.c:2509-2558 | the two walks find the smallest chunk of all tree bins that fits, or that there is none |
| `Heap.Heap.FindSmallest` | fd32/kernel/malloc.c:2588-2600 | the smallest chunk of all tree bins |
| `Heap.Heap.TmallocLarge` | fd32/kernel/malloc.c:2509-2580 | serves the request from the smallest free chunk that fits and splits or takes it; leaves everything as it is when the designated victim is the smallest fit, or nothing fits |
| `Heap.Heap.TmallocSmall` | fd32/kernel/malloc.c:2583-2620 | serves the request from the smallest chunk of the trees; a remainder becomes the designated victim, the old one is binned |
| `Heap.Heap.ReplaceDv` | fd32/kernel/malloc.c:2306-2315 | the old designated victim, always small here, is binned and the chunk takes its place |
| `Heap.Heap.MallocExact` | fd32/kernel/malloc.c:2650-2660 | a small chunk of the request's size or the next is taken whole, the smallest fit |
| `Heap.Heap.MallocNextSmall` | fd32/kernel/malloc.c:2662-2685 | the first chunk of the next marked small bin is split; the unchecked remainder is always a chunk of its own |
| `Heap.Heap.MallocDv` | fd32/kernel/malloc.c:2701-2717 | the designated victim is split or exhausted |
| `Heap.Heap.TakeFromTop` | fd32/kernel/malloc.c:2718-2735 | what the two top arms hand out: enough if and only if no chunk is left over or top has twice the request; a tiling remains if and only if a chunk is left over and memory behind it happens to be walked to the fence |
| `Heap.Heap.Malloc` | fd32/kernel/malloc.c:2627-2717 | zero, with nothing changed, exactly for 0xFFFFFFC0 bytes or more, or when no free chunk besides top has eight bytes more than asked for; else a chunk with room and less than a minimum chunk to spare is handed out, disjoint from all in use, which keep their places and sizes; beyond 240 bytes it is the smallest with room, up to 240 it is the designated victim exactly when that has room and no chunk below 256 bytes has room without leaving a chunk, or else the smallest other one; says what becomes of designated victim and top |
| `Heap.Heap.ConsolidateBackward` | fd32/kernel/malloc.c:2772-2788 | the free chunk before leaves its bin, unless it is the designated victim, and the merged region has nothing else in use |
| `Heap.Heap.JoinTop` | fd32/kernel/malloc.c:2792-2805 | the region becomes part of top; a designated victim in it is gone |
| `Heap.Heap.JoinDv` | fd32/kernel/malloc.c:2806-2810 | the region becomes part of the designated victim |
| `Heap.Heap.JoinNext` | fd32/kernel/malloc.c:2811-2820 | the binned chunk behind leaves its bin and joins |
| `Heap.Heap.Rebin` | fd32/kernel/malloc.c:2782-2825 | the merged chunk stays the designated victim, with its new size, or goes into its bin |
| `Heap.Heap.Free` | fd32/kernel/malloc.c:2755-2834 | the heap stays in order with exactly that chunk no longer in use; in each of the merge cases top and designated victim become what they should; freeing null changes nothing |
| `Heap.Heap.FreeThenMalloc` | fd32/kernel/malloc.c:2631-2840 | a request for as many bytes as have just been freed is served with a chunk at least as large, whatever their number up to the limit, unless they went to top |
| `Heap.TwoChunks` | fd32/kernel/malloc.c:2003-2035 | there is a heap in order with two chunks in use |
| `Heap.FreeAndServe` | fd32/kernel/malloc.c:2631-2840 | both are freed, and a chunk of the same bytes is handed out again |
| `FsWords.ReadWritten` | leanfs/alloc.c:225-243 | a little-endian word written into a cluster is read back, and no other word changes |
| `FsWords.WrittenBytes` | leanfs/alloc.c:225-243 | a word is written with its least significant byte first, and no other byte changes |
| `FsCache.FlushKeeps` | leanfs/blockio.c:77-92 | flushing a buffer keeps the logical store and puts the cluster on the device |
| `FsCache.LoadKeeps` | leanfs/blockio.c:173-195 | loading a cluster over a flushed buffer keeps the logical store and one buffer per cluster |
| `FsCache.AllWritten` | leanfs/blockio.c:120-125 | once every valid buffer is on the device, the device is the logical store |
| `FsCache.NotYetLeast` | leanfs/blockio.c:58-70 | a buffer is not the victim while fewer than all others have been used after it |
| `FsCache.SurvivesMisses` | leanfs/blockio.c:168-199 | a buffer just returned outlives as many hintless misses as there are other buffers, with its contents |
| `FsCache.LastIsNotLeast` | leanfs/alloc.c:229-243 | the buffer used last is not the next victim, so a pointer held across one miss stays good |
| `FsBitmap.ByteAddressing` | leanfs/alloc.c:144-147 | cluster, integer and bit of the addressing in set are word and bit of the scan |
| `FsBitmap.MarkedIsBit` | leanfs/alloc.c:144-176 | on disk, a cluster is marked by bit c % 8 of its byte in its bitmap cluster |
| `FsBitmap.MapLengthIs` | leanfs/mkfs.c:63 | the bitmap takes as many clusters as its bits need, and no more |
| `FsBitmap.ScanStep` | leanfs/alloc.c:117-131 | looking through a word finds the least clear bit, or carries "all marked" 32 clusters on |
| `FsBitmap.RemarkWord` | leanfs/alloc.c:154-176 | changing the bit in its word changes the mark of that cluster and of no other |
| `FsOwner.ClearBitsCounted` | leanfs/alloc.c:103-136 | the number of clear bits is the number of clusters without an owner |
| `FsOwner.RemarkOwner` | leanfs/alloc.c:142-179 | the bitmap still marks exactly the owned clusters after one gets or loses its owner |
| `FsOwner.SameBitmap` | leanfs/alloc.c:142-179 | bitmaps that track the same owners have the same bits and as many clear ones |
| `FsMap.ClusterOnDisk` | leanfs/alloc.c:41-96 | on disk, cluster 0 of a file is that of its inode, 1 to 15 are in the inode, cluster k from 16 on is pointer (k - 16) % m of indirect cluster (k - 16) / m, and the word behind the pointers leads to the next one |
| `FsMap.DescribesRoom` | leanfs/alloc.c:234-243 | a pointer in the next word of the last indirect cluster makes the inode describe the longer file |
| `FsMap.DescribesLinked` | leanfs/alloc.c:209-243 | linking a full chain to a new indirect cluster does, too |
| `FsMap.DescribesCut` | leanfs/alloc.c:292-315 | a smaller count, zero included, makes it describe the shorter chain, with the indirect clusters that needs |
| `FsMap.FreedStep` | leanfs/alloc.c:300-312 | freeing a data cluster, and the indirect cluster that starts with it, advances the cut by one |
| `FsMap.OwnedCut` | leanfs/alloc.c:288-315 | after the cut owners and files agree: exactly the clusters past it are free |
| `FsMap.FreedCount` | leanfs/alloc.c:300-312 | the cut frees as many clusters as the chain loses, data and indirect ones |
| `FsMap.WholeFileFreed` | leanfs/open.c:296-300 | a cut to nothing frees every cluster of the file and no other |
| `FsMap.AppendThenDelete` | leanfs/alloc.c:188-315 | cutting a grown file back to its old length restores every owner and the chain |
| `FsMap.RunThenDelete` | leanfs/alloc.c:188-315 | any run of appends undone by one cut restores the owners, the chain, the bitmap and the number of clear bits |
| `FsMap.CursorCut` | leanfs/open.c:202-217 | a cached position that starts before the cut is still right |
| `FsMap.FilesCut` | leanfs/open.c:199-217 | with the positions past the end reset, all open files, inodes and owners agree after the cut |
| `FsContent.ByteOnDisk` | leanfs/file.c:71-91 | byte i of a file is byte i + 128 of its clusters, that is, of cluster (i + 128) / size at (i + 128) % size |
| `FsContent.ReadPiece` | leanfs/file.c:71-91 | the bytes at an offset of a file are those at the computed place of the computed cluster |
| `FsContent.WhereToWrite` | leanfs/file.c:131-132 | the cluster index of a write is at most the count, the assertion of the source, with equality only at the end of a full last cluster |
| `FsContent.FilledIs` | leanfs/file.c:143-146 | the length in clusters is the least that holds the 128 bytes of the inode and those of the file |
| `FsContent.CostIs` | leanfs/alloc.c:188-246 | growing a file takes the clusters it gets and the indirect clusters that it then needs in addition |
| `FsContent.FilledAfter` | leanfs/file.c:143-146 | the count stays the size plus inode, divided by the cluster size, rounded up |
| `FsContent.ContentWritten` | leanfs/file.c:148-157 | a piece written into an old or new cluster is written over the file at its offset, and nothing else of the file changes |
| `FsContent.ContentCut` | leanfs/file.c:207-215 | the bytes of a cut file are the prefix |
| `FsContent.OthersKept` | leanfs/file.c:112-162 | a change confined to one file's clusters and the bitmap changes no byte of another file |
| `FsContent.PaddedThenWritten` | leanfs/file.c:178-190 | bytes of value zero up to the pointer and then the buffer make the file written at the pointer |
| `FsContent.ShrinkThenExtend` | leanfs/file.c:200-220 | shrinking to a and extending to b bytes gives the first a bytes followed by bytes of value zero, never old ones |
| `Volume.ImageWords` | leanfs/leanfs.h:194-211 | the counts and addresses of the superblock are at their words of its image, and all other words are those of its sector |
| `Volume.Volume.Mount` | leanfs/mount.c:94-113 | a volume in order over a device whose contents are in order, with no file open |
| `Volume.SmallestVolume` | leanfs/mount.c:94-113 | there is a device for which that holds: an empty file and a free cluster |
| `Volume.Volume.TakeFile` | leanfs/open.c:140-175 | a new channel to a file, at its start, with no cached position |
| `Volume.Volume.Search` | leanfs/blockio.c:45-53 | a valid buffer with the cluster, or none when there is none |
| `Volume.Volume.FindLeastRecent` | leanfs/blockio.c:58-70 | a buffer with the least access stamp |
| `Volume.Volume.FlushBuffer` | leanfs/blockio.c:77-92 | the buffer is on the device and unmarked; the logical store is as it was |
| `Volume.Volume.ReadBuf` | leanfs/blockio.c:160-200 | the cluster in a buffer with the newest stamp: its own on a hit, else the hinted or the least recent one; no other buffer and no byte of the logical store changes |
| `Volume.Volume.DirtyBuf` | leanfs/blockio.c:132-142 | the buffer is marked, or written out at once; refused for a buffer without valid contents |
| `Volume.Volume.Sync` | leanfs/blockio.c:97-127 | the device is the logical store, with the superblock in sector 1 (cluster 1, or behind the first sector of cluster 0 when a cluster has several) and its 512 bytes in the backup |
| `Volume.Volume.SyncFiles` | leanfs/blockio.c:97-127 | a sync leaves every file, every owner and every cached position as it is |
| `Volume.Volume.FindFree` | leanfs/alloc.c:103-136 | the least free cluster over all words and bitmap clusters; fails exactly when there is none; a buffer used just before keeps its cluster |
| `Volume.Volume.BitmapSet` | leanfs/alloc.c:142-179 | the cluster changes its owner, bitmap and count follow, and nothing outside the bitmap changes |
| `Volume.Volume.FetchIndirect` | leanfs/alloc.c:41-74 | from any right cached position, the walk ends at the block of the cluster, in a buffer, or past the last block exactly at the end |
| `Volume.Volume.GetFileCluster` | leanfs/alloc.c:80-96 | the k-th cluster of the file, whatever position is cached and whatever buffer the uninitialized pointer names |
| `Volume.Volume.ClusterOf` | leanfs/alloc.c:80-96 | the same, with everything in order before and after, so over any interleaving |
| `Volume.Volume.Allocate` | leanfs/alloc.c:237-241 | the least free cluster gets its owner and the count drops by one |
| `Volume.Volume.AppendCluster` | leanfs/alloc.c:188-246 | the file is one cluster longer and one or two fewer are free, two exactly when its blocks are full; all open files, inodes and owners agree, no data cluster changes |
| `Volume.Volume.AppendRoom` | leanfs/alloc.c:234-245 | the pointer is stored through the buffer held across search and marking, in the right indirect cluster |
| `Volume.Volume.AppendLinked` | leanfs/alloc.c:209-245 | a new indirect cluster is linked first, and the handle's cached position is right again |
| `Volume.Volume.DeleteClusters` | leanfs/alloc.c:292-315 | exactly the data clusters past the cut and the indirect clusters that start there are freed, and counted; the cut may be at zero; no other file changes a byte |
| `Volume.Volume.DeleteFile` | leanfs/open.c:296-300 | the deletion of a file without links frees all its clusters and no others, counts them, and leaves every other file, and the map of all with the cached positions reset, as it is |
| `Volume.Volume.Close` | leanfs/open.c:287-307 | the channel is gone, the others are there in their order and all is in order; with the last channel to a file without links its clusters are freed, with the last channel to any file the device is the logical store; no other file changes a byte |
| `Volume.Volume.GrowAndCutBack` | leanfs/alloc.c:188-315 | any number of appends undone by one cut: the same owners, chains, superblock and marks, and everything in order |
| `Volume.Volume.ValidatePos` | leanfs/open.c:202-217 | exactly the cached positions past the end of this file are reset |
| `Volume.Volume.Lseek` | leanfs/file.c:36-50 | the pointer moves to the sum unless that is negative; an unknown origin is refused |
| `Volume.Volume.Read` | leanfs/file.c:55-103 | exactly the bytes of the file from the pointer on, clipped at its end; the pointer moves by as many |
| `Volume.Volume.DoWrite` | leanfs/file.c:112-162 | the bytes are written over the file from the offset on, appending clusters as needed, and counted; all else in order |
| `Volume.Volume.Write` | leanfs/file.c:167-193 | the file is its old bytes, with bytes of value zero from its old end to the pointer, and the buffer written there; the pointer is behind it; no byte of another file changes |
| `Volume.Volume.Ftruncate` | leanfs/file.c:200-220 | the file has the new length: it is its prefix, or its bytes and bytes of value zero; the result is 0, or the number of zeros if there are any; exactly the clusters past the new end are freed; every other file, and every pointer, is as before |
| `Volume.Volume.Shrink` | leanfs/file.c:207-216 | the shrinking arm gives the prefix and leaves no cached position past the end |
| `Getopt.SwapFarEnd` | oslib/libc/getopt.c:164-179 | exchanging the short bottom segment with the far end leaves a smaller rotation to do |
| `Getopt.SwapNearEnd` | oslib/libc/getopt.c:180-195 | exchanging the short top segment with the near end does, too |
| `Getopt.ReportsByKind` | oslib/libc/getopt.c:560-623 | what is reported for a character, and how many elements it uses up, by the characters of the option string: none, one or two colons behind its first place, a character not there, a colon, a missing argument |
| `Getopt.PairParsed` | oslib/libc/getopt.c:560-623 | `-c x`: one colon makes x the argument of c, whatever x is; else a non-option x is left over |
| `Getopt.PlainParse` | oslib/libc/getopt.c:318-382 | when no option takes an argument, the options are exactly the elements of two or more characters that begin with a dash, up to `--`, and the reports are their characters one by one |
| `Getopt.ParseSplits` | oslib/libc/getopt.c:249-252 | the parse divides the arguments into two parts, each in its old order, without losing any |
| `Getopt.Parser.constructor` | oslib/libc/getopt.c:204-234 | the scan starts behind the program name with no non-options skipped, for option strings that permute |
| `Getopt.Parser.Exchange` | oslib/libc/getopt.c:150-202 | the two adjacent segments have changed places, each in its order, in place; the indices follow |
| `Getopt.Parser.ShortOption` | oslib/libc/getopt.c:560-627 | the report for the next character, in characters of the option string: option, argument, unknown or missing argument, and how far the scan moves |
| `Getopt.Parser.Next` | oslib/libc/getopt.c:318-393 | one call reports the next option of the in-order parse, or ends with the arguments partitioned; for option strings that permute |
| `Getopt.Parser.Run` | oslib/libc/getopt.c:292-627 | a whole run, with an option string that permutes, reports exactly the options of the in-order parse and leaves a stable partition: options, their arguments and `--` first, everything else behind, optind at the boundary; on `prog -c x` the report and optind are those of the option string's characters |
| `EventQueue.PostedOk` | oslib/kl/event.c:79-122 | posting keeps pending and free slots a partition of the pool, and the order by time |
| `EventQueue.AfterIsGreater` | oslib/kl/event.c:107 | of two times with nanoseconds within a second, one is after the other if and only if it is the larger number of nanoseconds |
| `EventQueue.PostedInTime` | oslib/kl/event.c:100-119 | in nanoseconds: the event goes behind all smaller times and before all others, and the times stay nondecreasing; the pool is full exactly when no slot is free |
| `EventQueue.DeletedOk` | oslib/kl/event.c:124-147 | so does deleting |
| `EventQueue.DeletedIsTakenOut` | oslib/kl/event.c:124-147 | exactly the event with that index is off the list, its slot the first free one; nothing changes if there is none |
| `EventQueue.PoliteKeepsDue` | oslib/kl/event.c:165-181 | a post to a later time, or a deletion of an event not due, leaves the due events as they are |
| `EventQueue.WokenOk` | oslib/kl/event.c:163-181 | after a wake-up with handlers that post later and delete nothing due, nothing is due, and the pool is still partitioned and in order |
| `EventQueue.LaterPostsRun` | oslib/kl/event.c:163-181 | handlers that only post to strictly later times are of that kind |
| `EventQueue.SparingRun` | oslib/kl/event.c:163-181 | so are handlers that post to times of a larger number of nanoseconds and delete no event due at the start |
| `EventQueue.NotDueStays` | oslib/kl/event.c:163-181 | an event that is not due survives a wake-up whose handlers only post |
| `EventLinks.LinkedUnique` | oslib/kl/event.c:102-111 | the links from a head determine the list |
| `EventLinks.StepExact` | oslib/kl/event.c:176-179 | the loop's step on a slot keeps the two lists a partition if and only if the slot is the first pending one |
| `EventLinks.HeadStays` | oslib/kl/event.c:100-119 | a post leaves the first pending event the first if and only if it is strictly later, or no slot is free |
| `WakeRun.RunExact` | oslib/kl/event.c:165-181 | over any script and any number of rounds: every step keeps the partition if and only if the loop only steps on the first pending event, that is, the saved slot is null, not due or still the first after each handler |
| `WakeRun.RunConserves` | oslib/kl/event.c:165-181 | what was pending and what the handlers posted is what has been fired, what they deleted and what is left, event by event: none is lost, none fired twice |
| `WakeRun.FiredAreDue` | oslib/kl/event.c:165-181 | every event that such a run fires is due, and the pool stays in order |
| `WakeRun.DueLeftExact` | oslib/kl/event.c:165-181 | a due event is left by a run that has ended if and only if the last handler has posted it and not deleted it, or has deleted the saved event, which was due, and not this one behind it |
| `WakeRun.NothingDueExact` | oslib/kl/event.c:163-181 | a loop that starts at the first event and ends leaves nothing due if and only if it ends at once or its last handler leaves no such event |
| `WakeRun.NothingElseDue` | oslib/kl/event.c:165-181 | a consequence: when no handler deletes the event that the loop goes on from, a run that has ended leaves nothing due but what the last handler posted |
| `WakeRun.CalmIsSafe` | oslib/kl/event.c:165-181 | handlers that post later than the next event and do not delete it are safe, even if they post to due times |
| `WakeRun.SparesExact` | oslib/kl/event.c:100-147 | an operation leaves the first pending event the first if and only if it posts to a later time or deletes another event |
| `WakeRun.PoliteEnds` | oslib/kl/event.c:163-181 | handlers that post later than now and delete nothing due make the run end with exactly the due events fired, once each and in order |
| `WakeRun.PoliteFromFirst` | oslib/kl/event.c:163-181 | from the first event on, such a run ends, fires exactly the due events in order, leaves nothing due and the pool in order |
| `WakeRun.PoliteInTime` | oslib/kl/event.c:163-181 | in nanoseconds: such a run fires exactly the pending events whose time is at most that of now, in their order, and leaves none |
| `WakeRun.PostIsLost` | oslib/kl/event.c:165-181 | two events at one time and a post to that time: the run is not safe, and the posted event is in neither list after the next step |
| `WakeRun.LostInMemory` | oslib/kl/event.c:165-181 | the pool in memory, and the two lists that are left |
| `WakeRun.EndsEarly` | oslib/kl/event.c:165-181 | a handler that deletes the next event and posts again to a later time ends the run with a due event left |
| `Events.Pool.constructor` | oslib/kl/event.c:241-249 | all 100 slots are free, in order |
| `Events.Pool.Post` | oslib/kl/event.c:79-122 | the first free slot goes behind all events of a smaller number of nanoseconds and before all others, and the times are nondecreasing; -1, with nothing changed, exactly when 100 events are pending |
| `Events.Pool.Delete` | oslib/kl/event.c:124-147 | the event is off the list and its slot the first free one; -1, with nothing changed, exactly when it is not pending |
| `Events.Pool.TakeFirst` | oslib/kl/event.c:176-179 | the first event is off the list, its slot is free before its handler runs |
| `Events.Pool.Perform` | oslib/kl/event.c:180 | whatever a handler posts and deletes, the pool stays in order |
| `Events.Pool.WakeUp` | oslib/kl/event.c:163-181 | under the exact condition for a run that ends, the links stay in order, and the handlers of the events of that run have been called, in order; with handlers that post later and delete nothing due, those are the events whose number of nanoseconds is at most that of now |
| `Truename.FoldDoubles` | fd32/filesys/truename.c:361-370 | n double dots go up n directories, and fail exactly when there are fewer |
| `Truename.FoldExpanded` | fd32/filesys/truename.c:371-380 | replacing dot entries by double dots changes nothing to where a path leads |
| `Truename.FoldIsClean` | fd32/filesys/truename.c:347-370 | collapsing leaves no name that consists of dots only |
| `Truename.StepInCharacters` | fd32/filesys/truename.c:347-370 | a component with a character other than a dot is appended as it is; n dots take n - 1 names off, and fail exactly when there are fewer |
| `Truename.DotsInPath` | fd32/filesys/truename.c:347-380 | a component of n dots within a path: collapsed, the n - 1 names before it go, or it fails when there are fewer; else n - 1 double dots take its place |
| `Truename.CanonicalHasNoDotEntry` | fd32/filesys/truename.c:275-390 | with the dots collapsed, no stretch of the result between two backslashes, or behind the last one, consists of dots only |
| `Truename.CompsInCharacters` | fd32/filesys/truename.c:336-343 | a name ends at the first slash of either kind, and any number of slashes separates it from the next |
| `Truename.BeginsInCharacters` | fd32/filesys/truename.c:289-332 | what precedes the first colon is the drive; a slash behind it means the root, anything else the current directory of the drive, of the default drive without a colon |
| `Truename.RenderInCharacters` | fd32/filesys/truename.c:383-387 | every name is written behind a backslash, and one stands at the end only behind a colon |
| `Truename.Idempotent` | fd32/filesys/truename.c:275-390 | a canonical path is left as it is, whatever the drive and directory of the caller |
| `Truename.ExpandThenCollapse` | fd32/filesys/truename.c:275-390 | expanding first and collapsing the result is collapsing directly, success and failure alike |
| `Truename.RewoundNames` | fd32/filesys/truename.c:363-369 | going back over n backslashes takes n - 1 names off, and reaches the root exactly when there are fewer |
| `Truename.RenderParts` | fd32/filesys/truename.c:383-387 | a path as written has the drive and the names it was made of |
| `Truename.Rewind` | fd32/filesys/truename.c:364-369 | the character loop computes that |
| `Truename.Start` | fd32/filesys/truename.c:317-332 | the buffer holds the current directory of the drive, or the root, with one backslash behind it |
| `Truename.NextComp` | fd32/filesys/truename.c:336-341 | the next component and the rest |
| `Truename.CountDots` | fd32/filesys/truename.c:347-351 | the number of characters of a component that consists of dots only, zero for any other |
| `Truename.AddComp` | fd32/filesys/truename.c:353-381 | one component is one step of the stack: in characters, one that is not all dots is appended with a backslash; n dots take n - 1 names off or fail, or add n - 1 double dots |
| `Truename.TrueName` | fd32/filesys/truename.c:275-390 | the character-level function is the stack fold over the components, with failure exactly on underflow; with TNDOTS no component of the result consists of dots only |

## Left out

- Heap.Heap.Malloc: where the source goes on to top, to growth by zones or to DMA memory (malloc.c:2718-2745), the model answers zero. The top arms are modelled by themselves, in Heap.Heap.TakeFromTop, as they leave no heap in order; zone and DMA memory come from other allocators.
- Heap.Heap.constructor: only the result of setting up one segment; segment lists, fenceposts beyond the first and the state chunk itself are not modelled.
- Zone and segment growth, the buddy allocator, locks, footer magic, corruption checks, calloc, realloc and memalign of malloc.c. The word behind a chunk in use is written with whatever owner mark the caller passes.
- The bytes inside chunks in use: tags, feet and links are separate maps, so that a user writing into freed memory, or past a chunk, is not modelled; nor that the foot of a chunk in use is the user's memory.
- `pmm_alloc_from` and `pmm_resize`, which do not keep `top.size`, the log output and `pmm_dump`.
- MemPool.MemPool.Alloc: the alternative that allocates from the end of a block is not modelled.
- MemPool.MemPool.AllocAddress: regions are not empty; regions freed are of at least eight bytes, which the callers' rounding ensures.
- I/O errors of the block device and the recovery from them, mounting, checksums, directories, links, inode creation and write-back of cached inodes.
- Volume.Volume.Write: enough free clusters are required, exactly as many as the write needs, so ENOSPC in the middle of a write is not modelled; neither are access modes, time stamps and the flag checks.
- Volume.Volume.ReadBuf: access stamps do not wrap around, and sizes and offsets are unbounded.
- Volume.Volume.GetFileCluster: a buffer pointer that is neither null nor a buffer of the volume is not modelled.
- Volume.Volume.DeleteFile: the state between the deletion and the release of the channel, where cached positions may still point into the file; Close states what holds after both.
- Volume.Volume.Close: each channel has one reference, channels behind a closed one move up, and whether it was the last one is told from the list of channels instead of a counter; the write-back of the cached inode is not modelled.
- Volume.Volume.Mount: reading the superblock and checking its magic, log sizes, state and checksum are not modelled; its fields are parameters, and the contents of the device are required to be in order.
- Volume.Volume.DirtyBuf: its result is a flag instead of an error code; which writes reach the device at once under O_FSYNC is stated here and not carried on to whole writes.
- Getopt.Parser.constructor: the choice of another order by an option string that begins with `-` or `+` is not modelled, and such strings are excluded by a precondition of Next and Run.
- Long options and messages of getopt.
- Events.Pool.WakeUp: the handlers' effect on the queue is given as a list of posts and deletions, and runs that never end are not run to an end (WakeRun.RunExact speaks of them up to any step); nested wake-ups, time arithmetic, timer and interrupt programming, and the one-shot mode are not modelled.
- Truename.TrueName: substituted drives and the lengths of the fixed buffers are not modelled, and the table of current directories is a function from drives.
- Other parts of the system, which are hardware access, I/O plumbing or simpler lists: slab, devices, loaders, DPMI, console, dynamic linking.
