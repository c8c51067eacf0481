# A verified model of the data structures and packet arithmetic

This project models the self-contained algorithms of the DPI-bypass engine and of the zapret2 sources it carries
along, and proves what they promise. Each module follows one source file or one part of it:

- `AvlTrees`, `AvlInsertion` and `AvlErasure` describe the AVL tree of `kavl.h` as a value: order, heights, sizes and
  what each step of an insertion or erasure does to them. `KavlNodes`, `KavlUnlink`, `KavlShrink` and `Kavl` hold the
  code itself, on heap nodes without parent pointers and with the fixed path arrays. `KavlIterator` is its iterator,
  `KavlFree` its destruction.
- `BitPrefixes` and `IpSets` are the IP set of `pools.c`: that tree under a comparator that is no order on all prefixes.
- `HashItems`, `HashChains` and `Uthash` are the uthash table, an insertion-ordered map whose items lie on two lists
  each; `MergeSorts` and `ListSort` are its in-place mergesort.
- `Orders` and `Qsort` are the non-recursive quicksort; `Ip2net` is the subnet grouping on top of it.
- `Serial`, `Reassembly` and `Conntrack` are stream reassembly and position tracking with wrapping sequence numbers.
- `Checksum` is the Internet checksum in 64-bit words, `Fragment` the splitting of a TCP segment in place.
- `DnsNames` writes and reads DNS names; `DnsRecords` and `DnsRedir` are the tracker of DNS queries, which keeps its
  records in the modelled hash table.
- `ReplStr` replaces strings in two passes.
- `Numbers`, `Bytes` and `Sequences` hold what several of them share.

Code that changes things in place is modelled in place: classes with the fields of the C structures, arrays, loops and
the same branches and constants. Every such method is specified by a function of the state before it, and the main
results are lemmas about those functions for all inputs or all runs.

Memory is assumed to be available; the clock, the id of a query and everything read or sent are parameters or results.
A predicate `Valid` (or `Usable`, `Progress`, `Table`) says what a structure keeps between calls. Counts that the source
keeps in 32 bits are bounded by it: a tree holds fewer than 2^32 nodes, a hash table fewer than 2^32 items.

What the proofs found, each stated as a lemma with the exact condition:

- `from64to16` truncates its last addition, so `do_csum` is wrong for some inputs (`Checksum.CsumExact`,
  `Checksum.LostCarry`).
- The early skip of the v4 search in `ip2net` can lose a network that is full enough, so that the printed line is not
  the best one. `Ip2net.TightExactly` says for which thresholds and ranges that never happens, `Ip2net.SkipLosesNetwork`
  gives a list for each of the others; the default of 3/4 is safe (`Ip2net.DefaultIsTight`).
- A clock at its epoch switches the cleanup of DNS records off (`DnsRecords.ZeroClock`, `DnsRecords.CleanExactly`).
- `kavl_itr_find` does not always stop at an equal or greater object as documented: without an equal one it stops at the
  next greater one exactly if that has no left child, and it is empty only for an empty tree (`KavlIterator.Iterator.Find`,
  `KavlIterator.NextGreater`, `KavlIterator.MissedNext`).

## Model

| member | source | states |
|---|---|---|
| `Kavl.Kavl.Insert` | zapretupdate/zapret2-master/nfq2/kavl.h:142-186 | The tree stays a valid AVL search tree; a node equal to x leaves everything as it was and is returned with its rank; otherwise x is spliced into the order at the one place where it belongs. Either way the count is the number of nodes not greater than x in the tree before the call. |
| `Kavl.Kavl.Erase` | zapretupdate/zapret2-master/nfq2/kavl.h:188-269 | The tree stays valid; nothing happens iff no node equals the key; otherwise exactly the equal node leaves the order and the count is its rank. |
| `Kavl.Kavl.EraseFirst` | zapretupdate/zapret2-master/nfq2/kavl.h:209-213 | On a tree that is not empty, the first node in order leaves and is returned. |
| `Kavl.Kavl.Find` | zapretupdate/zapret2-master/nfq2/kavl.h:81-92 | Finds the equal node with its rank, or proves that the key belongs between the first cnt nodes and the others. |
| `Kavl.Kavl.Locate` | zapretupdate/zapret2-master/nfq2/kavl.h:150-165 | The descent of the insertion: the path it records, and the last node on it that is not level with the directions below it. |
| `Kavl.Kavl.Victim` | zapretupdate/zapret2-master/nfq2/kavl.h:196-208 | The descent of the erasure records, behind the fake node, exactly the path to the equal node, or shows that there is none. |
| `Kavl.Kavl.EraseAt` | zapretupdate/zapret2-master/nfq2/kavl.h:215-268 | Unlinking and re-balancing remove exactly one node from the order, with all balances and sizes right again. |
| `KavlNodes.Rotate1` | zapretupdate/zapret2-master/nfq2/kavl.h:112-121 | On the heap the single rotation turns the tree t into Rot1(t), sizes included. |
| `KavlNodes.Rotate2` | zapretupdate/zapret2-master/nfq2/kavl.h:123-140 | On the heap the double rotation turns the tree t into Rot2(t), sizes and balances included. |
| `KavlNodes.UpdateBalances` | zapretupdate/zapret2-master/nfq2/kavl.h:171-173 | Following the recorded directions from bp down to x leans every node on that stretch, and no other, towards x. |
| `KavlNodes.MendInsert` | zapretupdate/zapret2-master/nfq2/kavl.h:176-182 | Re-balancing after an insertion keeps the order and the count, makes all balances right and lowers the subtree by one level. |
| `KavlUnlink.Unlink` | zapretupdate/zapret2-master/nfq2/kavl.h:215-245 | All three ways of unlinking keep the order of the other nodes and leave one gap, a subtree one level lower than its path says. |
| `KavlUnlink.UnlinkInner` | zapretupdate/zapret2-master/nfq2/kavl.h:219-244 | A node with a right child is replaced by its successor, next to it or further down; the path arrays then hold the way to the place the successor left. |
| `KavlShrink.MendErase` | zapretupdate/zapret2-master/nfq2/kavl.h:253-265 | Re-balancing in the erasure keeps order and count and tells whether the subtree kept its height, which is when the loop stops. |
| `KavlShrink.CloseGap` | zapretupdate/zapret2-master/nfq2/kavl.h:246-267 | The loop moves the gap up until it disappears: a valid AVL tree of the same order hangs below the fake node. |
| `AvlTrees.Rot1Inorder` | zapretupdate/zapret2-master/nfq2/kavl.h:111-121 | A single rotation keeps the order. |
| `AvlTrees.Rot2Inorder` | zapretupdate/zapret2-master/nfq2/kavl.h:122-140 | A double rotation keeps the order. |
| `AvlTrees.SingleMends` | zapretupdate/zapret2-master/nfq2/kavl.h:179-181 | An overweight node whose heavy child does not lean back is mended by a single rotation. |
| `AvlTrees.DoubleMends` | zapretupdate/zapret2-master/nfq2/kavl.h:182 | An overweight node whose heavy child leans back is mended by a double rotation. |
| `AvlTrees.SparsestTree` | zapretupdate/zapret2-master/nfq2/kavl.h:74-79 | A tree of height h with right balances has at least Fib(h + 2) - 1 nodes. |
| `AvlTrees.DepthFits` | zapretupdate/zapret2-master/nfq2/kavl.h:69 | A tree whose node count fits the 32-bit size field is at most 45 levels high, so no path outgrows the 64 entries. |
| `AvlTrees.PathDepth` | zapretupdate/zapret2-master/nfq2/kavl.h:152-164 | A path is never longer than the tree is high above its end. |
| `AvlTrees.GoodPlug` | zapretupdate/zapret2-master/nfq2/kavl.h:74-79 | A tree is valid exactly if the subtree at the end of a path is and every frame of the path agrees with its height and count. |
| `AvlInsertion.LevelTree` | zapretupdate/zapret2-master/nfq2/kavl.h:170-174 | When every node on the way to the new leaf is level, the whole tree stays valid and grows by one level. |
| `AvlInsertion.SteepTree` | zapretupdate/zapret2-master/nfq2/kavl.h:174-184 | When the last sloping node leans to the other side, or its subtree is mended, the tree around it is valid at its old height. |
| `AvlInsertion.GrownTree` | zapretupdate/zapret2-master/nfq2/kavl.h:170-174 | What the size and balance updates make of the tree above and below the last sloping node. |
| `AvlErasure.UnlinkSimple` | zapretupdate/zapret2-master/nfq2/kavl.h:216-217 | Without a right child, the left subtree takes the place of the node: the order loses the node and the path the right height. |
| `AvlErasure.UnlinkSuccessor` | zapretupdate/zapret2-master/nfq2/kavl.h:218-244 | With the successor in the place of the node, the order loses the node and the path below it is one level too high for its end. |
| `AvlErasure.ShrinkNode` | zapretupdate/zapret2-master/nfq2/kavl.h:251-266 | At a node whose subtree became one level lower: it is level and lower, or it leans and keeps its height, or it is overweight. |
| `KavlNodes.TotalOrderFits` | zapretupdate/zapret2-master/nfq2/kavl.h:85-90 | With a total order any key can be searched for in a sorted tree: the comparisons along the order never turn back. |
| `KavlIterator.Iterator.First` | zapretupdate/zapret2-master/nfq2/kavl.h:289-293 | Stops at the first node in order; empty exactly for an empty tree. |
| `KavlIterator.Iterator.Next` | zapretupdate/zapret2-master/nfq2/kavl.h:307-322 | Moves to the next or the previous node in order, or past the end exactly from the last or the first node. |
| `KavlIterator.Iterator.Find` | zapretupdate/zapret2-master/nfq2/kavl.h:294-306 | Stops at the equal node; otherwise at the next greater node exactly if that one has no left child, and else at the node before it. Empty exactly for an empty tree, although the documentation says exactly if the key is greater than all. |
| `KavlIterator.NextGreater` | zapretupdate/zapret2-master/nfq2/kavl.h:294-306 | At the end of a search without success, the last node on the path is the next greater one exactly if that one has no left child. |
| `KavlIterator.MissedNext` | zapretupdate/zapret2-master/nfq2/kavl.h:294-306 | In the tree with 5 at the root and 3 below it, searching 4 stops at 3 although 5 is the next greater one, and searching 6 stops at 5 although none is greater. |
| `KavlIterator.Iterator.At` | zapretupdate/zapret2-master/nfq2/kavl.h:402 | The node on top of the stack is the one whose rank the iterator has. |
| `KavlFree.Free` | zapretupdate/zapret2-master/nfq2/kavl.h:271-283 | The destruction, which rotates instead of using a stack, ends, frees every node exactly once, in order, and never touches a freed node again. |
| `KavlFree.TurnedKeeps` | zapretupdate/zapret2-master/nfq2/kavl.h:277-280 | A turn keeps the nodes and their order and makes the left side smaller. |
| `BitPrefixes.ComparatorMeaning` | zapretupdate/zapret2-master/nfq2/pools.c:433-444 | The comparator orders two prefixes at their first different bit and calls them equal when one starts with the other. |
| `BitPrefixes.BitCmpZero` | zapretupdate/zapret2-master/nfq2/pools.c:433-444 | Equal means that one of the two covers the other. |
| `BitPrefixes.BitCmpTransitive` | zapretupdate/zapret2-master/nfq2/pools.c:433-444 | Smaller is transitive. |
| `BitPrefixes.NoOrder` | zapretupdate/zapret2-master/nfq2/pools.c:433-444 | Equal is not transitive: three prefixes show that the comparator is no order on all prefixes. |
| `BitPrefixes.CoverChain` | zapretupdate/zapret2-master/nfq2/pools.c:481-485 | Of two prefixes of one address one covers the other, so a new prefix cannot cover a stored one and be covered by another. |
| `IpSets.SortedIsAntichain` | zapretupdate/zapret2-master/nfq2/pools.c:445 | In a tree sorted by the comparator no prefix covers another, so it is a strict order there. |
| `IpSets.PrefixFits` | zapretupdate/zapret2-master/nfq2/pools.c:433-445 | Any prefix can be searched for among such prefixes. |
| `IpSets.KavlBitAdd` | zapretupdate/zapret2-master/nfq2/pools.c:470-488 | The delete-and-retry loop ends; the stored prefixes change exactly as AddPrefix says and the returned element covers the new prefix. |
| `IpSets.DeletePrefix` | zapretupdate/zapret2-master/nfq2/pools.c:454-460 | Exactly the given prefix leaves the set. |
| `IpSets.KavlBitDestroy` | zapretupdate/zapret2-master/nfq2/pools.c:461-469 | Erasing the first element until none is left empties the set. |
| `IpSets.AddPrefixMeaning` | zapretupdate/zapret2-master/nfq2/pools.c:470-488 | Adding keeps the prefixes apart and adds exactly the addresses of the new one. |
| `IpSets.AddRepresents` | zapretupdate/zapret2-master/nfq2/pools.c:470-488 | After an addition the stored prefixes still stand for all prefixes ever added. |
| `IpSets.RepresentsMeaning` | zapretupdate/zapret2-master/nfq2/pools.c:489-495 | The stored prefixes cover the same addresses as all added ones together. |
| `IpSets.CidrKeyBits` | zapretupdate/zapret2-master/nfq2/pools.c:497-514 | The copied bytes hold all bits of the prefix. |
| `IpSets.IpSet.Add` | zapretupdate/zapret2-master/nfq2/pools.c:521-553 | Ranges that are too long are refused; others are added to what the set stands for. |
| `IpSets.IpSet.Check` | zapretupdate/zapret2-master/nfq2/pools.c:517-548 | A full-length lookup answers as a scan of all added ranges would; a shorter one finds a range that covers it or lies inside it. |
| `Uthash.Hash.Add` | src/utils/uthash.h:397-416 | The item joins the end of the insertion order; lists, buckets, counts and hash values stay consistent. |
| `Uthash.Hash.Delete` | src/utils/uthash.h:451-478 | Exactly the given item leaves the order and its bucket; everything stays consistent; the last item takes the table with it. |
| `Uthash.Hash.Find` | src/utils/uthash.h:154-173 | Finds an item with the key iff the table holds one. |
| `Uthash.Hash.FindInBkt` | src/utils/uthash.h:744-763 | The walk along one chain finds an item with the key iff the chain holds one. |
| `Uthash.Hash.MakeTable` | src/utils/uthash.h:213-243 | A new table has 32 empty buckets. |
| `Uthash.Hash.AddToBkt` | src/utils/uthash.h:766-785 | The item goes to the front of the chain its hash value selects; the number of buckets doubles exactly if the bucket then reaches its threshold and expansion is not off, and the table still files every item. |
| `Uthash.Hash.ExpandBuckets` | src/utils/uthash.h:832-882 | Doubling keeps every item filed in its new bucket; the ideal length is the rounded-up quotient, the non-ideal count is the total excess over it, and two ineffective expansions in a row end all expansion. |
| `HashChains.MoveBuckets` | src/utils/uthash.h:845-867 | The two loops of the expansion move every item of the old chains into the new buckets, links and counts right. |
| `HashChains.PushInto` | src/utils/uthash.h:766-775 | Counting an item into its bucket and linking it in front keeps the whole table consistent. |
| `HashChains.DelInBkt` | src/utils/uthash.h:788-800 | The chain of a bucket loses exactly the item; head, count and both links are right. |
| `HashItems.PatchList` | src/utils/uthash.h:459-473 | Head, tail and both links are patched around the deleted item. |
| `HashItems.AppendList` | src/utils/uthash.h:279-285 | The item is linked behind the tail. |
| `Uthash.Hash.Fsck` | src/utils/uthash.h:517-564 | What HASH_FSCK verifies holds of every valid table: both links of every chain, each bucket count, their total, and the order list with its length. |
| `HashChains.UptoAll` | src/utils/uthash.h:431-434 | The chains together hold all items. |
| `HashChains.ChainsApart` | src/utils/uthash.h:431-434 | Different chains share no item. |
| `Uthash.Hash.DeleteUnless` | src/utils/uthash.h:1055-1061 | Deleting the current item while iterating visits every item once and leaves exactly the wanted ones, in order. |
| `Uthash.FindRefines` | src/utils/uthash.h:154-173 | With unique keys a search returns what the map holds. |
| `Uthash.AddRefines` | src/utils/uthash.h:397-416 | Adding extends the map, and keys stay unique exactly if the key is new. |
| `Uthash.DeleteRefines` | src/utils/uthash.h:451-478 | Deleting an item takes its key out of the map and nothing else. |
| `Uthash.KeptRefines` | src/utils/uthash.h:1055-1061 | Deleting while iterating leaves exactly the wanted entries of the map. |
| `Uthash.Hash.Sort` | src/utils/uthash.h:889-971 | The order list becomes its stable sorted permutation, with prev links, tail and head right and the buckets untouched. |
| `ListSort.SortList` | src/utils/uthash.h:891-966 | The passes end, on 32-bit counters, with a stable sorted permutation linked in both directions. |
| `ListSort.SortPass` | src/utils/uthash.h:899-958 | One pass merges neighbouring runs of the given length; at most one merge is counted exactly if the whole list was one pair of runs. |
| `ListSort.MergeRuns` | src/utils/uthash.h:915-955 | Merging two runs in place appends their merge to the output list and leaves the rest of the input intact. |
| `ListSort.CutRun` | src/utils/uthash.h:904-913 | The second run starts after the first insize items or at the end. |
| `MergeSorts.MergeStable` | src/utils/uthash.h:931-946 | Merging sorted runs keeps equal items in order, those of the first run before those of the second. |
| `MergeSorts.MergeOrdered` | src/utils/uthash.h:915-955 | The merge of sorted runs is sorted. |
| `MergeSorts.PassRuns` | src/utils/uthash.h:897-965 | A pass over sorted runs doubles their length. |
| `MergeSorts.PassStable` | src/utils/uthash.h:897-965 | A pass keeps equal items in order. |
| `Qsort.GnuQuicksort` | zapretupdate/zapret2-master/ip2net/qsort.c:89-250 | For any length and any total preorder the array ends sorted and a permutation of what it was. |
| `Qsort.QuickPhase` | zapretupdate/zapret2-master/ip2net/qsort.c:101-196 | After the partition phase elements more than MAX_THRESH apart are in order; the explicit stack never overflows. |
| `Qsort.Partition` | zapretupdate/zapret2-master/ip2net/qsort.c:121-164 | Only the segment is rearranged; it ends split around a pivot, and the unguarded scans stay inside it. |
| `Qsort.MedianOfThree` | zapretupdate/zapret2-master/ip2net/qsort.c:121-131 | The three probes end in order. |
| `Qsort.ScanUp` | zapretupdate/zapret2-master/ip2net/qsort.c:141-142 | The unguarded upward scan stops inside the segment. |
| `Qsort.ScanDown` | zapretupdate/zapret2-master/ip2net/qsort.c:144-145 | The unguarded downward scan stops inside the segment. |
| `Qsort.PendingStep` | zapretupdate/zapret2-master/ip2net/qsort.c:166-194 | Replacing a partitioned segment by its large parts keeps far elements in order unless one pending segment holds both. |
| `Qsort.LightStep` | zapretupdate/zapret2-master/ip2net/qsort.c:183-194 | Since the larger part is pushed and the smaller one continued, each deeper stack entry is at most half as large. |
| `Qsort.StackFits` | zapretupdate/zapret2-master/ip2net/qsort.c:47-62 | Hence no push reaches the end of the stack. |
| `Qsort.PlaceMinimum` | zapretupdate/zapret2-master/ip2net/qsort.c:207-221 | The smallest of the first MAX_THRESH + 1 elements is the smallest of all. |
| `Qsort.MinimumOfAll` | zapretupdate/zapret2-master/ip2net/qsort.c:212-218 | Because far elements are in order, the minimum cannot lie beyond the threshold. |
| `Qsort.InsertOne` | zapretupdate/zapret2-master/ip2net/qsort.c:226-248 | Inserting one element keeps the sorted prefix; the unguarded backward scan stops at the first element at the latest. |
| `Qsort.InsertionPhase` | zapretupdate/zapret2-master/ip2net/qsort.c:206-249 | The second phase sorts an array whose far elements are in order. |
| `Ip2net.Ip2NetMain` | zapretupdate/zapret2-master/ip2net/ip2net.c:367-516 | The printed networks and addresses partition the input: increasing, without overlap, every input address held, none without an input address. |
| `Ip2net.SearchV4` | zapretupdate/zapret2-master/ip2net/ip2net.c:472-501 | The v4 search finds the smallest network among those that cover most of the remaining addresses, on 32-bit products. |
| `Ip2net.SearchV6` | zapretupdate/zapret2-master/ip2net/ip2net.c:381-413 | The v6 search: no network exactly if every one in range holds fewer than two addresses or fewer than the threshold; otherwise one that reaches the threshold, holds as many addresses as the largest in range, and is the smallest with them. |
| `Ip2net.CountIsNetwork` | zapretupdate/zapret2-master/ip2net/ip2net.c:387-394 | The counted addresses are those whose quotient by the size of the network is that of the first one. |
| `Ip2net.CountV4` | zapretupdate/zapret2-master/ip2net/ip2net.c:483 | Counts the addresses up to the end of the network. |
| `Ip2net.CountV6` | zapretupdate/zapret2-master/ip2net/ip2net.c:389-394 | Counts the addresses with the same masked value, which are those up to the end of the network. |
| `Ip2net.Group` | zapretupdate/zapret2-master/ip2net/ip2net.c:377-510 | Every line is what the search finds at its position, and the next position lies behind the addresses it covers. |
| `Ip2net.LinesDisjoint` | zapretupdate/zapret2-master/ip2net/ip2net.c:377-510 | Lines never overlap, even if products overflow. |
| `Ip2net.WouldQualify` | zapretupdate/zapret2-master/ip2net/ip2net.c:475-497 | A later network around an earlier address would already have qualified at that address. |
| `Ip2net.OutputPartitions` | zapretupdate/zapret2-master/ip2net/ip2net.c:377-510 | Lines found that way partition the addresses. |
| `Ip2net.LineIsTight` | zapretupdate/zapret2-master/ip2net/ip2net.c:472-501 | If the skip is harmless at every size in range, a line meets its threshold, covers the same inputs as the largest prefix in range that does, and no smaller prefix in range covers those inputs; a single address is printed only if no prefix in range meets its threshold. |
| `Ip2net.V4LineMeaning` | zapretupdate/zapret2-master/ip2net/ip2net.c:472-501 | The same in numbers: no network exactly if none in range holds two addresses and mult/div of its size rounded down; otherwise one that does, with as many addresses as any other larger one that does, and smaller ones hold fewer. |
| `Ip2net.SkippedIsFull` | zapretupdate/zapret2-master/ip2net/ip2net.c:480-487 | The skip hides a network that is full enough exactly if the quota is not whole and the addresses are the last ones of the network, at least two and as many as the rounded quota. |
| `Ip2net.FoundInHalf` | zapretupdate/zapret2-master/ip2net/ip2net.c:477-498 | If the rounded quota is at most half of such a network and the half is in range, the half is found with the same addresses. |
| `Ip2net.SkipLosesNetwork` | zapretupdate/zapret2-master/ip2net/ip2net.c:472-501 | At a size where the skip is not harmless, the search on some list finds a line that is not tight. |
| `Ip2net.TightExactly` | zapretupdate/zapret2-master/ip2net/ip2net.c:472-501 | Lines are tight for all lists exactly if at every size in range the quota is whole, or less than two addresses, or at most half the network with a smaller size in range (products within 32 bits). |
| `Ip2net.DefaultIsTight` | zapretupdate/zapret2-master/ip2net/ip2net.c:257-258 | The default threshold of 3/4 gives tight lines in every range up to 30 zero bits. |
| `Ip2net.Nested` | zapretupdate/zapret2-master/ip2net/ip2net.c:50-53 | Networks around one address are nested. |
| `Ip2net.SameNet` | zapretupdate/zapret2-master/ip2net/ip2net.c:50-53 | A network is the same for each of its addresses. |
| `Ip2net.Unique` | zapretupdate/zapret2-master/ip2net/ip2net.c:54-66 | A sorted array is compacted to its distinct values, in increasing order. |
| `Ip2net.SortList` | zapretupdate/zapret2-master/ip2net/ip2net.c:466 | Sorting with either comparator keeps the values and orders them. |
| `Ip2net.Cmp6IsNumeric` | zapretupdate/zapret2-master/ip2net/ip2net.c:73-119 | Comparing the two 64-bit halves is comparing the 128-bit numbers. |
| `Reassembly.Reassemble.Feed` | zapretupdate/zapret2-master/nfq2/conntrack.c:407-432 | A segment is accepted exactly if it begins at most 0x100000 bytes behind the end of the data, modulo 2^32, and its end fits; a gap of up to 0xFFFFF is refused. Then the data is as before with the payload written at its place, and no shorter than its end; a refusal changes nothing. |
| `Reassembly.OverlapsComplete` | zapretupdate/zapret2-master/nfq2/conntrack.c:389-432 | Pieces of a stream that overlap in any way, each without a gap and reaching back at most 0x100000 bytes, leave the stream as far as they reach; when they reach the expected size, all of it. |
| `Reassembly.ReachIsMaximum` | zapretupdate/zapret2-master/nfq2/conntrack.c:427-431 | How far the pieces reach is the maximum of their ends. |
| `Reassembly.Reassemble.Merge` | zapretupdate/zapret2-master/nfq2/conntrack.c:416-431 | The copy overwrites the overlap and appends the rest, as far as the payload lies behind the start of the session. |
| `Reassembly.Reassemble.HasSpace` | zapretupdate/zapret2-master/nfq2/conntrack.c:433-436 | There is room for len bytes exactly if the next contiguous segment of that length would be accepted. |
| `Reassembly.NearEnd` | zapretupdate/zapret2-master/nfq2/conntrack.c:410-415 | The two wrapped differences mean the distance of the segment from the end of the data. |
| `Reassembly.FedHoldsStream` | zapretupdate/zapret2-master/nfq2/conntrack.c:407-432 | A segment that agrees with a byte stream leaves a prefix of that stream of exactly the expected length. |
| `Reassembly.RunHoldsStream` | zapretupdate/zapret2-master/nfq2/conntrack.c:389-432 | Over any run the session holds exactly a prefix of the stream, never more than its size, across overlaps and wraparound. |
| `Reassembly.InOrderCompletes` | zapretupdate/zapret2-master/nfq2/conntrack.c:389-432 | A message that arrives in order in pieces of any sizes is received completely. |
| `Reassembly.OverwrittenAt` | zapretupdate/zapret2-master/nfq2/conntrack.c:424-426 | In case of overlap new data replaces old, byte by byte. |
| `Conntrack.Track.FeedPacket` | zapretupdate/zapret2-master/nfq2/conntrack.c:190-220 | The last sequence number and the position of both sides are those of the segment; state, starting numbers, restarts and highest positions change as Fed says, whose runs the following rows describe. |
| `Conntrack.StageIs` | zapretupdate/zapret2-master/nfq2/conntrack.c:190-220 | Over any run the state is FIN if a FIN or RST came since the last opening, else ESTABLISHED if another plain segment did, else SYN; the client starting number is that of the opening SYN or SYN-ACK. |
| `Conntrack.ConnectionStage` | zapretupdate/zapret2-master/nfq2/conntrack.c:190-220 | A connection opened by its first segment never restarts, leaves the SYN stage with the first segment that is neither SYN nor SYN-ACK, and keeps the number of its client. |
| `Conntrack.ServerNumber` | zapretupdate/zapret2-master/nfq2/conntrack.c:197-216 | The server starting number is that of the last SYN-ACK; without one, what the first segment behind the SYN stage acknowledges, less one, if it is a plain one of the client. |
| `Conntrack.RestartForgets` | zapretupdate/zapret2-master/nfq2/conntrack.c:192-196 | A SYN behind the SYN stage starts again from nothing. |
| `Conntrack.Over2G` | zapretupdate/zapret2-master/nfq2/conntrack.c:168-171 | A side is flagged exactly if a segment came whose number, or acknowledgement for it, was 2^31 or more ahead of its starting number. |
| `Conntrack.Track.ApplyPos` | zapretupdate/zapret2-master/nfq2/conntrack.c:155-171 | Positions of the sender and of the receiver change as Sent and Acked say. |
| `Conntrack.SynStarts` | zapretupdate/zapret2-master/nfq2/conntrack.c:158-159 | In the SYN stage the highest position is that of the segment itself. |
| `Conntrack.UpposIsHighest` | zapretupdate/zapret2-master/nfq2/conntrack.c:133-171 | Over a whole connection whose ends stay within half the range of the highest so far, uppos is the highest end position since the last segment of the direction in the SYN stage. |
| `Conntrack.RunHighest` | zapretupdate/zapret2-master/nfq2/conntrack.c:155-165 | The same from any state in which uppos is right. |
| `Conntrack.HighestIsMaximum` | zapretupdate/zapret2-master/nfq2/conntrack.c:160-165 | That highest position is the maximum over all data segments of the direction. |
| `Conntrack.RetransmissionIs` | zapretupdate/zapret2-master/nfq2/desync.c:341-344 | Right after a data segment behind the SYN stage of a connection, is_retransmission holds exactly if the segment ends no later than the highest end before it. |
| `Conntrack.Pool.Feed` | zapretupdate/zapret2-master/nfq2/conntrack.c:256-293 | Which entry a packet updates or creates, and which direction is reported; no connection is ever stored in both directions. |
| `Conntrack.BothDirections` | zapretupdate/zapret2-master/nfq2/conntrack.c:256-293 | A packet of the opposite direction finds the same entry with the flag inverted. |
| `Conntrack.PoolRun` | zapretupdate/zapret2-master/nfq2/conntrack.c:256-293 | The entry of a connection that a SYN or SYN-ACK creates holds what the run of its packets, in both directions, makes of a new track; no other entry changes. |
| `Conntrack.PoolIgnores` | zapretupdate/zapret2-master/nfq2/conntrack.c:278-286 | A packet of no stored connection changes nothing exactly if it is a TCP segment that is neither SYN nor SYN-ACK. |
| `Checksum.DoCsum` | zapretupdate/zapret2-master/nfq2/checksum.c:16-80 | The pointer-walking loop computes the folded accumulator; no addition outside the 64-bit loop wraps. |
| `Checksum.SumWords64` | zapretupdate/zapret2-master/nfq2/checksum.c:50-60 | The loop over 64-bit words is the end-around sum. |
| `Checksum.EndAroundSum` | zapretupdate/zapret2-master/nfq2/checksum.c:50-60 | No carry is lost: the end-around sum is congruent modulo 65535 to the sum of the 16-bit words. |
| `Checksum.AccumulatorCongruent` | zapretupdate/zapret2-master/nfq2/checksum.c:16-77 | For every length and alignment the accumulator before the fold is congruent to the word sum of section 2 of RFC 1071, times 256 for an odd start. |
| `Checksum.FoldExact` | zapretupdate/zapret2-master/nfq2/checksum.c:8-12 | The folded result is congruent to the accumulator exactly if the last addition does not carry out of 16 bits. |
| `Checksum.CsumExact` | zapretupdate/zapret2-master/nfq2/checksum.c:16-81 | do_csum is congruent to the word sum, whatever the alignment, exactly unless the four pieces of the accumulator sum to 0x1FFFF. |
| `Checksum.CsumValue` | zapretupdate/zapret2-master/nfq2/checksum.c:16-81 | Its value is 0 for a buffer of zeros and in that case, and otherwise the one number from 1 to 65535 that is congruent to the word sum. |
| `Checksum.AccumulatorZero` | zapretupdate/zapret2-master/nfq2/checksum.c:16-77 | The accumulator is zero only for a buffer of zeros. |
| `Checksum.LostCarry` | zapretupdate/zapret2-master/nfq2/checksum.c:8-12 | Eight bytes 0xFF and one byte 1 lose that carry: the result is 0, the word sum is not. |
| `Fragment.Handle.SendNativeFragment` | src/hayalet.c:937-989 | One call sends exactly the pieces that Sent says and restores the whole buffer. |
| `Fragment.Handle.CutEnd` | src/hayalet.c:957-967 | Step 0 leaves the packet cut after the fragment, with the IP length adjusted. |
| `Fragment.Handle.CutFront` | src/hayalet.c:970-983 | Step 1 leaves the packet without the fragment, IP length and sequence number adjusted. |
| `Fragment.Handle.SendFragments` | src/hayalet.c:1596-1617 | Both calls, in the order of the reverse flag, send their pieces and restore the buffer. |
| `Fragment.FieldBytes` | src/hayalet.c:953-978 | The IP length and the sequence number as bytes of the packet, the most significant first. |
| `Fragment.FirstFields` | src/hayalet.c:957-967 | The first piece: its payload, its sequence number, a consistent IP length, all other header bytes unchanged. |
| `Fragment.SecondFields` | src/hayalet.c:970-983 | The second piece likewise, its sequence number modulo 2^32. |
| `Fragment.BothCalls` | src/hayalet.c:1596-1617 | In either order the two pieces carry the payload between them with adjacent sequence numbers and matching IP lengths; a fragment that is not smaller than the payload gives the original packet once. |
| `DnsNames.MkQueryBlob` | zapretupdate/zapret2-master/mdig/mdig.c:330-364 | The length is 0 exactly for calls that AcceptedMeaning refuses; otherwise the buffer holds id, header, encoded labels, type and class, with the operation, recursion desired, one question and no records stated byte by byte, and nothing behind them changed. |
| `DnsNames.AcceptedMeaning` | zapretupdate/zapret2-master/mdig/mdig.c:335-351 | Accepted are operations below 16 and names of at most 253 bytes, without their last dot, that do not begin or end with a dot, have no two dots in a row and no 64 bytes without a dot, if the buffer holds 18 bytes more than the name (17 without a name). |
| `DnsNames.CountLabels` | zapretupdate/zapret2-master/mdig/mdig.c:345-350 | Rewriting dots to length bytes in place gives the encoding of the labels, or finds a label of a bad length. |
| `DnsNames.ExtractName` | zapretupdate/zapret2-master/nfq2/desync.c:1649-1686 | The decoded name, its terminating zero and the position behind the name, or no name, exactly as the walk over the labels says. |
| `DnsNames.PointerDecodes` | zapretupdate/zapret2-master/nfq2/desync.c:1658-1685 | Two bytes with their top bits set, as in section 4.1.4 of RFC 1035, give the name at the 14-bit offset and the position behind the two bytes, or nothing exactly if the name does not fit the buffer. |
| `DnsNames.NameDecodes` | zapretupdate/zapret2-master/nfq2/desync.c:1666-1685 | A name in place gives the name and the position behind its last byte, or nothing exactly if it does not fit the buffer. |
| `DnsNames.MixedRefused` | zapretupdate/zapret2-master/nfq2/desync.c:1678-1679 | A label length of 64 or more, such as a pointer behind a label, is refused. |
| `DnsNames.WalkDecodes` | zapretupdate/zapret2-master/nfq2/desync.c:1667-1685 | The walk is the inverse of the encoding of section 3.1 of RFC 1035. |
| `DnsNames.JoinedSplit` | zapretupdate/zapret2-master/nfq2/desync.c:1667-1685 | Joining the labels of a name gives the name in lower case. |
| `DnsNames.LowerBytes` | zapretupdate/zapret2-master/nfq2/desync.c:1680 | Lower case means that capital letters become small ones and nothing else changes. |
| `DnsNames.QueryRoundTrip` | zapretupdate/zapret2-master/mdig/mdig.c:330-364 | For every accepted name that is not empty, decoding at offset 12 with a 256-byte buffer returns the lower-cased name without its trailing dot and the offset of the type field. |
| `DnsRecords.KeyRoundTrip` | src/dnsredir.c:67-94 | Reading a key back gives the family, the port and the address as far as the family uses it. |
| `DnsRecords.SameKey` | src/dnsredir.c:67-80 | Two clients share a key exactly if family, port and that address agree. |
| `DnsRecords.QueryTracked` | src/dnsredir.c:141-222 | Over any run a packet without QR, opcode, TC and answers, between set ports, is tracked if every earlier tracked query of its client was answered. |
| `DnsRecords.QueryAnswered` | src/dnsredir.c:171-249 | Over any run a packet with QR and opcode 0 is rewritten, to the server address and port of the query, if a query of its client was tracked less than 30 seconds before and not answered since. |
| `DnsRecords.AskAndAnswer` | src/dnsredir.c:141-249 | The first query of a client and a response to it within 30 seconds: the one is tracked, the other rewritten. |
| `DnsRecords.OnlyQueriesAndResponses` | src/dnsredir.c:191-203 | Nothing else is tracked or rewritten. |
| `DnsRecords.QueryBytes` | src/dnsredir.c:194-195 | The mask and the answer count in terms of single bytes of an outgoing packet. |
| `DnsRecords.ResponseBytes` | src/dnsredir.c:198-199 | The mask in terms of the third byte of an incoming packet. |
| `DnsRecords.AnsweredHasQuery` | src/dnsredir.c:205-249 | Over any run a response is rewritten only for a query of that client, port and family that is less than 60 seconds old and not answered yet, and it gets back the server address and port of that query. |
| `DnsRecords.AnsweredOnce` | src/dnsredir.c:242-245 | An answer consumes its record: the next one for the client needs another query in between. |
| `DnsRecords.RecordsHaveOrigins` | src/dnsredir.c:141-169 | Every record stems from a query that was not answered since. |
| `DnsRecords.NoOldRecords` | src/dnsredir.c:171-189 | After any call that runs the cleanup no record is 60 seconds old. |
| `DnsRecords.ZeroClock` | src/dnsredir.c:174-177 | A clock at its epoch defeats the cleanup: then a record of any age survives the next call. |
| `DnsRecords.CleanExactly` | src/dnsredir.c:171-189 | On clocks that start at c or later, no run ever keeps a record of 60 seconds behind a cleanup exactly if c is past the epoch. |
| `DnsRedir.Tracker.HandleOutgoing` | src/dnsredir.c:205-222 | The table of records changes, and the call answers, as Step says: only queries between set ports are tracked, and such a query is unless its client has a record. |
| `DnsRedir.Tracker.HandleIncoming` | src/dnsredir.c:224-249 | The table of records changes, and the packet is rewritten, as Step says. |
| `DnsRedir.Tracker.Cleanup` | src/dnsredir.c:171-189 | The hash table loses exactly the records that are too old. |
| `DnsRedir.Tracker.AddConn` | src/dnsredir.c:141-169 | A record is added exactly if both ports are set and the key is new. |
| `DnsRedir.Tracker.Clear` | src/dnsredir.c:251-259 | No record and no cleanup time is left. |
| `ReplStr.Replace` | src/utils/repl_str.c:9-90 | The result is the replaced text, ended by a zero byte in the last cell of a buffer of exactly that size. |
| `ReplStr.FindAll` | src/utils/repl_str.c:32-53 | The cache, which grows as needed, ends with the positions of the leftmost occurrences that do not overlap. |
| `ReplStr.WriteAll` | src/utils/repl_str.c:69-81 | The second pass writes exactly the replaced text. |
| `ReplStr.SplitAndJoin` | src/utils/repl_str.c:32-82 | Joining the pieces by the pattern gives the input back; joining them by the replacement gives the output. |
| `ReplStr.PiecesLeftmost` | src/utils/repl_str.c:33-51 | Each piece ends at the first occurrence behind its start. |
| `ReplStr.NoPatternLeft` | src/utils/repl_str.c:33-51 | A piece with the pattern behind it holds the pattern there only, and the last piece holds none, compared slice by slice. |
| `ReplStr.RetLenExact` | src/utils/repl_str.c:55-60 | The precomputed length, unsigned wrap included, is the length of the result modulo the range of size_t. |

## Left out

- Ip2net.SearchV4: `x & mask` and `x | ~mask` for a contiguous mask are written as clearing and setting the low bits of a number; the byte arrays of the v6 masks are not modelled.
- Ip2net.TightExactly: settings whose 32-bit products wrap (for 3/4 only networks of 31 zero bits) are not judged; that lines partition the input is proved for them too.
- Ip2net.Ip2NetMain: reading the list and printing addresses and ranges are left out; a line is a pair of first address and number of zero bits.
- Qsort.GnuQuicksort: elements are moved as wholes; the byte-wise swap and the byte-wise rotation of the insertion phase are not modelled.
- Uthash.Hash.Add: `hashv & (num_buckets - 1)` is written as a remainder, with the bucket count proved to be a power of two; a bucket count of 2^32, which needs an array of 64 GiB, is not modelled as wrapping.
- Uthash.Hash.ExpandBuckets: the bucket arrays of an expansion are allocated; the rollback after a failed allocation and the Bloom filter are not modelled.
- Uthash.Hash.Find: the hash function is an arbitrary function of the key, and keys are compared as values instead of by length and bytes; the offset between a structure and its handle is not modelled.
- Conntrack.Track.ApplyPos: window size, scale factor, MSS, flow label and packet counters are copied from headers and not modelled; the tests of the TCP flags are given as the kind of the segment.
- Conntrack.Pool.Feed: the pool is a map, since the hash table is modelled by itself; purging idle connections is not modelled.
- Reassembly.Reassemble.Feed: `ReasmResize` is not modelled; nothing calls it.
- Fragment.Handle.SendNativeFragment: the checksums are recalculated by a foreign function after the pieces are complete; what is sent is modelled before that.
- DnsNames.ExtractName: `tolower` is that of the C locale.
- DnsRedir.Tracker.HandleIncoming: the caller's result structure is present; the flushing of the system's DNS cache is not modelled.
- ReplStr.Replace: the pattern is not empty and the result fits into memory; `strstr` is a specified function.
- Checksum.DoCsum: big-endian machines and the pseudo-header sums (`csum_tcpudp_magic`, `csum_ipv6_magic`) are not modelled.
- `kavl_interval`: a search without counting.
- The user interface, the service, the WebView and WinDivert wrappers, sockets, the registry, file reloading, logging and Lua.
- The receive loop of the engine and the desync driver as a whole; host name suffix matching, port filters, fake packet tables and hex parsing.
