# Verified models of the data structures in this repository

Dafny models of the parts of the repository that keep a hard invariant through
pointer, array or protocol steps, with proofs for all inputs and all runs. Each
part is a group of modules:

- **Red-black tree** (`Rb*.dfy`): the kernel-style tree with parent pointers, colours,
  augment callbacks, iterators and a cached leftmost pointer. `RbShape` describes a
  subtree and its context (the tree with a hole) in memory; the stores of every
  case are proved against that, one at a time. Each child pointer is
  stored by `RbLinks.WriteOnce`, after which the child-pointer graph has a ranking
  and so no loop; `RbReaders` bounds the moves of a reader that walks down meanwhile by the number of
  stores in between, and `RbRuns` speaks of whole runs with changing keys.
- **Hash map** (`HashTable.dfy`, `HashMap.dfy`): Robin Hood hashing with backward-shift
  deletion and resizing, as a finite map.
- **List sort** (`ListMerge.dfy`, `ListSort.dfy`): the bottom-up merge sort steered by the
  bits of a counter; stability, the sizes of the pending lists, the balance of merges.
- **Reliable UDP** (`ReliableUdp.dfy`, `UdpRegions.dfy`, `UdpStalls.dfy`, `RingBuffer.dfy`, `Rdt.dfy`): sender, receiver and a
  network that loses, duplicates and reorders, as a state machine; what each locked region does, in lists and bytes; exactly when it comes to a halt;
  the object whose methods do what the steps say.
- **Memory pool** (`PoolChunks.dfy`, `MemoryPool.dfy`): boundary tags, two linked lists, splitting
  and coalescing.
- **Skip list** (`SkipTowers.dfy`, `SkipList.dfy`): towers and levels as a set of integers.
- **Thread pool** (`ThreadPool.dfy`): locked regions of creator, workers and clients as steps that
  interleave in any way, and the object whose methods are those regions.
- **Ini parser** (`Dictionary.dfy`, `IniText.dfy`, `IniFile.dfy`, `IniLines.dfy`, `IniPrinted.dfy`, `IniPlain.dfy`,
  `IniExact.dfy`, `IniParser.dfy`): the dictionary as a map, a printer and a loader, what every form of line
  means, and exactly when printer and loader undo each other.
- **Three-sum and cycle check** (`ThreeSum.dfy`, `CycleCheck.dfy`).
- `Basics.dfy` has what several of them use.

`dafny verify dfyconfig.toml` checks everything.

## How to read the models

- Methods change real fields and arrays, as the C code does. Ghost parameters say where
  in a structure a method works; `Snap` is the memory of a set of nodes as a map, on which the
  lemmas work.
- The C code of the tree writes out left and right branches; here a side `d` stands for both.
- Comparisons, hash functions and random levels are parameters. Keys are whatever the
  comparison sees at the time of the call, so a key change is a call with another comparison.
- Where an allocation may fail and the code goes on, a boolean parameter says so.
- Waiting and retrying (a full send ring, an empty receive ring, a condition variable) are
  separate turns or steps.

## What the proofs found

- Reliable UDP: the packets pushed are a prefix of the packets sent exactly if the first data packet
  to arrive carries the first number (`PrefixIff`, with a run where it does not, `FirstLost`). The
  loop that hands on queued packets ends exactly if the queue holds the following packets and nothing
  else (`HangsExactly`); a duplicate or a gap behind them keeps it spinning (`GapHangs`). The send
  window falls behind exactly when the base is acknowledged, alone outstanding, after later packets
  were (`StepInStep`, `StartInStep`); it never catches up (`StartLags`), and the sender can end up
  stuck for good (`SwappedAcksStick`, `StuckForever`).
- Hash map: a resize sets the growth threshold to 60 percent again, whatever load factor had been
  set (`HashMap.HashMap.Resize`, an instance in `HashMap.LoadFactorLost`), while `hashmap_clear` keeps
  the load factor. A load factor survives a call exactly if the table is not resized or 60 percent
  are as many buckets (`HashMap.HashMap.Set`, `HashMap.HashMap.Delete`).
- Ini parser: the dump prints, for a NULL value, whatever value was printed before it in the same
  section (`IniParser.EscapeValue`), so that value is loaded (`NullRepeats`). A dump gives the
  dictionary back exactly if no pair value is NULL, no section has a value, no pair is without its
  section, and each line can be read: no newline in it (`NewlineLost`), not longer than 1022
  characters, sections lower case without outer blanks, and pair names so, too, non-empty, without an
  equals sign, and not beginning like a comment (`IniExact.DumpLoadsBack`).
  A line that begins and ends with a bracket is a heading, even with an equals sign in between
  (`IniLines.BareLine`), and a last line of one character without newline is dropped (`IniLines.LastLine`).
- List sort: the comment's claim of at worst 2:1 merges holds in the final phase for all input lengths, and
  cmp is always called with the element that came first in the input as its first argument (`ListMerge.Compare`).

## Model

| member | source | states |
|---|---|---|
| RbReaders.ReaderEnds | C/05_rbtree/rbtree.c:48-70 | a reader that walks down while a writer stores, in any interleaving: with W stores in between, each leaving the graph loop free, it makes at most (W+1)*(n-1) moves |
| RbReaders.LoopFreeExactly | C/05_rbtree/rbtree.c:48-60 | the ranking that every store keeps exists if and only if no walk down has more nodes than there are: one that has meets a node twice |
| RbReaders.SnapLoopFree | C/05_rbtree/rbtree.c:48-60 | and the graph of the nodes in memory is loop free exactly if its snapshot, which the reader sees, is |
| RbReaders.ErasedReadable | C/05_rbtree/rbtree.c:48-70 | also a reader that stands on a node being erased ends: that node keeps its child pointers, and while the rest has a ranking after each store, the graph with it has no loop |
| RbShape.AtLinked | C/05_rbtree/rbtree.c:48-70 | a tree in memory is loop free, every child pointer is answered by exactly one parent pointer, and children stay inside the node set |
| RbShape.InorderTurn | C/05_rbtree/rbtree.c:60-70 | a rotation, whatever it recolours, keeps the in-order sequence |
| RbLinks.WriteOnce | C/05_rbtree/rbtree.c:48-60 | the one way a child pointer is stored: the graph is ranked, hence loop free, after this single store; every child store of insertion, erasure, linking and replacement goes through it |
| RbLinks.ChangeChild | C/05_rbtree/rbtree_augmented.h:168-179 | the slot that pointed to the old node, in its parent or in the root, points to the new one, no other slot changes, and the graph stays ranked |
| RbLinks.RotateSetParents | C/05_rbtree/rbtree.c:87-95 | the new node takes over parent and colour, the old one hangs below it in the given colour, the slot above follows, and the graph stays ranked |
| RbLinks.TurnStores | C/05_rbtree/rbtree.c:189-190 | the two child stores of a rotation: both intermediate graphs are loop free, and in between nothing points to the rising node |
| RbRotate.RotateAll | C/05_rbtree/rbtree.c:179-195 | one rotation, all its stores and the augment callback: the tree with the rotated shape in the same context, same in-order sequence, all maxima right |
| RbRotate.RotateTwice | C/05_rbtree/rbtree.c:152-195 | both rotations of a double rotation end in the doubly rotated tree with all maxima right, although the first leaves an outdated parent link |
| RbColor.RbPlug | C/05_rbtree/rbtree.c:28-46 | a valid subtree of the expected black height in a valid context makes a valid tree with a black root |
| RbColor.RbUnplug | C/05_rbtree/rbtree.c:28-46 | and wherever a valid tree is taken apart, subtree and context are valid |
| RbColor.HeightBound | C/05_rbtree/rbtree.c:28-46 | rules 4 and 5 bound the height: 2 to the height is at most (n+1) squared, that is height <= 2*log2(n+1) |
| RbAugment.MaxOfIsMax | C/05_rbtree/rbtree_augmented.h:107-119 | the value defined for a subtree is an upper bound over all its nodes and is attained by one of them |
| RbAugment.ComputeMax | C/05_rbtree/rbtree_augmented.h:121-140 | the field becomes the maximum of the node's scalar and its children's fields; true is returned exactly if exit was asked for and the field did not change |
| RbErase.CopyAug | C/05_rbtree/rbtree_augmented.h:86-92 | the successor that takes the removed node's value makes the nodes above right again, and only its old place's path is left to propagate |
| RbAugment.RotateAt | C/05_rbtree/rbtree_augmented.h:93-100 | called once the new node is above the old one, the rotate callback makes every maximum in the whole tree right again |
| RbAugment.Propagate | C/05_rbtree/rbtree_augmented.h:76-85 | when the subtree is right and the nodes above are right for the value the lowest one still stores, then afterwards all are right up to stop, although the loop leaves at the first unchanged value; only nodes on the path change |
| RbInsert.Case1 | C/05_rbtree/rbtree.c:128-150 | recolouring parent, uncle and grandparent changes exactly these three colours and no maximum |
| RbInsert.Inner | C/05_rbtree/rbtree.c:153-195 | cases 2 and 3 together: the inner grandchild ends up on top, parent and grandparent below it |
| RbInsert.Finish | C/05_rbtree/rbtree.c:152-195 | from a red parent and a black uncle one or two rotations make the subtree valid, with a black root of the same black height |
| RbInsert.Turn | C/05_rbtree/rbtree.c:99-231 | the loop invariant the source states: node is red and the only place where a rule may be broken; one turn moves it two levels up or ends with a valid tree |
| RbInsert.BlackenRoot | C/05_rbtree/rbtree.c:105-114 | a red root is painted black and the tree is valid |
| RbInsert.Insert | C/05_rbtree/rbtree.c:97-233 | from a valid tree with a new red leaf, its path pre-updated: a valid red-black tree, same in-order sequence, parent links and maxima right |
| RbEraseColor.Case1 | C/05_rbtree/rbtree.c:255-273 | a red sibling is rotated up; the shortage stays where it was and the new sibling is black |
| RbEraseColor.Case2 | C/05_rbtree/rbtree.c:274-304 | the sibling turns red; either the red parent turns black and the tree is repaired, or the shortage moves one level up |
| RbEraseColor.Case3 | C/05_rbtree/rbtree.c:305-364 | the sibling's red near child goes up over both; the tree is repaired |
| RbEraseColor.Case4 | C/05_rbtree/rbtree.c:343-364 | the sibling goes up over the parent and its red far child turns black; the tree is repaired |
| RbEraseColor.Level | C/05_rbtree/rbtree.c:239-420 | one turn of the loop: the stated invariant, that exactly the paths through node lack one black node, is re-established one level up, or the tree is repaired |
| RbEraseColor.EraseColor | C/05_rbtree/rbtree.c:239-420 | a slot that lacks a black node becomes a valid red-black tree with the same in-order sequence and right maxima |
| RbErase.EraseOne | C/05_rbtree/rbtree_augmented.h:208-231 | a node with at most one child is spliced out, its child takes place and colour, the maxima above are right |
| RbErase.FindSuccessor | C/05_rbtree/rbtree_augmented.h:265-270 | the loop finds the leftmost node below the right child and its parent |
| RbErase.Detach | C/05_rbtree/rbtree_augmented.h:271-273 | the first three stores of case 3: at each the graph is loop free, and afterwards the successor may be linked in anywhere above its new child |
| RbErase.EraseSucc | C/05_rbtree/rbtree_augmented.h:232-297 | a node with two children is replaced by its successor: exactly it is gone from the sequence, and either the tree is valid or the returned node's empty slot lacks a black node |
| RbErase.EraseAugmented | C/05_rbtree/rbtree_augmented.h:199-299 | all three cases: the sequence without node, right maxima, and a valid tree unless rebalancing is asked for at the returned node |
| RbErase.Erase | C/05_rbtree/rbtree.c:453-459 | erasing and rebalancing: a valid red-black tree whose in-order sequence has lost exactly node, whose own links stay as they are |
| RbWalk.First | C/05_rbtree/rbtree.c:479-504 | the first or last node of the in-order sequence, null for an empty tree |
| RbWalk.Next | C/05_rbtree/rbtree.c:507-568 | rb_next and rb_prev: the following or preceding element of the in-order sequence, null at its end |
| RbWalk.ForEach | C/05_rbtree/rbtree_ka.h:39-43 | the in-order loop visits the whole sequence, each node once |
| RbWalk.LeftDeepest | C/05_rbtree/rbtree.c:611-623 | a leaf below the node, which comes first in post-order |
| RbWalk.NextPostorder | C/05_rbtree/rbtree.c:625-642 | one more element of the post-order sequence, null exactly behind the root |
| RbWalk.ForEachPostorder | C/05_rbtree/rbtree.h:95-115 | the post-order loop visits the whole post-order sequence |
| RbWalk.PostorderNodes | C/05_rbtree/rbtree.h:95-115 | post-order lists the same nodes as in-order, each as often |
| RbWalk.KidsFirst | C/05_rbtree/rbtree.h:95-115 | in post-order every node comes behind all nodes below it, wherever it stands in the tree |
| RbWalk.Locate | C/05_rbtree/rbtree.c:506-568 | every node stands in the tree at its index of the in-order sequence, with what is before and behind it around it |
| RbTree.Shallow | C/05_rbtree/rbtree.c:28-70 | every valid tree is at most 2*log2(n+1) high and loop free |
| RbTree.Enter | C/05_rbtree/rbtree.c:28-46 | any valid tree in memory meets the start condition of the operations |
| RbTree.Leave | C/05_rbtree/rbtree.c:28-46 | what the operations end with is again a valid tree in memory |
| RbTree.Find | C/05_rbtree/rbtree.h:266-284 | a node that matches the key, or null exactly if no node matches |
| RbTree.FindFirst | C/05_rbtree/rbtree.h:294-314 | everything before index k is smaller than the key and nothing from k on is: the result is the node at k if it matches, otherwise null |
| RbTree.NextMatch | C/05_rbtree/rbtree.h:324-332 | the in-order successor if it matches too, otherwise null |
| RbTree.ForEachMatch | C/05_rbtree/rbtree.h:341-343 | the loop visits exactly the nodes equal to the key, in order |
| RbCached.InsertedGains | C/05_rbtree/rbtree.h:205-222 | the sequence after rb_add has exactly one node more |
| RbCached.InsertedSorted | C/05_rbtree/rbtree.h:205-222 | for a strict weak order it stays sorted, the new node behind all nodes that are not greater |
| RbCached.FindSlot | C/05_rbtree/rbtree.h:205-222 | the descent ends at the empty slot that belongs to that place, and leftmost says whether nothing is before it |
| RbCached.LinkAndColor | C/05_rbtree/rbtree.h:62-71 | linking into a slot and rebalancing: a valid tree with the node at the slot's place in the sequence |
| RbCached.FindAdd | C/05_rbtree/rbtree.h:233-256 | a match is returned and nothing changed, or there was none and the node stands between the smaller and the greater nodes of a valid tree |
| RbCached.ReplaceNode | C/05_rbtree/rbtree.c:570-585 | the new node has exactly the victim's place, children and colour; no child store makes a loop |
| RbCached.ReplaceIn | C/05_rbtree/rbtree.c:570-585 | a valid tree whose sequence has the new node where it had the victim |
| RbCached.EraseFrom | C/05_rbtree/rbtree.c:453-459 | for any valid tree and any of its nodes: valid afterwards, sequence and node set without it, maxima right |
| RbCached.AddTo | C/05_rbtree/rbtree.h:205-222 | for any valid sorted tree: valid and sorted afterwards, and the flag tells whether the node became the first |
| RbCached.CachedTree.First | C/05_rbtree/rbtree.h:116-117 | the cached pointer is the first node of the sequence |
| RbCached.CachedTree.Add | C/05_rbtree/rbtree.h:175-197 | rb_leftmost still is rb_first, the sequence gained the node in its place, and the node is returned exactly if it is leftmost |
| RbCached.CachedTree.Erase | C/05_rbtree/rbtree.h:128-140 | rb_leftmost still is rb_first of the sequence without the node, and the new leftmost is returned if it changed |
| RbCached.EraseSorted | C/05_rbtree/rbtree.h:128-140 | what was sorted is sorted without the node, so that rb_add_cached may follow |
| RbCached.CachedTree.Replace | C/05_rbtree/rbtree.h:142-149 | rb_leftmost follows when the leftmost node is replaced |
| RbCached.CachedTree.Move | C/05_rbtree/rbtree_ka.h:87-106 | after a key change: if the sequence is still in order it stays as it is, otherwise the node stands where rb_add puts it among the others; same nodes, sorted, and rb_leftmost is rb_first |
| RbRuns.Run | C/05_rbtree/rbtree_ka.h:87-106 | any run of additions, erasures and key changes: a valid tree in the order of the keys of the moment, its sequence what the steps say, and rb_leftmost a node with the smallest key, null exactly for an empty tree |
| RbRuns.RunLeaves | C/05_rbtree/rbtree_ka.h:87-106 | what the steps leave: a node is there exactly if it was added and not erased since, with the key it was given last |
| RbRuns.Perform | C/05_rbtree/rbtree_ka.h:87-106 | one addition, erasure or key change on the tree; a key change that leaves the sequence in the order of the new keys leaves the tree as it is |
| RbCached.InPlace | C/05_rbtree/rbtree_ka.h:90-103 | a node that is not less than its predecessor nor greater than its successor is in place among all others |
| HashTable.MaskIsMod | C/02_hash/02_hashmap/hashmap.c:383 | for a power of two the mask is the remainder |
| HashTable.HomeIsMod | C/02_hash/02_hashmap/hashmap.c:443-444 | so the home bucket is the hash modulo the number of buckets, for every number of buckets that occurs |
| HashTable.EmptyBucket | C/02_hash/02_hashmap/hashmap.c:369-374 | fewer items than buckets leave an empty one, at which each probe loop ends |
| HashTable.Arc | C/02_hash/02_hashmap/hashmap.c:445-457 | between an item's home and the item every bucket is taken, with a dib that falls by at most one per step |
| HashTable.OnTheWay | C/02_hash/02_hashmap/hashmap.c:393-411 | on the way to a stored key no bucket has a smaller dib than the probe, so the key is found before any swap and never stored twice |
| HashTable.NoGap | C/02_hash/02_hashmap/hashmap.c:445-457 | no empty bucket lies between an item's home and the item, so a lookup may stop at one |
| HashTable.WhereStored | C/02_hash/02_hashmap/hashmap.c:377-414 | a stored item is dib - 1 buckets behind the one that the lower 48 bits of its hash pick, around the end |
| HashTable.PutDown | C/02_hash/02_hashmap/hashmap.c:386-391 | the carried entry in an empty bucket completes a Robin Hood table for the map with it |
| HashTable.StepOver | C/02_hash/02_hashmap/hashmap.c:412-414 | walking on keeps what is known of the entry in hand and comes nearer to an empty bucket |
| HashTable.SwapOver | C/02_hash/02_hashmap/hashmap.c:406-414 | taking the bucket of a nearer item keeps the table, now with that item in hand |
| HashTable.Overwrite | C/02_hash/02_hashmap/hashmap.c:393-400 | replacing a value changes the map at that key only |
| HashTable.Vacate | C/02_hash/02_hashmap/hashmap.c:497-500 | taking an item out leaves a hole behind which only the next bucket may break the rule |
| HashTable.ShiftBack | C/02_hash/02_hashmap/hashmap.c:501-512 | the item behind the hole moves in, one step nearer to its home, and the hole moves on |
| HashTable.CloseHole | C/02_hash/02_hashmap/hashmap.c:505-508 | at an empty bucket or an item at home the hole closes: a Robin Hood table for the smaller map |
| HashTable.CountIsSize | C/02_hash/02_hashmap/hashmap.c:547-550 | the number of occupied buckets is the size of the map |
| HashTable.HoldsOne | C/02_hash/02_hashmap/hashmap.c:440-458 | a table stands for one map only |
| HashTable.RoundedIsFixed | C/02_hash/02_hashmap/hashmap.c:173-182 | rounding up leaves a power of two from 16 on alone, so that a resize gets the number of buckets it asks for |
| HashMap.RoundUp | C/02_hash/02_hashmap/hashmap.c:173-182 | the least power of two from 16 on that is not below the wanted capacity |
| HashMap.Reinsert | C/02_hash/02_hashmap/hashmap.c:315-339 | the inner loop of resize0 puts an entry into the new table, which stands for the map with it |
| HashMap.Shift | C/02_hash/02_hashmap/hashmap.c:501-512 | the backward shift ends with a Robin Hood table for the map without the deleted key |
| HashMap.NewHashMap | C/02_hash/02_hashmap/hashmap.c:160-225 | NULL exactly when an allocation fails; otherwise a valid empty map with the least number of buckets that is enough |
| HashMap.LoadFactorLost | C/02_hash/02_hashmap/hashmap.c:302-349 | an instance: with 95 percent set, 16 buckets take 15 items; the table that then grows to 32 takes 19, not 30 |
| HashMap.PercentDiffers | C/02_hash/02_hashmap/hashmap.c:344-347 | from 100 buckets on different percentages are different numbers, so there a resize loses every load factor but 60 |
| HashMap.HashMap.SetGrowByPower | C/02_hash/02_hashmap/hashmap.c:103-106 | the power clamped to 1..16 |
| HashMap.HashMap.SetLoadFactor | C/02_hash/02_hashmap/hashmap.c:108-125 | the factor clamped to 50..95 percent and cut to whole percent, what is not a number leaves it as it is; growat is that percentage of the buckets, below their number |
| HashMap.HashMap.Count | C/02_hash/02_hashmap/hashmap.c:547-550 | the size of the map |
| HashMap.HashMap.MoveAll | C/02_hash/02_hashmap/hashmap.c:309-340 | all items reach the new table: same map, same count |
| HashMap.HashMap.Resize | C/02_hash/02_hashmap/hashmap.c:302-349 | growing or shrinking keeps the map, the count and the invariant, whatever the new size; growat is 60 percent of it; a failed allocation changes nothing |
| HashMap.HashMap.Probe | C/02_hash/02_hashmap/hashmap.c:445-457 | found exactly if the key is stored, and then at its bucket; the loop ends |
| HashMap.HashMap.Get | C/02_hash/02_hashmap/hashmap.c:440-458 | the stored item, none exactly if the key is not stored |
| HashMap.HashMap.Set | C/02_hash/02_hashmap/hashmap.c:364-416 | the map with the item, and the replaced item returned; the table grows exactly when the count has reached growat; exactly when that fails is oom set and nothing else changed; the load factor goes on governing growat if and only if the table does not grow or 60 percent of it are as many buckets |
| HashMap.HashMap.Store | C/02_hash/02_hashmap/hashmap.c:376-415 | the probe loop with its swaps: the map with the item, the replaced item returned |
| HashMap.HashMap.Remove | C/02_hash/02_hashmap/hashmap.c:499-513 | the map without the item's key |
| HashMap.HashMap.Delete | C/02_hash/02_hashmap/hashmap.c:484-526 | the map without the key, the deleted item returned; the table is halved exactly if a key was deleted, the table is above its minimum, ten times the items left are at most the number of buckets, and memory is there; the load factor goes on governing growat if and only if it is not halved or 60 percent are as many buckets |
| HashMap.HashMap.Clear | C/02_hash/02_hashmap/hashmap.c:281-300 | an empty map; growat follows the load factor |
| HashMap.HashMap.Scan | C/02_hash/02_hashmap/hashmap.c:574-584 | false exactly when the iterator stopped, at the last item it was given; otherwise every stored item was given once |
| ListMerge.MergeElements | C/07_listhead/list_head.c:33-61 | the merged list has exactly the elements of both |
| ListMerge.MergeStable | C/07_listhead/list_head.c:41-42 | merging stable sorts of two adjacent input ranges, the older first, gives a stable sort of both; on equality the older goes first |
| ListMerge.Compare | C/07_listhead/list_head.c:130-132 | the one place where cmp is called, by merge and merge_final: only with the element that came first in the input as a |
| ListMerge.Merge | C/07_listhead/list_head.c:33-61 | the nodes of both lists linked in merge order, null-terminated, no other link changed |
| ListMerge.MergeFinal | C/07_listhead/list_head.c:70-119 | the merged list as a circular doubly linked ring behind head, all prev links right |
| ListSort.RoundSizes | C/07_listhead/list_head.c:159-197 | one round takes the pending sizes from those the counter's bits determine to those before the next element |
| ListSort.NextSizes | C/07_listhead/list_head.c:175-190 | after each round the bits of count again determine how many lists of each size are pending |
| ListSort.RoundReady | C/07_listhead/list_head.c:226-229 | a round merges only two lists of equal size, and both are there when it needs them |
| ListSort.FinalBalanced | C/07_listhead/list_head.c:198-202 | from any state of the counter all final merges are between half and less than twice the pending size |
| ListSort.SortBalanced | C/07_listhead/list_head.c:198-202 | so for every input of at least two elements |
| ListSort.FindTail | C/07_listhead/list_head.c:239-241 | skipping a list per trailing 1 bit ends at the two lists that the round merges |
| ListSort.Round | C/07_listhead/list_head.c:235-250 | one round as stores: the two runs are merged and installed in place, all other pending lists unchanged |
| ListSort.Pend | C/07_listhead/list_head.c:235-258 | the main loop: pending runs that are stable sorts of adjacent input ranges, newest first, of the sizes the count determines |
| ListSort.FinalMerge | C/07_listhead/list_head.c:260-270 | a final merge is called only when the pending list is at most twice as long as the accumulated one and the accumulated one less than twice as long as the pending one |
| ListSort.Collect | C/07_listhead/list_head.c:260-271 | the final phase leaves two runs that cover the input |
| ListSort.ListSort | C/07_listhead/list_head.c:204-273 | the ring behind head holds the sorted, stable permutation of its input, linked both ways |
| RingBuffer.Ringbuffer.DataSize | Warehouse/C/C-protocol/udp/ring_buffer.c:26-33 | the number of unread bytes, also after the write position has wrapped |
| RingBuffer.Ringbuffer.FreeSize | Warehouse/C/C-protocol/udp/ring_buffer.c:35-38 | the room left, one cell staying free |
| RingBuffer.Ringbuffer.IsFull | Warehouse/C/C-protocol/udp/ring_buffer.c:40-43 | full exactly if no room is left |
| RingBuffer.Ringbuffer.IsEmpty | Warehouse/C/C-protocol/udp/ring_buffer.c:45-48 | empty exactly if nothing is unread |
| RingBuffer.Ringbuffer.Write | Warehouse/C/C-protocol/udp/ring_buffer.c:50-79 | as much as fits is appended to the unread bytes, across the end of the buffer |
| RingBuffer.Ringbuffer.Read | Warehouse/C/C-protocol/udp/ring_buffer.c:81-108 | the oldest bytes leave, in order, and the others stay |
| ReliableUdp.AckWindow | Warehouse/C/C-protocol/udp/protocol.c:483-527 | an acknowledgement keeps: base <= every unacknowledged number, base at most one past the last one sent, everything below acknowledged |
| ReliableUdp.DrainKeeps | Warehouse/C/C-protocol/udp/protocol.c:577-595 | handing on queued packets keeps the consecutive order, and an emptied queue has been handed on completely |
| ReliableUdp.StepKeeps | Warehouse/C/C-protocol/udp/protocol.c:125-236 | every step of sender, network and receiver keeps the invariant |
| ReliableUdp.RunKeeps | Warehouse/C/C-protocol/udp/protocol.c:462-622 | so it holds in every run over a network that loses, duplicates and reorders |
| ReliableUdp.PushedInOrder | Warehouse/C/C-protocol/udp/protocol.c:555-605 | the packets pushed to the user have consecutive numbers, each once, and are the ones the sender made |
| ReliableUdp.NothingTooNew | Warehouse/C/C-protocol/udp/protocol.c:565-570 | no packet that arrives is beyond the receive window, and whatever was acknowledged is below it or queued; whichever packet came first |
| ReliableUdp.PrefixIff | Warehouse/C/C-protocol/udp/protocol.c:555-563 | the packets pushed are a prefix of those made if and only if the first data packet to arrive carries the first number |
| ReliableUdp.FirstPushed | Warehouse/C/C-protocol/udp/protocol.c:555-563 | in every run the first packet pushed is the first data packet to arrive |
| ReliableUdp.BytesPrefix | Warehouse/C/C-protocol/udp/protocol.c:624-639 | then, while the ring has not overflowed, the bytes read are a prefix of the bytes written |
| ReliableUdp.NothingLost | Warehouse/C/C-protocol/udp/protocol.c:541-605 | and every acknowledged packet is pushed or queued |
| ReliableUdp.DrainEnds | Warehouse/C/C-protocol/udp/protocol.c:579-595 | the hand-on loop ends if and only if the queue holds exactly the following packets, each once |
| ReliableUdp.HangsExactly | Warehouse/C/C-protocol/udp/protocol.c:579-595 | read off the queue: it spins if and only if the expected packet arrives and the queue is not the consecutive packets behind it |
| UdpRegions.PackTakes | Warehouse/C/C-protocol/udp/protocol.c:133-148 | a packet is made only while the buffer has bytes and the current number is below base plus window; it carries that number and the first min(mtu, all) bytes |
| UdpRegions.FlushMakes | Warehouse/C/C-protocol/udp/protocol.c:124-163 | the packets that flush_buffer makes: consecutive numbers, their data and what is left are the old buffer, each full but the one that empties it; afterwards the buffer is empty or the window full |
| UdpRegions.FlushIsRun | Warehouse/C/C-protocol/udp/protocol.c:124-163 | in the state machine it is a run of single packings |
| UdpRegions.FlushInv | Warehouse/C/C-protocol/udp/protocol.c:124-163 | which keeps the invariant |
| UdpRegions.AllSent | Warehouse/C/C-protocol/udp/protocol.c:170-212 | after flush_queue the queue is empty, what was in it is under way in the same order, and every number in it awaits its acknowledgement |
| UdpRegions.ReverseAt | Warehouse/C/C-protocol/udp/protocol.c:170-212 | the order in which the queue goes out: its last packet first |
| UdpRegions.SendIsRun | Warehouse/C/C-protocol/udp/protocol.c:170-212 | in the state machine it is a run of single sendings, which puts exactly these packets into the network |
| UdpRegions.AckTakes | Warehouse/C/C-protocol/udp/protocol.c:483-527 | an acknowledgement that is awaited takes exactly its number out of the list and one packet out of flight, and moves the base only if it is for the base: to the next number awaited, or one on if it was the only one; any other changes nothing |
| UdpRegions.PushRoom | Warehouse/C/C-protocol/udp/protocol.c:624-639 | a packet that fits is stored as a whole, otherwise as much as there is room for; overflow is noted exactly then |
| UdpRegions.DrainTakes | Warehouse/C/C-protocol/udp/protocol.c:577-595 | the hand-on loop takes exactly the packets at the front of the queue that follow each other from the expected number on |
| UdpRegions.DataCases | Warehouse/C/C-protocol/udp/protocol.c:541-605 | the four cases of an arriving packet: the first of all, an old or too new one, the expected one with its followers, a later one within the window |
| UdpRegions.RingFits | Warehouse/C/C-protocol/udp/protocol.c:624-639 | in every run the receive ring holds at most what it has room for |
| UdpRegions.NoOverflow | Warehouse/C/C-protocol/udp/protocol.c:624-639 | in a run from the start nothing is cut off while all bytes pushed would fit the ring |
| UdpStalls.GapHangs | Warehouse/C/C-protocol/udp/protocol.c:577-595 | a run from the start in which packets 5, 8, 6 arrive: behind the handed-on 6 the queued 8 leaves a gap and the loop never ends |
| UdpStalls.FirstLost | Warehouse/C/C-protocol/udp/protocol.c:555-570 | a run from the start in which the second packet arrives first: the first is acknowledged and dropped, and the bytes read are no prefix |
| UdpStalls.AckInStep | Warehouse/C/C-protocol/udp/protocol.c:501-520 | the base stays at the first number not acknowledged if and only if the acknowledgement is not the one for the base, the only one outstanding, with later numbers already sent |
| UdpStalls.StepInStep | Warehouse/C/C-protocol/udp/protocol.c:125-236 | of all steps exactly such an acknowledgement lets the base fall behind |
| UdpStalls.InStepForever | Warehouse/C/C-protocol/udp/protocol.c:462-536 | so a run keeps the window moving if and only if it has no such acknowledgement |
| UdpStalls.StartInStep | Warehouse/C/C-protocol/udp/protocol.c:462-536 | for runs from the start: the base is right at the end if and only if there was none, and behind otherwise |
| UdpStalls.StartLags | Warehouse/C/C-protocol/udp/protocol.c:501-520 | and after the first one the base stands still, at most a window of packets is made and the sender takes only so many steps |
| UdpStalls.BehindIsLagging | Warehouse/C/C-protocol/udp/protocol.c:501-520 | the base is behind exactly if it is a number sent and no longer awaited |
| UdpStalls.LagsForever | Warehouse/C/C-protocol/udp/protocol.c:501-520 | from then on no run moves the base again, at most a window of packets is still made, and the sender's steps are used up |
| UdpStalls.AtRest | Warehouse/C/C-protocol/udp/protocol.c:125-163 | with data to send and nothing under way, a sender whose base is right can go on, and one that cannot is stuck with its base behind |
| UdpStalls.SwappedAcksStick | Warehouse/C/C-protocol/udp/protocol.c:501-520 | a run from the start in which two acknowledgements in swapped order end with the sender stuck |
| UdpStalls.StuckForever | Warehouse/C/C-protocol/udp/protocol.c:133-148 | from there no step ever lets the sender send again |
| ReliableUdp.SeqInserted | Warehouse/C/C-protocol/udp/protocol.c:215-236 | inserting a new number keeps an ascending list ascending |
| ReliableUdp.QueueOrdered | Warehouse/C/C-protocol/udp/protocol.c:541-605 | in every run the receive queue is in the order of its numbers |
| Rdt.InsertSeqInto | Warehouse/C/C-protocol/udp/protocol.c:215-236 | the loop that inserts a number: the list of the state machine, ascending if it was and the number is new |
| Rdt.InsertPacketInto | Warehouse/C/C-protocol/udp/protocol.c:215-236 | the same loop on the receive queue, which stays in order |
| Rdt.Rdt.constructor | Warehouse/C/C-protocol/udp/protocol.c:43-98 | the object starts in the state machine's initial state |
| Rdt.Rdt.FlushBuffer | Warehouse/C/C-protocol/udp/protocol.c:124-163 | the object does what the function of FlushMakes says, the receiver's half unchanged |
| Rdt.Rdt.FlushQueue | Warehouse/C/C-protocol/udp/protocol.c:170-212 | all queued packets go out, oldest first, and the sender is as AllSent says |
| Rdt.Rdt.OnAck | Warehouse/C/C-protocol/udp/protocol.c:483-536 | the acknowledgement branch, as AckTakes says |
| Rdt.Rdt.PushToRecvBuff | Warehouse/C/C-protocol/udp/protocol.c:624-639 | as many bytes as are free, from the front of the packet, are appended to the unread ones; overflow is noted exactly if that is not all of them |
| Rdt.Rdt.DrainQueue | Warehouse/C/C-protocol/udp/protocol.c:577-595 | the hand-on loop, where it ends, as DrainTakes says |
| Rdt.Rdt.OnData | Warehouse/C/C-protocol/udp/protocol.c:541-610 | the data branch, as DataCases says, and the acknowledgement that is sent |
| Rdt.Rdt.Send | Warehouse/C/C-protocol/udp/protocol.c:399-418 | one turn of the wait: the data is appended as a whole exactly if there is room, otherwise flush_buffer is called; data as long as the ring never goes in |
| Rdt.Rdt.Recv | Warehouse/C/C-protocol/udp/protocol.c:421-437 | the oldest received bytes are handed over, as many as asked for if there are so many |
| PoolChunks.InsertLinked | C/06_mempool/01_mempool/memorypool.c:30-36 | the front insertion gives a doubly linked list with the chunk in front, no chunk twice, sizes and flags untouched |
| PoolChunks.DeleteLinked | C/06_mempool/01_mempool/memorypool.c:38-47 | the deletion links the neighbours of the chunk, wherever it stood |
| PoolChunks.ReplaceLinked | C/06_mempool/01_mempool/memorypool.c:215-221 | the split puts the second part in the first part's place in the free list |
| PoolChunks.TilesDiffer | C/06_mempool/01_mempool/memorypool.c:178-249 | chunks never overlap |
| PoolChunks.GapsOnly | C/06_mempool/01_mempool/memorypool.c:121-141 | two tilings without adjacent free chunks and with the same allocated chunks are equal: the free chunks are exactly the gaps |
| PoolChunks.AllFree | C/06_mempool/01_mempool/memorypool.c:121-141 | with nothing allocated the block is one free chunk of full size |
| MemoryPool.TakenOk | C/06_mempool/01_mempool/memorypool.c:203-239 | taking or splitting a free chunk makes no two free neighbours and adds exactly its bytes to both counters |
| MemoryPool.MemoryPool.constructor | C/06_mempool/01_mempool/memorypool.c:143-176 | one free chunk of full size, both lists and counters right |
| MemoryPool.MemoryPool.Clear | C/06_mempool/01_mempool/memorypool.c:296-310 | the same from any state |
| MemoryPool.MemoryPool.FindFree | C/06_mempool/01_mempool/memorypool.c:197-201 | the first chunk of the free list that is large enough; null exactly if none is |
| MemoryPool.MemoryPool.Split | C/06_mempool/01_mempool/memorypool.c:202-228 | the chunk becomes an allocated and a free one, footers and free list right |
| MemoryPool.MemoryPool.TakeWhole | C/06_mempool/01_mempool/memorypool.c:229-234 | the chunk leaves the free list and changes its flag |
| MemoryPool.MemoryPool.Alloc | C/06_mempool/01_mempool/memorypool.c:178-274 | null exactly if the request is not positive or no free chunk is large enough; otherwise the first chunk of the free list that is large enough is taken whole, or in part if more than a header and a footer is left, which then has its place in the free list; all other chunks untouched; tiling, lists, no free neighbours and counters kept |
| MemoryPool.MemoryPool.Release | C/06_mempool/01_mempool/memorypool.c:284-288 | the chunk moves from the allocated list to the front of the free list |
| MemoryPool.MemoryPool.FindLeft | C/06_mempool/01_mempool/memorypool.c:121-127 | following footers to the left reaches the first chunk of the free run |
| MemoryPool.MemoryPool.Absorb | C/06_mempool/01_mempool/memorypool.c:130-134 | a free chunk on the right is joined to the run |
| MemoryPool.MemoryPool.MergeFreeChunk | C/06_mempool/01_mempool/memorypool.c:121-141 | afterwards no two free chunks are adjacent, the allocated chunks and both byte sums are what they were, and the free list has lost the chunks that were joined to one on their left, the others in their order |
| MemoryPool.MemoryPool.Free | C/06_mempool/01_mempool/memorypool.c:276-294 | exactly that chunk is no longer allocated, its neighbours are joined; the free list is the chunk and the old list, without what is no longer the start of a free chunk; everything the pool promises is kept |
| SkipTowers.SkipNode.constructor | C/99_demo/12_skip_list/test_main.c:51-69 | a node of the given height with null links |
| SkipTowers.LevelLinked | C/99_demo/12_skip_list/test_main.c:135-139 | the two stores on one level link the new tower in: the level links exactly the towers that reach it |
| SkipTowers.LevelUnlinked | C/99_demo/12_skip_list/test_main.c:175 | the one store on one level takes the tower out |
| SkipTowers.LevelPassed | C/99_demo/12_skip_list/test_main.c:169-173 | a tower that does not reach a level makes no difference to it |
| SkipTowers.PredLink | C/99_demo/12_skip_list/test_main.c:169-173 | the last smaller tower on a level links to the deleted one exactly on the levels that one reaches, so the loop may break at the first other level |
| SkipList.LinkStep | C/99_demo/12_skip_list/test_main.c:136-139 | one turn of the linking loop: the levels below have the new tower, the others do not yet, nothing else changes |
| SkipList.UnlinkStep | C/99_demo/12_skip_list/test_main.c:168-176 | one turn of the unlinking loop |
| SkipList.LaneOrdered | C/99_demo/12_skip_list/test_main.c:102-140 | every level is strictly sorted and has exactly the towers that reach it |
| SkipList.LaneBelow | C/99_demo/12_skip_list/test_main.c:102-140 | every level is a subsequence of the level below, so towers are contiguous from the bottom |
| SkipList.SkipList.constructor | C/99_demo/12_skip_list/test_main.c:74-81 | an empty list of level 1 |
| SkipList.SkipList.Descend | C/99_demo/12_skip_list/test_main.c:107-114 | on every level the last node with a smaller key, or the header; the loops end |
| SkipList.SkipList.Search | C/99_demo/12_skip_list/test_main.c:198-215 | a node with the key, or null exactly if the set does not have it |
| SkipList.SkipList.Insert | C/99_demo/12_skip_list/test_main.c:102-140 | the set with the key, unchanged list if it was there, otherwise one tower of the drawn height in its place; every level right and level the lowest that covers all towers |
| SkipList.SkipList.DeleteNode | C/99_demo/12_skip_list/test_main.c:148-190 | 1 exactly if the key was there; the set without it, all other towers as they were, every level right and level lowered |
| SkipList.SkipList.LowerLevel | C/99_demo/12_skip_list/test_main.c:182-187 | level becomes the height of the highest tower, at least 1 |
| SkipList.SkipList.Shown | C/99_demo/12_skip_list/test_main.c:224-232 | printing a level shows exactly the towers that reach it, in order |
| ThreadPool.TakesFirst | C/01_thread_pool/thread_pool.c:62-66 | a worker takes the oldest queued task |
| ThreadPool.PutsLast | C/01_thread_pool/thread_pool.c:91-108 | accepted exactly if there is a function, room and no shutdown; what is accepted becomes the youngest and no queued one is overwritten |
| ThreadPool.StepKeeps | C/01_thread_pool/thread_pool.c:36-122 | every step of creator, workers and clients keeps the invariant |
| ThreadPool.RunKeeps | C/01_thread_pool/thread_pool.c:36-233 | so it holds in every interleaving |
| ThreadPool.TakenInOrder | C/01_thread_pool/thread_pool.c:62-71 | accepted tasks are taken first in first out, each once, and each taken task is executed once or in hand |
| ThreadPool.NeverAllAsleep | C/01_thread_pool/thread_pool.c:45-52 | while a worker sleeps there are at least as many workers on their way to the lock as queued tasks; with a task queued, living workers are never all in the wait |
| ThreadPool.StartedIsLiving | C/01_thread_pool/thread_pool.c:74-76 | started counts the living workers although it is incremented outside the lock |
| ThreadPool.GracefulDrains | C/01_thread_pool/thread_pool.c:54-60 | without an immediate shutdown all accepted tasks are taken before the first worker leaves and executed before the last one has left |
| ThreadPool.ImmediateStops | C/01_thread_pool/thread_pool.c:57-60 | while the shutdown is immediate nothing more is taken or accepted in any run, whatever is queued |
| ThreadPool.EndsSoon | C/01_thread_pool/thread_pool.c:212-233 | after a shutdown the workers take only so many more steps, whatever the clients do, and nothing more is accepted |
| ThreadPool.NobodyStuck | C/01_thread_pool/thread_pool.c:228-230 | and a worker that has not left can always take its next step, so the joins return |
| ThreadPool.Threadpool.WorkerRegion | C/01_thread_pool/thread_pool.c:44-79 | the worker's locked region: it sleeps exactly if nothing is queued and there is no shutdown, leaves exactly on an immediate shutdown or a graceful one with nothing queued, and otherwise takes the oldest task; as the state machine says |
| ThreadPool.Threadpool.Add | C/01_thread_pool/thread_pool.c:82-122 | threadpool_add with its results: no function, queue full or shutdown change nothing, otherwise the task is stored at the tail |
| ThreadPool.Threadpool.Destroy | C/01_thread_pool/thread_pool.c:212-226 | the shutdown mode is set once; a second call changes nothing |
| ThreadPool.NewPool | C/01_thread_pool/thread_pool.c:124-148 | null exactly for sizes out of range, otherwise an empty pool in the state machine's initial state |
| Dictionary.Replaced | C/04_tools/07_ini_parser/dictionary.c:274-281 | a new value in a key's slot changes the map at that key only |
| Dictionary.Stored | C/04_tools/07_ini_parser/dictionary.c:299-304 | a key in a free slot adds that pair to the map |
| Dictionary.Removed | C/04_tools/07_ini_parser/dictionary.c:344-351 | clearing a slot takes its key out of the map |
| Dictionary.Grown | C/04_tools/07_ini_parser/dictionary.c:80-92 | the doubled arrays stand for the same map |
| Dictionary.FreeSlot | C/04_tools/07_ini_parser/dictionary.c:293-298 | with fewer entries than slots there is a free one, so the wrap-around loop ends |
| Dictionary.Dictionary.constructor | C/04_tools/07_ini_parser/dictionary.c:143-166 | an empty dictionary of at least 128 slots |
| Dictionary.Dictionary.Get | C/04_tools/07_ini_parser/dictionary.c:209-230 | the stored value, possibly NULL, or the default |
| Dictionary.Dictionary.Set | C/04_tools/07_ini_parser/dictionary.c:258-305 | -1 exactly for a NULL key or a growth without memory, and then nothing changes; otherwise the map with the pair |
| Dictionary.Dictionary.Insert | C/04_tools/07_ini_parser/dictionary.c:293-304 | the key goes into the first free slot from slot n on, around the end |
| Dictionary.Dictionary.Grow | C/04_tools/07_ini_parser/dictionary.c:61-94 | twice the slots, the same map |
| Dictionary.Dictionary.Unset | C/04_tools/07_ini_parser/dictionary.c:318-353 | the map without the key |
| IniText.UnquoteUndoesEscape | C/04_tools/07_ini_parser/iniparser.c:681-717 | reading undoes escaping: any value, followed by the closing quote and anything else, comes back |
| IniLines.EscapeLength | C/04_tools/07_ini_parser/iniparser.c:253-271 | escaping adds one character for each quote and each backslash, and no other |
| IniLines.Backslash | C/04_tools/07_ini_parser/iniparser.c:696-716 | inside quotes a backslash stands for the character behind it |
| IniLines.LetterCases | C/04_tools/07_ini_parser/iniparser.c:51-63 | only the letters A to Z change, to those at the same place from a to z |
| IniLines.StripOuter | C/04_tools/07_ini_parser/iniparser.c:97-115 | blanks around a text without outer blanks, and no more, are taken away |
| IniText.SectionLine | C/04_tools/07_ini_parser/iniparser.c:750-769 | a section name comes back from between brackets if and only if it is lower case without outer blanks |
| IniText.PairLine | C/04_tools/07_ini_parser/iniparser.c:770-780 | a pair's padded, escaped line gives name and value back, for every value |
| IniText.PairComesBack | C/04_tools/07_ini_parser/iniparser.c:770-797 | if and only if the name is non-empty, lower case, without outer blanks or an equals sign, and does not begin like a comment |
| IniText.EmptyName | C/04_tools/07_ini_parser/iniparser.c:806-809 | a pair with an empty name is a syntax error |
| IniLines.EmptyLine | C/04_tools/07_ini_parser/iniparser.c:744-746 | a line of blanks is empty |
| IniLines.CommentLine | C/04_tools/07_ini_parser/iniparser.c:747-749 | a line whose first character that is not a blank is ; or # is a comment |
| IniLines.HeadingLine | C/04_tools/07_ini_parser/iniparser.c:749-769 | a heading, with blanks anywhere around name and brackets |
| IniLines.BadLine | C/04_tools/07_ini_parser/iniparser.c:806-809 | any other line without an equals sign, or with nothing before it, is a syntax error |
| IniLines.BareLine | C/04_tools/07_ini_parser/iniparser.c:781-795 | a value without quotes is what stands between the blanks behind the equals sign and the blanks and the comment after it, if and only if the line is not in brackets as a whole |
| IniLines.NoValueLine | C/04_tools/07_ini_parser/iniparser.c:793-802 | nothing, or only a comment, behind the equals sign is the empty value, under the same condition |
| IniLines.DoubleQuoted | C/04_tools/07_ini_parser/iniparser.c:770-780 | a value in double quotes is unescaped, blanks and comment signs and all, and what follows the closing quote is not read |
| IniLines.SingleQuoted | C/04_tools/07_ini_parser/iniparser.c:770-780 | a value in single quotes without quotes and backslashes in it is taken as it stands |
| IniLines.PlainPair | C/04_tools/07_ini_parser/iniparser.c:781-795 | the form key = value, for any name that can be loaded and any value without quotes in front, comment signs and outer blanks: it gives that pair, if and only if the name does not begin and the value does not end with a bracket |
| IniLines.PlainComment | C/04_tools/07_ini_parser/iniparser.c:781-795 | the same with any comment behind it, next to the value or after blanks |
| IniLines.PlainEmpty | C/04_tools/07_ini_parser/iniparser.c:793-802 | the form key = without a value |
| IniLines.PlainSingle | C/04_tools/07_ini_parser/iniparser.c:770-780 | the form with single quotes |
| IniFile.LoadLine | C/04_tools/07_ini_parser/iniparser.c:856-914 | a whole line that fits the buffer and does not end in a backslash is read as that line |
| IniLines.LinePasses | C/04_tools/07_ini_parser/iniparser.c:888-890 | a comment line changes nothing and is no error |
| IniLines.LineFails | C/04_tools/07_ini_parser/iniparser.c:901-923 | a line that is not understood makes the whole file fail |
| IniLines.LineOpens | C/04_tools/07_ini_parser/iniparser.c:892-894 | a heading starts a section, whose name is stored without a value |
| IniLines.BareStored | C/04_tools/07_ini_parser/iniparser.c:781-795 | a value without quotes is stored under the section read last, without its comment |
| IniLines.JoinedLine | C/04_tools/07_ini_parser/iniparser.c:878-886 | a line that ends in a backslash is continued by the next: both are read as one |
| IniLines.LastLine | C/04_tools/07_ini_parser/iniparser.c:856-860 | the last line needs no newline, unless it is a single character, which is dropped |
| IniLines.TooLongLine | C/04_tools/07_ini_parser/iniparser.c:861-869 | a line that does not fit the buffer makes the whole file fail |
| IniFile.KeysLoad | C/04_tools/07_ini_parser/iniparser.c:340-347 | loading the lines of a section stores every pair of that section and nothing else |
| IniFile.SectionLoads | C/04_tools/07_ini_parser/iniparser.c:326-350 | so with its heading and the blank lines around |
| IniFile.DumpLoads | C/04_tools/07_ini_parser/iniparser.c:284-312 | loading the dumped text gives exactly the stored pairs back |
| IniPrinted.SameDump | C/04_tools/07_ini_parser/iniparser.c:253-350 | the dump of any dictionary with sections is that of one in which NULL values are replaced by the value printed before them in the section, section values and pairs without a section dropped |
| IniPlain.PlainLost | C/04_tools/07_ini_parser/iniparser.c:293-302 | so only the empty one comes back as it was |
| IniExact.LoadTidy | C/04_tools/07_ini_parser/iniparser.c:829-925 | whatever the text is, no key and no value with a newline is loaded |
| IniExact.PrintedExactly | C/04_tools/07_ini_parser/iniparser.c:284-350 | for every dictionary with sections: loading the dump gives the pairs that are printed if and only if each printed line can be read, that is, fits the buffer and has no newline and a name that comes back |
| IniExact.PlainExactly | C/04_tools/07_ini_parser/iniparser.c:293-302 | the same without sections, where every key is printed as it is and loaded behind a colon |
| IniExact.DumpLoadsBack | C/04_tools/07_ini_parser/iniparser.c:284-350 | for every dictionary: loading the dump gives the printed pairs if and only if the printed lines can be read, and the dictionary itself if and only if, besides, section values are NULL, pair values are not, and no pair is without its section |
| IniExact.NewlineLost | C/04_tools/07_ini_parser/iniparser.c:337-347 | an instance: a value of two lines does not come back, although no value is NULL |
| IniPrinted.NullRepeats | C/04_tools/07_ini_parser/iniparser.c:337-347 | an instance: with a = 1 and b = NULL in a section, b comes back as 1 |
| IniParser.EscapeValue | C/04_tools/07_ini_parser/iniparser.c:253-271 | the buffer holds the escaped value; a NULL value leaves it as it was |
| IniParser.ParseQuotedValue | C/04_tools/07_ini_parser/iniparser.c:681-717 | in place, the buffer holds what stands before the closing quote, unescaped |
| IniParser.StrLwc | C/04_tools/07_ini_parser/iniparser.c:51-63 | lower case of at most len - 1 characters |
| IniParser.StrStrip | C/04_tools/07_ini_parser/iniparser.c:97-115 | the text without outer blanks, and its length |
| IniParser.IniLine | C/04_tools/07_ini_parser/iniparser.c:729-813 | status and buffers say what the line means; the section buffer changes only for a section line |
| IniParser.FGets | C/04_tools/07_ini_parser/iniparser.c:856 | how much is read, and when the end of the file is met |
| IniParser.LoadFile | C/04_tools/07_ini_parser/iniparser.c:829-925 | null exactly if a line is too long or was not understood; otherwise a dictionary with the pairs that the text means, continued lines included |
| IniParser.GetNSec | C/04_tools/07_ini_parser/iniparser.c:170-185 | the number of keys without a colon |
| IniParser.SectionsCount | C/04_tools/07_ini_parser/iniparser.c:170-185 | that number: how many slots have a key without a colon |
| IniParser.GetSecName | C/04_tools/07_ini_parser/iniparser.c:201-221 | the n-th such key |
| IniParser.FindEntry | C/04_tools/07_ini_parser/iniparser.c:628-635 | whether the lower-case name is a key |
| IniParser.DumpSection | C/04_tools/07_ini_parser/iniparser.c:326-350 | prints the section's heading and its pairs in slot order |
| IniParser.DumpIni | C/04_tools/07_ini_parser/iniparser.c:284-312 | prints the text that the theorem on dumping is about |
| IniParser.DumpAndLoad | C/04_tools/07_ini_parser/iniparser.c:284-312 | printing and loading in sequence give a dictionary with the printed pairs, or with the same map, exactly under the conditions of DumpLoadsBack |
| ThreeSum.SameTriples | C/job_interview/12_sum_of_three.c:44 | sorting does not change which value triples at three different places sum to zero |
| ThreeSum.FirstAt | C/job_interview/12_sum_of_three.c:52-59 | skipping equal numbers loses no triple: those of a number are found at its first place |
| ThreeSum.Hit | C/job_interview/12_sum_of_three.c:64-83 | skipping equal numbers on both sides after a hit leaves exactly the other triples |
| ThreeSum.TooSmall | C/job_interview/12_sum_of_three.c:84-85 | a sum below zero rules out the left number |
| ThreeSum.TooLarge | C/job_interview/12_sum_of_three.c:86-88 | a sum above zero rules out the right number |
| ThreeSum.Complete | C/job_interview/12_sum_of_three.c:57-89 | the inner loop writes every completion of a number, each once, inside the buffer |
| ThreeSum.ThreeSum | C/job_interview/12_sum_of_three.c:37-91 | the buffer holds exactly the ascending value triples at three different indices that sum to zero, each once, at most n*n of them |
| CycleCheck.Endless | C/job_interview/08_cycle_list_check.c:37-56 | a walk that comes back to a node never ends |
| CycleCheck.EndOrRevisit | C/job_interview/08_cycle_list_check.c:37-56 | within as many steps as there are nodes the walk ends or comes back |
| CycleCheck.Meeting | C/job_interview/08_cycle_list_check.c:46-53 | the pointers meet no later than the first round past the tail at which their distance is a multiple of the period |
| CycleCheck.HasCycle | C/job_interview/08_cycle_list_check.c:37-56 | true exactly if following next from the head comes back to a node; ends within as many rounds as there are nodes |

## Left out

- RbCached.CachedTree.Add: sets the leftmost pointer after the insertion, the source before the rebalancing; a reader in between is not modelled. Like Replace and Move it is stated for trees without augment callbacks.
- RbEraseColor.Case4: paints the sibling's far child before the child stores instead of between them; no child pointer is affected.
- RbCached.ReplaceNode: the variants for lock-free readers (`rb_replace_node_rcu`, `rb_link_node_rcu`) are left out; they differ in memory barriers only.
- RbLinks.WriteOnce: speaks of the order of stores in one thread; memory ordering between processors is not modelled.
- The pointer tag that keeps the colour in the parent word; parent and colour are two fields.
- HashMap.HashMap.Set: keys and values are integers and the comparison is equality, consistent with the hash, which is arbitrary; a dib is unbounded, so the number of buckets is taken to fit 16 bits; arithmetic on load factors is exact; a map without compare function and `elfree` are left out.
- HashMap.HashMap.SetLoadFactor: the rounding of floating-point numbers is not modelled; in the source 0.57 times 100 is cut to 56.
- HashMap.HashMap.Resize: allocation either succeeds or fails as a whole.
- ListMerge.MergeFinal: the extra calls of cmp for long remainders (`cmp(b, b)`, an element with itself) have no effect and are left out.
- ReliableUdp.PushedInOrder: sequence numbers do not wrap, timers and resending appear as a network that may deliver any packet ever sent any number of times, TEST packets are left out, and one direction is modelled; each locked region is one step.
- Rdt.Rdt.OnData: is called only when the hand-on loop ends (`DrainEnds` says when); where it does not, the source spins forever.
- Rdt.Rdt.Send: is one turn of the wait for room, and Recv one of the wait for data; how long the waits last depends on the other threads.
- MemoryPool.MemoryPool.Alloc: one block; `auto_extend` is taken to be 0, which the source leaves uninitialised when both sizes are equal; `merge_free_chunk` uses the pool's size for every block, and the size added by an extension is not bounded by what remains, so several blocks are left out.
- MemoryPool.MemoryPool.constructor: the size must exceed a header and a footer; offsets stand for addresses, and header and footer sizes are those of a 64-bit machine.
- MemoryPool.MemoryPool.Free: as in the source the pointer must come from an allocation.
- SkipList.SkipList.Insert: the random level is a parameter between 1 and 16; a failing malloc is left out (the source dereferences the null pointer), as is freeing the deleted node; the local update array is a sequence.
- ThreadPool.Threadpool.Destroy: the test outside the lock and the store inside it are one call here; in the state machine a shutdown may be set at any time and again, which covers calls that race past the test.
- ThreadPool.NewPool: is the part before threads are created; a failing thread creation, after which the source frees a pool whose workers run, and failing allocations are left out.
- ThreadPool.TakenInOrder: `pthread_cond_signal` is taken to succeed; the order of execution among workers is left out.
- Dictionary.Dictionary.Set: a failing `xstrdup` (which would store a NULL key and count it) is left out; the hash function is arbitrary.
- IniParser.DumpSection: section names of 1024 or 1025 characters and values above 1024, which do not fit the source's local buffers, are excluded; the same holds for DumpIni and DumpAndLoad.
- IniParser.IniLine: `sscanf` formats are functions on strings; the line has no newline, as the loader guarantees.
- IniParser.LoadFile: a text has no NUL character; memory for the dictionary is available.
- ThreeSum.ThreeSum: what `qsort` leaves in the array is a parameter, sorted and a permutation; sums and the comparison's difference are taken not to overflow.
- Hash function bodies, sockets, logging, timers, servers and the language exercises of the repository.
