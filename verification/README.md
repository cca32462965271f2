# libnc in Dafny

libnc is a small C utility library. This project models the five parts of it that keep pointers, addresses or bytes
in delicate shapes, and proves what they are for: an intrusive red-black tree, a hash table whose pairs live on one
ring, pools that carve memory out of blocks, growable byte strings with a printer and a parser, and the generator by
which the bundled test harness shuffles tests. `dafny verify dfyconfig.toml` checks everything.

**Red-black tree** (`RbShape`, `RbHeap`, `RbTree`). Nodes are objects whose `left`, `right`, `parent` and `red` are
rewritten in place, all leaves are one sentinel. A position in the heap is described by a value, the subtree there
and the path back to the root (`RbShape`); `RbHeap` says when the cells of a set of nodes are such a value, and
`RbTree` holds the C code, step by step, each step proved to take one value to the next. The tree stands for its
in-order listing of nodes. Insertion puts a node behind all keys at most as large, deletion removes exactly that
node, also among equal keys and also when the successor takes its place. The sequence stays sorted by key and, for
equal keys, by time of insertion. `root.parent` is left free: after the deletion of a root with one child it points
to the deleted node (`src/nc_rbtree.c:205-212`). The sentinel's `parent` is a field like any other that the fixup
relies on.

**Hash table** (`HtRing`, `HtOrder`, `HtRehash`, `HtTable`, `NcHashtable`, `NcHashtableRuns`,
`NcHashtableIteration`). The ring and the bucket windows are described by the order of the pairs: the window of a
bucket goes from the first to the last pair with that index, and the pairs of one bucket stand together. The table
stands for a finite map in which keys that the user's comparison calls equal are one key. `KeysOk` is what the
user's two functions have to satisfy. Calls of the free callbacks are recorded in `freedKeys` and `freedValues`;
everything handed in is accounted for at every moment. Pairs that have been freed are in `dead`, and where the code
reads the link of a pair that may be about to go (`NextOf`) it must not be. A `set` needs `size` below the largest
prime, since the code does not look for the end of its list of primes. `NcHashtableRuns` holds what is seen from
outside: any run of calls on a new table holds and answers what a plain reading of the calls says, and everything
handed over is live or freed, as often as it was handed over. `NcHashtableIteration` is about the promise that an
iterator survives changes to other pairs: deleting as one goes, or adding while the table need not grow, every pair
that was there is met, once. A rehash puts the pairs into another order; `RehashSkips` says exactly which of those
still ahead an iteration then misses.

**Pools** (`PoolMath`, `NcPool`, `NcPoolRuns`, `NcPoolRounds`). Addresses are numbers, headers are objects that know
their address, sizes are those of a 64-bit platform. The addresses that `nc_memalign` and `nc_alloc` would return are
parameters: 0 for NULL, or memory that does not overlap with any that is still held (`Unused`). `given` lists the
small pieces handed out since the last reset and `records` says which of them became slots of the large list. Any
size that holds a `struct nc_pool` makes a pool, but aligned and large requests are served as they should be only if
that size is a multiple of the word size: then the room test never accepts what does not fit (`RoomIsExact`), and a
pool of any other size gets, by unaligned pieces alone, to where it accepts every aligned small request although its
block is full (`OddPool`). What a search finds is said in terms of places: addresses from a block's `last` on with
that many bytes in front of its `end`, multiples of the word size if that is asked for (`Suits`). A small request
gets the first place of the first block, from the current one on, that has any, and `nc_memalign` is asked for a new
block if and only if none has (`Carves`); `ServeAll` keeps the log of a whole run in these terms. A reset makes all
blocks empty, each with a place for all that is left of it, and rounds of requests with resets between them take no
new block if they cost no more than the blocks have (`ServeRounds`, where `Snug` counts seven bytes for aligning).
Blocks that have been freed are in `gone`. `nc_free` is a macro that also writes NULL where its argument stands
(`src/nc_macros.h:52-56`), so the loops that free large pieces empty the slots. Failure counts have a closed form
over all runs, resets included.

**SDS strings** (`SdsText`, `SdsGrammar`, `SdsReading`, `SdsPrinting`, `SdsArgs`, `SdsSplit`, `SdsNumber`, `NcSds`,
`NcSdsRuns`). A string object owns a buffer of `len + free + 1` bytes with a NUL at `len`; lengths fit an `int`.
`isprint` is a parameter. The parser reads a C string byte by byte, and that it stays inside is part of what is
proved. `SdsGrammar` describes the lines it reads from the side of one who writes them: a word is bytes as they are
and then perhaps one part in quotes, which ends it, and such a part is a row of bytes, letters behind a backslash and
hexadecimal numbers. Every line either is written that way, and then its words are the result, or runs into a quote
that is not closed or is followed by something, and then the result is NULL (`EveryLine`, `NullExactly`). A part in
single quotes cannot end in a backslash: writing `\'` for each apostrophe and leaving all else alone is undone by the
parser if and only if the text does not (`SinglesComeBack`). Vertical tab and form feed separate words only in front
of a word and behind a closing quote (`src/nc_sds.c:769`, `817`, `843-848`). What `sdscatrepr` prints is spelled out
byte by byte, and an independent reader of C string literals reads it back (`SdsPrinting`). Two signed overflows that
the C standard leaves undefined are modelled as wrap-around and shown to be harmless there: `-value` for the smallest
`long long` (`src/nc_sds.c:627`) and `end - start + 1` for the whole range of non-negative indices
(`src/nc_sds.c:468`).

**Shuffling** (`Words`, `Lcg`, `Shuffle`). With a multiplier that is 1 modulo 4 and an odd increment the generator
has full period modulo any power of two, so the shuffle loop ends and runs each of the selected tests once. Seed and
number of tests determine the order, which is that of the states below the number of tests over one period
(`Visits`).

Where comments and code disagree, the code is modelled. A comment speaks of the first three slots
(`src/nc_palloc.c:234`), the code looks at five. `nc_pool_reset` skips a full `struct nc_pool` in every block
(`src/nc_palloc.c:82-83`, marked there as to be fixed), although blocks after the first have the smaller header, so
such a block has 32 bytes less after a reset. The example above `sdstrim` shows an output with a space that its
input does not have (`src/nc_sds.c:405-409`).

Where a method of the model is only part of a C function, the C function has been cut at a loop body or a branch.

## Model

| member | source | states |
|---|---|---|
| RbTree.RedBlackTree.constructor | src/nc_rbtree.c:14-21 | a new tree is valid and lists nothing |
| RbTree.RedBlackTree.Clear | src/nc_rbtree.c:3-12 | links and key are reset, the colour is not touched |
| RbTree.RedBlackTree.TurnLeft | src/nc_rbtree.c:50-75 | the exact cells after the pointer writes, with no write to the sentinel |
| RbTree.RedBlackTree.TurnRight | src/nc_rbtree.c:77-102 | the mirror image |
| RbTree.RedBlackTree.RotateLeft | src/nc_rbtree.c:50-75 | in any place of any tree, the subtree becomes its left rotation and nothing else changes |
| RbTree.RedBlackTree.RotateRight | src/nc_rbtree.c:77-102 | the mirror image |
| RbShape.TurnListing | src/nc_rbtree.c:50-102 | a rotation keeps the in-order sequence |
| RbShape.PlugInorder | src/nc_rbtree.c:23-33 | the listing of a whole tree from one of its places |
| RbShape.PlugRedBlack | src/nc_rbtree.c:141-181 | the whole tree is red-black if and only if the subtree, and what is around the place, are balanced and the colours fit |
| RbShape.Descend | src/nc_rbtree.c:124-131 | the descent keeps all keys at most as large in front of the place and all larger ones behind, though equal keys may sit on both sides of a node |
| RbTree.RedBlackTree.FindPlace | src/nc_rbtree.c:124-131 | ends at an empty place with that property |
| RbShape.InsertHere | src/nc_rbtree.c:133-137 | a leaf there is the listing with the entry behind all keys at most as large |
| RbTree.RedBlackTree.Attach | src/nc_rbtree.c:133-137 | the links and the colour of the new node |
| RbShape.GrandparentExists | src/nc_rbtree.c:141-143 | a red parent is never the root, so there is a black grandparent |
| RbShape.PushRedUpLaws | src/nc_rbtree.c:145-149 | red uncle: the red-red edge moves up two steps, nothing else is wrong, the listing stays |
| RbShape.StraightenLLaws | src/nc_rbtree.c:151-154 | an inner red child becomes an outer one |
| RbShape.StraightenRLaws | src/nc_rbtree.c:169-172 | the mirror image |
| RbShape.LiftParentLaws | src/nc_rbtree.c:156-158 | black uncle: the red-red edge is gone |
| RbTree.RedBlackTree.UncleRed | src/nc_rbtree.c:145-149 | the heap after recolouring, seen from the grandparent |
| RbTree.RedBlackTree.UncleBlackRight | src/nc_rbtree.c:150-159 | left parent, black uncle: the place below a black parent that the rotations leave |
| RbTree.RedBlackTree.UncleBlackLeft | src/nc_rbtree.c:168-177 | the mirror image |
| RbTree.RedBlackTree.InsertRound | src/nc_rbtree.c:141-179 | each round keeps the listing, at most one red-red edge at node, and removes it or moves it up |
| RbTree.RedBlackTree.InsertFixup | src/nc_rbtree.c:139-181 | terminates in a red-black tree with the same listing |
| RbShape.InsertEnds | src/nc_rbtree.c:181 | a black root settles what is left |
| RbTree.RedBlackTree.Insert | src/nc_rbtree.c:104-182 | a valid tree; the listing is the old one with the node right behind all keys at most as large |
| RbShape.InsertSplit | src/nc_rbtree.c:124-131 | what that sequence operation means |
| RbShape.InsertStable | src/nc_rbtree.c:104-182 | the latest node goes behind its equals: stability by time of insertion is kept |
| RbTree.RedBlackTree.NodeMin | src/nc_rbtree.c:23-33 | the node at the end of the left links |
| RbShape.SmallestFirst | src/nc_rbtree.c:23-33 | it is the first one listed |
| RbTree.RedBlackTree.Min | src/nc_rbtree.c:35-48 | NULL if and only if nothing is listed; else the earliest node among those with the smallest key |
| RbTree.RedBlackTree.FirstIsLeast | src/nc_rbtree.c:35-48 | the first node listed is smaller, or equal and earlier, than each other |
| RbTree.RedBlackTree.Choose | src/nc_rbtree.c:192-203 | the node to unlink has at most one child, temp; it is the root only if the node deleted is |
| RbTree.RedBlackTree.DeleteRoot | src/nc_rbtree.c:205-212 | a root with at most one child: valid again whatever the new root's parent link says |
| RbTree.RedBlackTree.Detach | src/nc_rbtree.c:216-229 | the exact cells after unlinking, temp being the sentinel perhaps |
| RbTree.RedBlackTree.TakePlace | src/nc_rbtree.c:231-252 | the exact cells after the successor has taken over links and colour |
| RbTree.RedBlackTree.SpliceOuter | src/nc_rbtree.c:216-223 | only the node is gone, and temp knows its parent even if it is the sentinel |
| RbTree.RedBlackTree.SpliceInner | src/nc_rbtree.c:216-253 | the successor stands where the node stood, its child where it stood, also when it was the node's own child |
| RbShape.UnlinkLaws | src/nc_rbtree.c:257-259 | a red node unlinked leaves balance, a black one a place short of one black |
| RbShape.RemoveInner | src/nc_rbtree.c:224-253 | splicing in the successor removes just the deleted node from the listing |
| RbShape.RemoveOuter | src/nc_rbtree.c:216-223 | and so does putting its only child in its place |
| RbShape.SiblingExists | src/nc_rbtree.c:264-265 | the sibling of the short side is never the sentinel |
| RbShape.LowerParentLaws | src/nc_rbtree.c:267-272 | red sibling: still short by one black, now with a black sibling, as many nodes outside |
| RbShape.PaleSiblingLaws | src/nc_rbtree.c:274-276 | black nephews: the parent's subtree is the short one, fewer nodes are outside |
| RbShape.TurnSiblingLaws | src/nc_rbtree.c:278-283 | red near nephew: it becomes a red far one |
| RbShape.LiftSiblingLaws | src/nc_rbtree.c:285-289 | red far nephew: the whole tree is red-black again |
| RbTree.RedBlackTree.FixLeft | src/nc_rbtree.c:264-290 | one round on the left: listing kept, short by exactly one black or done, nodes outside fewer |
| RbTree.RedBlackTree.FixRight | src/nc_rbtree.c:292-318 | the mirror image |
| RbTree.RedBlackTree.DeleteRound | src/nc_rbtree.c:263-320 | the side test is unambiguous although all leaves are one sentinel |
| RbTree.RedBlackTree.DeleteFixup | src/nc_rbtree.c:261-322 | terminates, by the number of nodes outside the short subtree, in a red-black tree with the same listing |
| RbShape.DeleteEnds | src/nc_rbtree.c:322 | blackening the last node settles what is left |
| RbTree.RedBlackTree.Delete | src/nc_rbtree.c:184-323 | a valid tree; the listing is the old one without exactly that node, which is reset |
| RbShape.RemoveSplit | src/nc_rbtree.c:184-323 | what that sequence operation means |
| RbShape.RemoveStable | src/nc_rbtree.c:184-323 | order and stability are kept |
| RbShape.HeightBound | src/nc_rbtree.c:124-131 | a red-black tree of n nodes is at most 2 log2(n + 1) high |
| RbTree.RedBlackTree.WalkBound | src/nc_rbtree.c:28-30 | so is every walk down in a valid tree |
| HtRing.Init | src/nc_hashtable.c:16-21 | an empty ring |
| HtRing.Insert | src/nc_hashtable.c:23-30 | the ring with the node in front of any given link, the head included |
| HtRing.Remove | src/nc_hashtable.c:32-37 | the ring without a given link |
| HtOrder.PlaceWindows | src/nc_hashtable.c:45-55 | all windows are right after an insertion that touches one |
| HtOrder.PlaceGrouped | src/nc_hashtable.c:45-55 | the pairs of each bucket still stand together |
| HtOrder.RemoveWindows | src/nc_hashtable.c:110-119 | the four cases of a deletion leave all windows right |
| HtOrder.RemoveGrouped | src/nc_hashtable.c:119 | the pairs of each bucket still stand together |
| HtOrder.Span | src/nc_hashtable.c:80-90 | between first and last of a window lies everything of that bucket |
| HtOrder.PlacedSame | src/nc_hashtable.c:172-177 | threading pairs anew loses none and invents none |
| HtOrder.PlacedGrouped | src/nc_hashtable.c:172-177 | and leaves those of each new bucket together |
| HtRehash.PlacedOrder | src/nc_hashtable.c:172-177 | a rehash puts the buckets in the order of their first pairs, and the pairs of each in reverse |
| HtRehash.RehashSkips | src/nc_hashtable.h:161-165 | an iteration at one pair misses a later one after a rehash if and only if the later one's new bucket starts no later in the old order |
| HtTable.SetLaw | src/nc_hashtable.c:260-279 | storing changes what is found for keys equal to the given one and for no other |
| HtTable.DelLaw | src/nc_hashtable.c:95-130 | deleting likewise |
| HtTable.SizeIs | src/nc_hashtable.c:278 | as many pairs as keys |
| NcHashtable.Hashtable.constructor | src/nc_hashtable.c:207-234 | a valid table that stands for the empty map |
| NcHashtable.Hashtable.InsertToBucket | src/nc_hashtable.c:45-55 | list and windows stay consistent |
| NcHashtable.Hashtable.FindPair | src/nc_hashtable.c:70-93 | a pair with that hash and an equal key, or NULL if and only if the whole list has none |
| NcHashtable.Hashtable.RethreadOne | src/nc_hashtable.c:172-177 | moving one pair over leaves the chain still ahead as it was |
| NcHashtable.Hashtable.Rethread | src/nc_hashtable.c:172-177 | the walk visits every pair once and ends at the head |
| NcHashtable.Hashtable.Rehash | src/nc_hashtable.c:149-180 | consistent for the next prime, with the same pairs |
| NcHashtable.Hashtable.MakeRoom | src/nc_hashtable.c:250-253 | same map, same accounting, and a bucket more than there are pairs |
| NcHashtable.Hashtable.Add | src/nc_hashtable.c:266-279 | one new pair |
| NcHashtable.Hashtable.Set | src/nc_hashtable.c:243-281 | lookups of equal keys give the value, others what they gave; exactly what is freed; when the table grows; the order of the pairs, with at most one put in |
| NcHashtable.Hashtable.Get | src/nc_hashtable.c:283-298 | the value stored for an equal key, or NULL |
| NcHashtable.Hashtable.Unthread | src/nc_hashtable.c:110-119 | window and list without one pair |
| NcHashtable.Hashtable.FreePair | src/nc_hashtable.c:121-127 | a pair is freed that was not freed before, after its key and value |
| NcHashtable.Hashtable.Drop | src/nc_hashtable.c:110-130 | one pair is gone and dead; the others keep their order |
| NcHashtable.Hashtable.DoDel | src/nc_hashtable.c:95-130 | as Del |
| NcHashtable.Hashtable.Del | src/nc_hashtable.c:300-305 | -1 if and only if no equal key is stored, and then nothing changes; else that pair alone is gone, the others in the order they had, and it, its key and its value are freed |
| NcHashtable.Hashtable.NextOf | src/nc_hashtable.c:138-139 | a link is read of pairs only that have not been freed |
| NcHashtable.Hashtable.ClearOne | src/nc_hashtable.c:137-146 | the link is read before the pair is freed |
| NcHashtable.Hashtable.DoClear | src/nc_hashtable.c:132-147 | frees each live key and value once, in list order, and every pair, which is not read afterwards |
| NcHashtable.Hashtable.Clear | src/nc_hashtable.c:307-320 | the empty map; everything ever handed in is freed |
| NcHashtable.Hashtable.Deinit | src/nc_hashtable.c:236-241 | everything ever handed in is freed, as often as it was handed in |
| NcHashtable.Hashtable.Iter | src/nc_hashtable.c:322-326 | the first pair |
| NcHashtable.Hashtable.IterNext | src/nc_hashtable.c:345-352 | the pair after the given one, or NULL after the last |
| NcHashtable.Hashtable.IterationMeets | src/nc_hashtable.c:322-352 | an iteration meets each entry of the map exactly once |
| NcHashtable.Hashtable.IterationGoesOn | src/nc_hashtable.h:161-165 | from a pair that stays, an iteration goes on to the pairs behind it that stay |
| NcHashtableIteration.SweepOne | src/nc_hashtable.h:161-165 | one step: advance, then delete the pair the old iterator pointed to |
| NcHashtableIteration.Sweep | src/nc_hashtable.h:161-165 | an iteration that deletes any of the pairs it meets, having moved on, meets all that there were once, and just those chosen are gone |
| NcHashtableIteration.AddAt | src/nc_hashtable.h:161-165 | a set without a rehash leaves the iterator at its pair, and what was ahead of it ahead |
| NcHashtableIteration.Extend | src/nc_hashtable.h:161-165 | an iteration during which keys are set, without a rehash, meets all pairs that there were, in order, and none twice |
| NcHashtable.Hashtable.IterAt | src/nc_hashtable.c:328-343 | the pair of an equal key |
| NcHashtable.Hashtable.IterSet | src/nc_hashtable.c:368-377 | that entry's value is replaced and the old one freed |
| NcHashtable.Hashtable.KeyLiveOrFreed | src/nc_hashtable.c:121-130 | at any moment of any run a key handed in once is in exactly one live pair or was freed exactly once |
| NcHashtable.Hashtable.ValueLiveOrFreed | src/nc_hashtable.c:260-265 | the same for values |
| NcHashtableRuns.Call | src/nc_hashtable.c:243-377 | each call changes what is held, answers, and takes over keys and values as its reading by keys says |
| NcHashtableRuns.Run | src/nc_hashtable.c:207-377 | over any run on a new table, across all rehashes: for each key the entry that the calls leave, with the key handed in first; each answer; and what was handed over is, counted with multiplicity, what is live and what was freed |
| PoolMath.AlignUp | src/nc_macros.h:32-33 | the mask rounds up to the next word |
| PoolMath.RoomIsExact | src/nc_palloc.c:157-164 | with an aligned end, or no alignment asked for, the piece never starts beyond it and the wrapping comparison says whether the request fits |
| PoolMath.RoomCanBeTrusted | src/nc_palloc.c:157-164 | the comparison is sound for all requests if and only if the end is aligned |
| PoolMath.CountLaws | src/nc_palloc.c:207-214 | consequences of the closed form of the failure counts |
| NcPool.Pool.constructor | src/nc_palloc.c:10-33 | a valid pool of one empty block, for every size that holds its header |
| NcPool.Pool.CountFailure | src/nc_palloc.c:208-214 | one round keeps the closed form and moves current when it should |
| NcPool.Pool.WalkToLast | src/nc_palloc.c:207-214 | the last block, and counts and current for one block more |
| NcPool.Pool.NewBlock | src/nc_palloc.c:179-220 | a fresh block always fits the request; the piece is aligned and overlaps with nothing |
| NcPool.PlaceLaws | src/nc_palloc.c:157-167 | the room test in exact numbers holds if and only if the block has a place, and then the rounded-up last is the first one |
| NcPool.Pool.Search | src/nc_palloc.c:153-173 | the first block from current on that passes the room test, all of those passed over failing it, and how many blocks were looked at |
| NcPool.Pool.Small | src/nc_palloc.c:147-177 | a new block if and only if no block from current on has a place; else the first place of the first of them that has one, which is then used up to behind it; NULL and no change if and only if a new block is needed and there is no memory |
| NcPool.Pool.AllocSmall | src/nc_palloc.c:147-177 | the same in a whole pool: the piece is no slot's record, and a new block is new memory |
| NcPool.Pool.Alloc | src/nc_palloc.c:110-132 | a small request: the first place from the current block on, or a new block if and only if all from there on are too full; a large one: a piece held in the first empty slot among five, or in a new one in front whose record is carved the same way; which block is current; when it is NULL, and that then nothing has changed but a piece given back; that at most seven blocks are looked at in a pool never reset |
| NcPool.Pool.PiecesApart | src/nc_palloc.c:147-220 | all pieces since the last reset lie inside a block behind its header, and overlap with none other and with no header |
| NcPool.Pool.RecordsApart | src/nc_palloc.c:222-260 | each slot has a record of its own among those pieces; no other piece, and no other slot's record, touches it |
| NcPoolRuns.ServeAll | src/nc_palloc.c:110-260 | any sequence of requests with any supply of memory: the log of the run, each step of which is determined as for one request; a small request asks for a new block if and only if all blocks from the current one on are too full for it, and gets NULL if and only if moreover there is none; no two results overlap, small or large; small ones are aligned if asked, inside a block, clear of headers and slot records, large ones held in a slot |
| NcPoolRuns.OddPool | src/nc_palloc.c:157-164 | a pool of any size off a word boundary comes to accept every aligned small request behind its end |
| NcPool.Pool.FailureLaws | src/nc_palloc.c:207-214 | six failures before current, at most five from there on, never rising; at most seven blocks searched in a pool never reset |
| NcPool.Pool.EmptySlot | src/nc_palloc.c:234-245 | the first empty slot among the first five, or NULL if and only if all of those are full |
| NcPool.Pool.AllocLarge | src/nc_palloc.c:222-260 | that slot takes the piece, or else a new slot in front, whose record gets the first place from the current block on or lies in a new block; without memory for that the piece is freed and NULL returned |
| NcPool.TakenHeld | src/nc_palloc.c:234-257 | a piece that an empty slot or a new one takes is one large piece more that is held |
| NcPool.Pool.PFree | src/nc_palloc.c:91-108 | 0 if and only if a slot holds the pointer: that one piece is freed and its slot empty |
| NcPool.Pool.Reset | src/nc_palloc.c:67-89 | all large pieces are freed; every block is kept, used up to 64 bytes from its start, with no failures and with a place for all that is left; the search starts at the first block |
| NcPool.Pool.AllEmpty | src/nc_palloc.c:80-85 | such a block has its first place, for all that is left of it, right behind the header |
| NcPoolRounds.AgainFromStart | src/nc_palloc.c:67-177 | after a reset the first small request, aligned or not, gets the memory right behind the pool header and needs no new block |
| NcPoolRounds.TightUsed | src/nc_palloc.c:153-173 | when all blocks are too full for a request, that much of them is in use |
| NcPoolRounds.SnugRun | src/nc_palloc.c:147-177 | from empty blocks on, a run whose requests cost no more than the blocks have asks for no new block |
| NcPoolRounds.ServeRounds | src/nc_palloc.c:67-177 | any number of rounds, each a reset and such a run: no new block is ever asked for, nobody gets NULL, no two pieces of a round overlap |
| NcPool.Pool.FreeLarge | src/nc_palloc.c:50-55 | each large piece is freed once, in list order, and its slot emptied by the macro |
| NcPool.Pool.FreeOne | src/nc_palloc.c:51-54 | one round of that loop; a slot is read while the block its record lies in has not been freed |
| NcPool.Pool.FreeRound | src/nc_palloc.c:57-64 | a block not freed before is freed, and the link of the next one read, which has not been freed |
| NcPool.Pool.FreeBlocks | src/nc_palloc.c:57-64 | each block is freed once, in list order, and no freed one is read |
| NcPool.Pool.Destroy | src/nc_palloc.c:35-65 | large pieces and then blocks, all of them; slots are read before any block is gone |
| NcPool.Pool.FreedOnce | src/nc_palloc.c:35-65 | no address is among those twice |
| SdsText.ReadsEscaped | src/nc_sds.c:645-680 | each escaped byte is read back as itself, whatever follows |
| SdsText.TokenQuoted | src/nc_sds.c:779-864 | a quoted string is read back up to its closing quote |
| SdsText.ArgsOfLine | src/nc_sds.c:759-886 | parsing undoes printing for all lists of byte strings and any isprint |
| SdsText.LineNoNul | src/nc_sds.c:645-680 | printed text has no NUL if isprint rejects it |
| SdsArgs.ReadStep | src/nc_sds.c:779-863 | one round of the token loop, inside the C string, is one step of the grammar, errors included |
| SdsArgs.ReadToken | src/nc_sds.c:771-864 | a token and what follows it, or an error |
| SdsArgs.Skip | src/nc_sds.c:768-770 | blanks skipped |
| SdsArgs.SplitArgs | src/nc_sds.c:740-886 | a line written as words, blanks, quotes and escapes gives the words that it means, any other line runs into an unclosed quote or one followed by something and gives NULL |
| SdsReading.GoodLine | src/nc_sds.c:740-757 | every line written in that way is read as it was meant |
| SdsReading.BadLine | src/nc_sds.c:754-757 | every line with a quote that stays open, or is followed by something else than a blank, gives NULL |
| SdsReading.EveryLine | src/nc_sds.c:766-876 | there are no other lines |
| SdsReading.NullExactly | src/nc_sds.c:754-757 | NULL if and only if a quote stays open or is followed by something; a list of words if and only if the line is a way of writing it |
| SdsReading.WordsComeBack | src/nc_sds.c:843-860 | words without quotes, with any blanks around them, are read as those words |
| SdsReading.SinglesComeBack | src/nc_sds.c:826-841 | text in single quotes with a backslash before each apostrophe is read back if and only if it does not end in a backslash, and is NULL else |
| SdsReading.HexComesBack | src/nc_sds.c:781-788 | a backslash, an x and two digits in any case are the byte with that value |
| SdsArgs.LineIsCString | src/nc_sds.c:759-886 | the round trip through a C string |
| SdsSplit.LineIsJoin | src/nc_sds.c:930-942 | quoting each, joining with spaces and parsing gives the list |
| SdsSplit.JoinOfTokens | src/nc_sds.c:548-603 | joining undoes splitting for every string and separator |
| SdsSplit.TokensFree | src/nc_sds.c:576-578 | no token contains the separator |
| SdsSplit.SplitIsLeftmost | src/nc_sds.c:565-586 | the tokens are those, and only those, of leftmost cuts that do not overlap |
| SdsSplit.TokensOfJoin | src/nc_sds.c:561-564 | for one byte splitting undoes joining if and only if the list is not a single empty token |
| SdsSplit.SplitLen | src/nc_sds.c:548-603 | the loop computes those tokens, reads inside the string and always has room in its array |
| SdsNumber.DecimalLaws | src/nc_sds.c:621-637 | the decimal form is canonical and has the number as its value |
| SdsNumber.DecimalUnique | src/nc_sds.c:621-637 | and it is the only canonical form that has |
| SdsNumber.NegatedIsMagnitude | src/nc_sds.c:627 | the negation overflows for the smallest value and no other; wrapped around and made unsigned it is still the magnitude |
| SdsNumber.WriteDigits | src/nc_sds.c:628-632 | the digits at the end of the buffer |
| SdsNumber.FromLongLong | src/nc_sds.c:621-637 | the decimal form of every 64-bit value, in at most 20 of the 32 bytes |
| NcSds.Sds.constructor | src/nc_sds.c:51-69 | the given bytes, or zeros |
| NcSds.Sds.MakeRoomFor | src/nc_sds.c:147-170 | contents kept, room made, and how much: nothing changes if there was room, otherwise one reallocation, which for small requests more than doubles the capacity |
| NcSds.Sds.CatLen | src/nc_sds.c:273-289 | appends; the buffer stays if there was room, otherwise there is one reallocation to twice the new length |
| NcSds.Sds.CpyLen | src/nc_sds.c:313-333 | overwrites; the buffer stays if there was room |
| NcSds.Sds.GrowZero | src/nc_sds.c:247-266 | appends zeros up to the length asked for; the buffer stays if there was room |
| NcSds.Sds.Clear | src/nc_sds.c:131-139 | empty, with the capacity kept |
| NcSds.Sds.RemoveFreeSpace | src/nc_sds.c:178-188 | contents kept, no free space |
| NcSds.Sds.Bounds | src/nc_sds.c:453-480 | for all int bounds, negative ones counting from the end, where the slice starts and how long it is |
| NcSds.Sds.Range | src/nc_sds.c:449-484 | the inclusive slice, for all int bounds, negative ones counting from the end |
| NcSds.Sds.Trim | src/nc_sds.c:411-431 | the middle whose ends are outside the set, NUL being inside always |
| NcSds.MiddleUnique | src/nc_sds.c:411-431 | there is only one such middle |
| NcSds.Sds.FewReallocations | src/nc_sds.c:156-162 | while the lengths reallocated for stay small, at most log2(n + 1) reallocations, n being the longest of them |
| NcSdsRuns.AppendAll | src/nc_sds.c:147-289 | a run of appends: the strings one after the other; no reallocation if and only if they fit in the free space; with r of them, 2^r times the old capacity plus one is at most twice the final length plus one |
| NcSds.Sds.CatRepr | src/nc_sds.c:645-680 | appends, between double quotes, each byte in its spelling: backslash and a letter for seven of them, itself if printable, otherwise backslash, x and two lower-case digits; read as units these mean the string |
| NcSds.Sds.CatEscaped | src/nc_sds.c:650-676 | the switch appends the escaped form of one byte |
| SdsPrinting.PrintedAs | src/nc_sds.c:640-642 | the printed form is one spelling after the other, and means what was printed |
| SdsPrinting.CReadsBack | src/nc_sds.c:640-642 | a reader of C string literals reads back every printed string |
| NcSds.JoinAll | src/nc_sds.c:929-942 | the strings with the separator in between |
| NcSdsRuns.PrintAndParse | src/nc_sds.c:645-942 | sdscatrepr of each, sdsjoinsds with spaces and sdssplitargs of the buffer give the list back |
| Lcg.Doubling | tests/greatest.h:1102-1107 | 2^k steps multiply by 1 modulo 2^(k+2) and add an odd multiple of 2^k |
| Lcg.NoRepeat | tests/greatest.h:1102-1107 | fewer than m steps never repeat a state |
| Lcg.FullPeriod | tests/greatest.h:1092-1101 | m steps visit each state once, from every seed |
| Words.MaskIsMod | tests/greatest.h:1105 | masking with a power of two less one is reduction by that power |
| Shuffle.StepIsMod | tests/greatest.h:1105 | a step in wrapping words is a step modulo m |
| Shuffle.Prng.InitFirstPass | tests/greatest.h:1072-1075 | counting starts |
| Shuffle.Prng.InitSecondPass | tests/greatest.h:1077-1090 | 0 if and only if there are no tests; else m is the least power of two not below the count, the state is the seed modulo 2^29, a is four times that plus one, or 5, and c is 2147483647 |
| Shuffle.WithinPeriod | tests/greatest.h:1102-1107 | wherever the generator is, one of the next m states is a test number |
| Shuffle.StateIs | tests/greatest.h:1102-1107 | the state after any number of steps, each reduced, is the closed form reduced |
| Shuffle.VisitsEnd | tests/greatest.h:1092-1101 | once every test has been met, none is met again in the rest of the period |
| Shuffle.FourTests | tests/greatest.h:1077-1107 | with four tests and seed 42 the order is 1, 0, 3, 2 |
| Shuffle.Prng.Step | tests/greatest.h:1102-1107 | from every seeded state the loop ends within one period, at the next state that is a test number |
| Shuffle.Prng.TestPre | tests/greatest.h:729-740 | in random order a test runs if and only if its number is the state; otherwise always |
| Shuffle.Prng.Pass | tests/greatest.h:670-673 | a pass after the first runs one test |
| Shuffle.NextHit | tests/greatest.h:1092-1101 | no test is hit twice |
| Shuffle.Prng.Shuffle | tests/greatest.h:666-681 | the loop ends, every test has run exactly once, in the order in which the states of the generator for that seed fall below the number of tests |

## Left out

- Out-of-memory paths except those of `nc_palloc` and `nc_pnalloc`: elsewhere allocation succeeds. A rehash that fails leaves the table without buckets.
- Raw pointer casts and `container_of`: nodes, pairs and headers are objects.
- The `data` field of tree nodes, which no function of the tree looks at.
- `nc_hashtable_create`, `nc_hashtable_destroy`, `nc_hashtable_iter_key`, `nc_hashtable_iter_value`: allocation or field access only.
- Hash values are unbounded numbers; only their remainders by a prime and their equality are used.
- The loops that mark all windows empty in a new bucket array are part of the array's allocation.
- NcPool.Pool.Alloc: in a pool whose size is not a multiple of the word size it covers unaligned small requests only, because there the code may hand out memory behind the end of a block (NcPoolRuns.OddPool).
- NcPoolRounds.ServeRounds: rounds of small requests; what the slot records of large ones cost is not counted, and seven bytes are counted for each alignment, however few are skipped.
- Pool cleanup handlers; `nc_pool_reset` and `nc_pool_destroy` are for pools without them. `nc_pcalloc` is `nc_palloc` and a `memset` of memory whose contents are not modelled.
- NC_DEBUG_PALLOC builds, in which all requests are large.
- Arguments of string functions that alias the string itself, and the arrays of string objects around parsed, split and joined strings: tokens are byte sequences.
- SdsArgs.SplitArgs: isspace is that of the C locale.
- NcSds.JoinAll: the joined string is short enough for each of its reallocations to fit an `int`; the other string functions need that only if they reallocate.
- NcSds.Sds.CatRepr: the variadic formatting of `sdscatprintf` is replaced by appending what its three formats yield.
- `sdsupdatelen`, `sdsIncrLen`, `sdscmp`, `sdsmapchars`, `sdsjoin`, case conversion: easier than what is there.
- Shuffle.Prng.Shuffle: the body selects the same tests in each pass and does not ask to abort; suites and tests use one model.
- `src/nc_array.c`, `src/nc_sys_queue.h`, logging, assertion macros, the rest of `tests/greatest.h`.
