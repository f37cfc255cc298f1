# XFS metadata indexes: a model and its proofs

XFS keeps its metadata in ordered indexes that must agree with each other. This project models the code that changes
those indexes, and proves that they do, from the generic B+tree up to the crash states of an attribute replace. The code
works on fields and blocks in place, and so does the model: objects are classes whose methods are proved against
specification functions, and the laws of these functions are lemmas.

## The layers

**B+tree** (`Levels`, `Btrees`, `BtreeWalk`, `BtreeShift`, `BtreeInsert`, `BtreeFull`, `BtreeDelete`, `BtreeLookup`;
`xfs_btree.c`, `xfs_alloc_btree.c`). A tree is a map from block numbers to blocks, a root and a number of levels; a cursor is a path of
block numbers and entry numbers. The specification is the sequence of records `Recs()` and the cursor's place `At` in it.
`Valid()` says that the store holds just the blocks of the tree, siblings are chained, parent keys are the first keys of
their children, all leaves are at one depth, and every block but the root has between maxrecs/2 and maxrecs entries. The
ghost field `lv` mirrors the store level by level; `RootWalk` shows that it is what a walk from the root finds. Insert
and delete are the source's loops over levels with its shifts, splits, borrowing, joins, new and dropped roots. Blocks
come from and go to the freelist of the layer above; what an insertion draws is known beforehand (`Due`).

**Free space** (`FreeLists`, `Extents`, `AllocTree` to `AllocRotor`, `AllocRoom`, `AllocTight`; `xfs_alloc.c`). An allocation group `Ag` has a
by-block tree, a by-size tree, the freelist ring that feeds both, and the counters. `Extents` has the theory: extents
that neither overlap nor touch, and the set of blocks they stand for. Each operation says how that set changes. `Run`
takes any list of allocations and frees and traces the blocks in use; `NeverTwice` follows from the trace, and `Indexes`
spells out what holds after every step.

**File extents** (`ExtentMap`, `BmapFork` to `BmapRecord`; `xfs_bmap.c`, `xfs_bmap_btree.c`). A sorted extent list
denotes a map from file offset to hole, delayed, or block and state. Conversion, delayed allocation, unmapping and read
mapping are proved against that map, with the count of extents, the btree, the reservations and the list of blocks to
free going along.

**Attributes** (`DaHash`, `DaTree`, `DaLookup`, `AttrView` to `AttrReplace`, `AttrStored`; `xfs_attr.c`, `xfs_attr_leaf.c`,
`xfs_da_btree.c`). Lookup is proved over a tree of any depth whose equal hashes may go on over several leaves. For set
and remove, the state is the sequence of leaves and the blocks of values; `log` is the list of all states a crash may
show, one for each commit and each direct write of a value. What is seen of a state is the multiset of names and values
of its complete entries.

**Buffer logging and recovery** (`Bits`, `BufSegs`, `BufItem`, `BufRecover`; `xfs_buf_item.c`, `xfs_bit.c`,
`xfs_log_recover.c`). The dirty bitmap is an array of 32-bit words, set and scanned with the source's masks. Logging,
the vectors for the log, and replay are put together: replay over the old image gives the new one.

**Access control lists** (`Acl`, `AclMode`, `AclLaws`; `xfs_acl.c`). The one-pass check against the declarative one, the
validity check, and the exchange with the file mode.

## Where the code differs from what one would claim

- `AllocArgs.LenFixedForm`: the comment above `xfs_alloc_fix_len` wants a length k * prod + mod; the code subtracts mod.
  The lemma says for every request when the result is what the comment wants; in `LenFixedMisses` it is not.
- `AllocArgs.LenLeftForm`: `xfs_alloc_fix_minleft` computes a difference in unsigned 32-bit arithmetic. The length never
  grows if and only if there is as much as must be left; in `LenLeftWraps` there is less. Where what is wanted is more by
  2^31 than there is, the difference comes out positive, and nothing is checked.
- `AllocTight.TightGroup`: the least freelist length, `XFS_MIN_FREELIST`, is a block for each level of both trees and each
  new root. To take blocks from the middle of an extent means two insertions in the by-size tree, and when the first has
  split every level the second may have to split once more. An insertion runs out exactly if `Due` is more than the list
  has (`BtreeInsert.Insert`); when all blocks are full and the rests go to leaves apart (`RunsOut`), the whole step runs
  out with less than three blocks more than there are levels. The example has blocks of four and five entries.
- `AllocNear.NearMisses`: of the two sides of the block asked for, the near search is to take the nearer one. When the right
  side is found first, the search to the left ends at the first extent that starts far enough off, though its end may be
  near; and the comparison is one of unsigned numbers, so it also ends when the distance is more than the block number.
  `SideWins` says that these are the only cases.
- `AllocRotor.MinleftLast`: groups are to be tried with minleft kept before it is dropped. With `FirstAg`, those below the
  group given are not.
- `BtreeInsert.SplitEven`: both halves of an odd number are to come out even, which they do not when the new entry goes just
  after the middle.
- `BmapUnmap.MiddleMisses`: a delayed extent that holds its worst case need not do so without its middle. It does if and only
  if both ends need no more together (`DelExtent`, `Bunmapi`).
- `AttrStored.ReplacesOne`: the old entry is looked up again by its being incomplete. If a crash left an incomplete entry of
  the name before it, that one is found and removed (`ReplaceMisses`), and the old one stays incomplete in its place.
- `BmapConvert.AddExtentUnwrittenReal`: where the last part of an extent becomes an extent of its own, the code always
  writes a written record to the btree. Btree and list agree if and only if it is not that case with an unwritten part.
  A conversion to unwritten, as in `ForgetsExample`, comes from the unmapping of realtime files only, where whole realtime
  extents cannot be freed (`xfs_bmap.c:5596`, `5650`, `5659`); that part of unmapping is not in the model.
- `BufRecover.SizeCounts`: a run of dirty chunks that is cut in memory takes more vectors than the size noted for
  recovery says. They agree if and only if no run is cut, and only then do the regions mean to recovery what was meant
  (`Handover`, `HandoverMisses`).
- `AclLaws.ListKept`: the validity check does not look at permission bits. A list survives the way through the file
  mode if and only if its shared entries have three bits at most; `ListKeptMisses` has one with a fourth.
- `xfs_allocbt_alloc_block` asserts nothing about an empty freelist, and `xfs_alloc_put_freelist` nothing about a full
  one. The model's insert, split and put operations return false then, and promise nothing more.

## Conventions

Numbers are unbounded but where a width matters: `Int32` and `U32` in `AllocMath` and `AllocArgs`, `bv32` and `bv64` in
`DaHash`, `Bits` and `BmapRecord`, `bv16` for permissions. A method result `ok` is false where the source returns an
error or fails an assertion; the contracts then promise nothing. What the code cannot know beforehand (which blocks an
allocation gets, how a leaf is balanced, whether a lock is busy) is a parameter, and the contracts hold for all of its
values.

## Model

| member | source | states |
|---|---|---|
| `BtreeWalk.RootWalk` | fs/xfs/xfs_btree.c:1494-1528 | a walk from the root down the child pointers of the block store meets exactly the records `Recs()` of the tree, in order, whatever its height; this ties the abstraction that all contracts below speak of to the stored blocks |
| `Btrees.Btree.constructor` | fs/xfs/xfs_alloc_btree.c:54-71 | an empty tree is one leaf without records, well formed |
| `Btrees.Increment` | fs/xfs/xfs_btree.c:1292-1393 | at any level the cursor goes to the next entry, up and down the tree as needed, and stays one past the end at the right edge; false exactly then; nothing below the level changes |
| `Btrees.Decrement` | fs/xfs/xfs_btree.c:1400-1491 | the same to the left: the entry before, or before the first entry at the left edge |
| `BtreeLookup.NextRec` | fs/xfs/xfs_btree.c:1292-1393 | at the leaves, increment is the successor in the sequence of all records |
| `BtreeLookup.PrevRec` | fs/xfs/xfs_btree.c:1400-1491 | at the leaves, decrement is the predecessor in the sequence of all records |
| `BtreeLookup.NextThenPrev` | fs/xfs/xfs_btree.c:1292-1491 | decrement undoes increment, also from the last record |
| `BtreeLookup.PrevThenNext` | fs/xfs/xfs_btree.c:1292-1491 | increment undoes decrement, also from the first record |
| `BtreeLookup.SearchLevel` | fs/xfs/xfs_btree.c:1601-1650 | the halving search of a block divides the whole level: all entries before the place are smaller, all after it greater |
| `BtreeLookup.Lookup` | fs/xfs/xfs_btree.c:1557-1710 | for a tree of any height, empty or not: LE ends at the last record not greater, GE at the first not smaller (in the right sibling if need be), EQ at the equal record or the place to insert; the result tells whether there is one |
| `BtreeLookup.GetRec` | fs/xfs/xfs_btree.c:3655-3690 | the record at the cursor, or that there is none |
| `BtreeLookup.Update` | fs/xfs/xfs_btree.c:1765-1819 | overwriting the record at the cursor replaces just that record of the sequence; parent keys follow, and the longest extent with the last record of the by-size tree |
| `Btrees.UpdKey` | fs/xfs/xfs_btree.c:1716-1757 | going up from a block with a new first key repairs the parent keys of all levels above, shape unchanged |
| `BtreeShift.Lshift` | fs/xfs/xfs_btree.c:1826-2002 | moving an entry to the left sibling keeps the sequence, parent keys, sizes of all other blocks and the entry the cursor stands for; it refuses exactly where the source does |
| `BtreeShift.Rshift` | fs/xfs/xfs_btree.c:2009-2177 | the same to the right |
| `BtreeInsert.Split` | fs/xfs/xfs_btree.c:2185-2363 | a split draws one block from the freelist, cuts the block in two halves chained between their neighbours and returns the key and number of the new one |
| `BtreeInsert.NewRoot` | fs/xfs/xfs_btree.c:2470-2593 | a new root stands above the two halves of the old one; the sequence of records is the same |
| `BtreeInsert.MakeUnfull` | fs/xfs/xfs_btree.c:2596-2661 | room is made by a right shift if the right neighbour can take an entry and the cursor is not at the last one, else by a left shift under the mirror condition, else by a split (`Eased`); the place to insert at is still the same place of the sequence |
| `BtreeInsert.SplitEven` | fs/xfs/xfs_btree.c:2242-2250 | with the new entry both halves of a split come out even, but where it goes just after the middle of an odd number |
| `BtreeInsert.Insrec` | fs/xfs/xfs_btree.c:2668-2869 | one level of an insertion: afterwards the level holds the entry at its place, and what is left to insert one level up is returned |
| `BtreeInsert.Insert` | fs/xfs/xfs_btree.c:2879-2944 | the records become the old sequence with the new record put in at the cursor, the tree well formed (keys, depth, siblings, minimum and maximum sizes) and at most one level higher; it succeeds exactly if the freelist has as many blocks as `Due` says beforehand (one for each block on the path that is full with full neighbours, one for a new root), and draws just these; a cursor off the left edge is refused |
| `BtreeFull.DueFull` | fs/xfs/xfs_btree.c:2596-2661 | in a tree whose nodes and the leaves around the cursor are full, an insertion draws a block for each level and one for a new root |
| `BtreeDelete.Excise` | fs/xfs/xfs_btree.c:3144-3262 | taking the entry out of its block keeps parent keys exact |
| `BtreeDelete.KillRoot` | fs/xfs/xfs_alloc_btree.c:283-312 | a root with one child goes to the freelist and the child becomes the root; the records stay |
| `BtreeDelete.BorrowRight` | fs/xfs/xfs_btree.c:3312-3381 | an entry comes over from the right sibling exactly if that can spare one; the tree then is well formed |
| `BtreeDelete.BorrowLeft` | fs/xfs/xfs_btree.c:3383-3438 | the same from the left sibling, the cursor following its entry |
| `BtreeDelete.Join` | fs/xfs/xfs_btree.c:3445-3602 | where neither sibling can spare an entry a join with one of them always fits, so the give-up branch is unreachable; the emptied block is freed and the level above has one entry to lose |
| `BtreeDelete.RebalanceShort` | fs/xfs/xfs_btree.c:3280-3602 | a block one entry short is filled up from the right neighbour if that can spare an entry, else from the left one, else joined with the left one, or with the right one if it is the first (`Refilled`) |
| `BtreeDelete.Delete` | fs/xfs/xfs_btree.c:3610-3649 | the records become the old sequence without the record at the cursor, the tree well formed again (all non-root blocks at their minimum) and at most one level lower, each block freed going to the freelist; from a leaf above the minimum only that leaf gets smaller; false, and nothing changed, if there is no record there |
| `Levels.FlatIns` | fs/xfs/xfs_btree.c:2766-2830 | an entry put into a block is put in at its place of the level's sequence |
| `Levels.FlatDel` | fs/xfs/xfs_btree.c:3144-3182 | an entry taken out of a block is taken out of the level's sequence |
| `Levels.FlatShift` | fs/xfs/xfs_btree.c:1826-2177 | entries moved between neighbours leave the level's sequence as it was |
| `Records.BeforeIs` | fs/xfs/xfs_alloc_btree.c:261-280 | keys are ordered by start in the by-block tree, by length and then start in the by-size tree |
| `Records.LastIsLongest` | fs/xfs/xfs_alloc_btree.c:143-197 | in by-size order the last record is a longest one, which is why the last record is tracked |
| `FreeLists.FreeList.Get` | fs/xfs/xfs_alloc.c:2058-2123 | the freelist is a first-in first-out ring: get takes the oldest block and leaves the rest in order, the indices wrapping round; a tree block is counted in btreeblks |
| `FreeLists.FreeList.Put` | fs/xfs/xfs_alloc.c:2180-2230 | put appends to the ring; a tree block is counted off btreeblks |
| `FreeLists.FreeList.constructor` | fs/xfs/xfs_alloc.c:2058-2230 | an empty ring |
| `Extents.Taken` | fs/xfs/xfs_alloc.c:337-472 | taking part of a free extent out leaves extents that are apart and whose blocks are the old ones less that part |
| `Extents.Given` | fs/xfs/xfs_alloc.c:1577-1817 | joining freed blocks with the extents that touch them gives extents that are apart, never touching, with just these blocks added |
| `Extents.Canonical` | fs/xfs/xfs_alloc.c:1577-1817 | extents that neither overlap nor touch are determined by the set of their blocks |
| `AllocFixup.FixupTrees` | fs/xfs/xfs_alloc.c:337-472 | both trees lose the extent and get what remains of it on either side, in all four shapes, with right or new cursors, and agree again; it succeeds whenever the freelist has a block for each level the insertions may split (`Needs`: one side left over, or both) and slots for what comes back; it fails whenever all blocks are full, the rests go to leaves away from each other, and the freelist is shorter than the levels of both trees and three (`RunsOut`) |
| `AllocTight.TightGroup` | fs/xfs/xfs_ag.h:218-227 | a group with two full trees of two levels whose freelist has exactly the least length, and an extent of it out of whose middle nothing can be taken: the list runs out |
| `AllocMath.RoundUpLeast` | fs/xfs/xfs_alloc.c:183-205 | rounding up finds the least multiple not below |
| `AllocMath.AlignedBest` | fs/xfs/xfs_alloc.c:183-205 | the aligned part of an extent lies in it, starts aligned, and no aligned place in the extent is longer |
| `AllocMath.BestStartNearest` | fs/xfs/xfs_alloc.c:212-265 | if the wanted length fits aligned, the start found is not null, aligned, inside with that length, and no such start is nearer to the target |
| `AllocArgs.Args.FixLen` | fs/xfs/xfs_alloc.c:274-301 | the length never grows, a length of at least minlen stays one, it changes exactly if `Cut` holds of the request, and it comes out as k * prod + mod, which the comment wants, exactly if `WantedForm` does |
| `AllocArgs.LenFixedRange` | fs/xfs/xfs_alloc.c:274-301 | the length never grows and stays within minlen and maxlen |
| `AllocArgs.LenFixedForm` | fs/xfs/xfs_alloc.c:274-301 | for every request: the length is cut if and only if it has neither the wanted remainder nor the greatest length and is long enough afterwards; the result is k * prod + mod if and only if it is not cut and was so already, or is cut with mod 0 or half of prod (from a remainder above mod), or from a remainder half of prod below mod |
| `AllocArgs.LenFixedMisses` | fs/xfs/xfs_alloc.c:290-296 | a concrete length that is cut to something else |
| `AllocArgs.Args.FixMinleft` | fs/xfs/xfs_alloc.c:308-327 | with fewer than 2^31 blocks there: with minleft 0, or more than 2^31 short, the length stays; with as much there as must be left it is cut to what leaves that; with less it wraps round past all there is; refused, with no block, exactly if it comes out less than minlen and changed |
| `AllocArgs.LenLeftForm` | fs/xfs/xfs_alloc.c:308-327 | with fewer than 2^31 blocks there, the length never grows if and only if there is as much as must be left, and then just that much is left; with less the unsigned sum wraps round to 2^31 or more; where what is wanted is 2^31 more than there is the test of the sign is passed and the length stays |
| `AllocArgs.LenLeftWraps` | fs/xfs/xfs_alloc.c:315-318 | with one block there and two to be left, a length of 1 becomes 2^32 - 1 |
| `AllocSize.SearchLeft` | fs/xfs/xfs_alloc.c:1399-1441 | from a candidate on, the search to smaller extents with its early exits ends at one with the most usable blocks of all |
| `AllocSize.VextentSmall` | fs/xfs/xfs_alloc.c:1492-1571 | with nothing large enough, the longest extent if it reaches minlen, a block of the freelist if there is no extent at all and the freelist may be used, or nothing |
| `AllocSize.LookupLong` | fs/xfs/xfs_alloc.c:1359-1386 | the first extent in by-size order of at least so many blocks: it has them and all before it are shorter; or that there is none |
| `AllocSize.PickBySize` | fs/xfs/xfs_alloc.c:1359-1454 | the extent picked is the first in by-size order that has room for maxlen however it lies or, if there is none, the last of those with the most usable blocks; none is picked only if none reaches minlen aligned |
| `Alloc.VextentSize` | fs/xfs/xfs_alloc.c:1340-1484 | the blocks taken start at the first aligned block of the extent that the search by size settles on (`Picked`), and are as many as it has to use, trimmed by prod and minleft; so with prod at most 1 no aligned place in any extent has more that minleft allows; exactly these leave the free set, and minleft blocks stay; refused without change, and only if no extent reaches minlen aligned or minleft would not be left, and no block of the freelist may serve; it succeeds if there is what must be left and the freelist has the blocks for either side left over (`BySize`) |
| `Alloc.VextentExact` | fs/xfs/xfs_alloc.c:709-803 | the extent starts at the block asked for and is as long as the free blocks in a row from there, trimmed by prod and minleft (`RunAt`); refused only if minlen blocks from there are not all free or minleft would not be left; it succeeds with the freelist supplied for two sides |
| `AllocNear.VextentNear` | fs/xfs/xfs_alloc.c:812-1331 | near a block, through both algorithms: the blocks taken are free, aligned, and exactly these leave the free set; they are as many as the request gets of the extent they are in, trimmed by minleft, and no place there for what it gets is nearer (`NearIn`); refused without change, and only if no extent reaches minlen aligned or minleft would not be left; it succeeds with the freelist supplied for two sides |
| `AllocNear.FirstTry` | fs/xfs/xfs_alloc.c:881-986 | with the cursor in the last leaf of the by-size tree, the extent taken is the best match of that leaf: no entry of the leaf would give the request more blocks, and none as many nearer to the block asked for; of that, as much as minleft allows; it goes on to the second algorithm exactly if no entry of the leaf has minlen aligned |
| `AllocNear.PickNear` | fs/xfs/xfs_alloc.c:988-1268 | of the first extents on either side of the block asked for that have minlen aligned, the one taken gives no farther start than the other, unless the right side is taken and some extent to the left, from the other one on, starts so far away that the search ends there (`SideWins`) |
| `AllocNear.NearMisses` | fs/xfs/xfs_alloc.c:1190-1210 | three extents for which that happens and the farther one is taken |
| `AllocNear.BothTries` | fs/xfs/xfs_alloc.c:881-1331 | the best match of the last leaf if the search by size ends there and an entry of it has enough; in any other case the better one of the extents around the block |
| `AllocNear.ScanLast` | fs/xfs/xfs_alloc.c:909-938 | the scan stops early at a perfect match and still ends at an entry that none from the cursor on beats, neither in length nor at equal length in distance over all aligned places |
| `AllocNear.SearchBoth` | fs/xfs/xfs_alloc.c:1040-1074 | going left and right by turns from the block asked for, it stops at an extent that has minlen aligned, and with both sides exhausted no extent of the tree has |
| `AllocVextent.AgVextent` | fs/xfs/xfs_alloc.c:632-700 | in one group, for any kind of request: exactly the blocks returned leave the group, from its extents or its freelist, and freeblks and the total go along; they are those that a request of its kind gets (`Chosen`: by size, near a block, or at it) whatever prod and minleft are; a request for one block is refused only if minlen blocks from there are not all free, any other only if no extent has room and no block of the freelist may serve; either also where minleft would not be left; a refusal changes nothing; it succeeds with the freelist supplied for the request (`Draw`) |
| `AllocFree.FindGap` | fs/xfs/xfs_alloc.c:1577-1690 | the neighbours that touch a freed extent are found, and an overlap with a free extent is found out exactly when there is one |
| `AllocFree.FreeAgExtent` | fs/xfs/xfs_alloc.c:1577-1845 | exactly the blocks freed come to the free set, joined with what they touch on either side, in both trees alike; it succeeds whenever they are not free yet, the freelist has a block for each level of both trees and each root, and slots for what comes back |
| `AllocRoom.MinFreelist` | fs/xfs/xfs_ag.h:218-227 | a block for each level of both trees and one for each new root, exactly as long as both trees may still grow; never more than two trees of the greatest height |
| `AllocRoom.HopefulIs` | fs/xfs/xfs_alloc.c:1967-1980 | the test of a group by its header agrees with one on the extents themselves: some extent has minlen + alignment + slop - 1 blocks and what the freelist lacks, or one block is asked for and there is one; and there is enough for the freelist, the total and minleft (`Roomy`) |
| `AllocRoom.OnlyFreelist` | fs/xfs/xfs_alloc_btree.c:143-197 | with no extent left, all that the group counts is on the freelist, the trees being single blocks |
| `AllocFreelist.ShrinkOne` | fs/xfs/xfs_alloc.c:1988-1999 | one block of the freelist goes back to the free extents: all blocks and the total stay, freeblks grows by one; it succeeds with more than a block for each level and root on the list |
| `AllocFreelist.Shrink` | fs/xfs/xfs_alloc.c:1985-1999 | the loop ends, though each round may put blocks on the freelist again, because freeblks only grows; the list then is not too long, and nothing was lost; a list that is not too long is left alone |
| `AllocFreelist.PutFree` | fs/xfs/xfs_alloc.c:2180-2230 | a block that is nowhere in the group joins its freelist |
| `AllocFreelist.Grow` | fs/xfs/xfs_alloc.c:2014-2047 | the loop ends, though splits take from the freelist, because freeblks only falls; the list is long enough, and longer only by what the trees gave up, or no extent is left; a list that is long enough is left alone |
| `AllocFreelist.FixFreelist` | fs/xfs/xfs_alloc.c:1879-2051 | the group keeps its blocks and its total; if the group is not locked and the numbers do not wrap, it fits if and only if it is `Roomy`; the list then has at least the length that was the least before, and at most what the trees may have given up beyond; a list of just the least length is left alone, successfully; in freeing it always fits, with a full list or no extent left |
| `AllocFreelist.AllocExtent` | fs/xfs/xfs_alloc.c:2392-2412 | an allocation in one group, freelist included: exactly the blocks returned leave the group, and they are those that a request of its kind gets of what there is, freelist seen to (`BestChoice`); with numbers that do not wrap, a group that is not `Roomy` refuses, and one that is refuses only if for one block minlen blocks from there are not all free, for others no extent has room and the freelist may not serve, or minleft would not be left; from a list of the least length (`Trim`), trees that may still grow and no alignment, it succeeds |
| `AllocFreelist.FreeExtent` | fs/xfs/xfs_alloc.c:2566-2594 | a free in one group, freelist included: exactly the blocks given come to it; from a list of the least length and trees that may still grow it succeeds |
| `AllocFreelist.Step` | fs/xfs/xfs_alloc.c:2349-2594 | one operation: a free gives back its blocks if they are in use, else nothing; an allocation moves nothing or just the extent that answers the request and is what it gets of the group (`Best`), and was free; with numbers that do not wrap, a `Roomy` group refuses only if it cannot meet the request, and any other refuses; every block stays either in use or free, never both, and freeblks + flcount + btreeblks + blocks in use the same; from a list of the least length every free, and every allocation for any place without alignment, succeeds |
| `AllocFreelist.Run` | fs/xfs/xfs_alloc.c:2349-2594 | over every run of allocations and frees nothing is lost and the counters add up; the sets of blocks in use between the operations (`Trace`) go from one to the next as each operation says, from the blocks in use before to those after |
| `AllocFreelist.GivenBack` | fs/xfs/xfs_alloc.c:2566-2594 | in a run a block goes out of use only by a free of an extent with it |
| `AllocFreelist.GivenOut` | fs/xfs/xfs_alloc.c:2349-2562 | in a run a block comes into use only in an extent that answers an allocation and had no block in use |
| `AllocFreelist.NeverTwice` | fs/xfs/xfs_alloc.c:2349-2594 | no block is given out twice unless it is given back in between |
| `AllocFreelist.Indexes` | fs/xfs/xfs_alloc_btree.c:143-197 | at every moment of a run both trees hold the same extents, each sorted by its own key, apart and never adjacent; freeblks is the sum of their lengths and agf_longest the greatest |
| `AllocRotor.Rotate` | fs/xfs/xfs_alloc.c:2437-2527 | the tries are those of three passes in order (`Turns`): in each the groups from the first one round, without waiting in the first pass, with minleft kept in the first two; with FirstAg from the second pass and the group given on; it ends at the first success, and gives up only at the end of the third pass; with firstblock set never a group below the first |
| `AllocRotor.MinleftLast` | fs/xfs/xfs_alloc.c:2437-2527 | a group is tried without minleft only after every group was tried waiting with minleft kept, but with FirstAg if and only if that is not below the group given |
| `AllocRotor.WaitingLast` | fs/xfs/xfs_alloc.c:2437-2527 | and waiting only after every group was tried without |
| `ExtentMap.SpliceMap` | fs/xfs/xfs_bmap.c:1297-1850 | replacing extents by others of the same range changes the offset-to-block map there alone |
| `ExtentMap.SpliceWf` | fs/xfs/xfs_bmap.c:1297-1850 | and keeps the list sorted, disjoint and within MAXEXTLEN |
| `ExtentMap.SpliceReals` | fs/xfs/xfs_bmap.c:1297-1850 | and the extents with blocks, which the btree holds, are replaced accordingly |
| `BmapFork.SearchExtents` | fs/xfs/xfs_bmap.c:3701-3785 | the extent that has an offset, or the next one, or end of file |
| `BmapConvert.AddExtentUnwrittenReal` | fs/xfs/xfs_bmap.c:1297-1850 | all nine cases: the state changes on exactly the given range and no block of the map does; the list has the extent replaced by what is left of it and the converted part, joined with the neighbours it joins (`Recut`), is well formed, and di_nextents right; the btree agrees with the list if and only if the case is not the one that forgets the state |
| `BmapConvert.JoinsAll` | fs/xfs/xfs_bmap.c:1362-1393 | a neighbour is left apart only if it does not follow on in file and on disk, or has the other state, or would make the extent longer than MAXEXTLEN |
| `BmapConvert.Possible` | fs/xfs/xfs_bmap.c:1817-1827 | a neighbour joins only at an end that is filled, so the seven impossible combinations do not occur |
| `BmapConvert.ForgetsExample` | fs/xfs/xfs_bmap.c:1732-1747 | a concrete conversion after which btree and list disagree |
| `BmapIndlen.WorstIndlen` | fs/xfs/xfs_bmap.c:3944-3968 | the early return included, the worst case is the sum of the ceiling divisions of all levels |
| `BmapIndlen.LevelsMono` | fs/xfs/xfs_bmap.c:3944-3968 | it is monotone |
| `BmapIndlen.LevelsAdd` | fs/xfs/xfs_bmap.c:3944-3968 | it is subadditive |
| `BmapIndlen.WorstMerged` | fs/xfs/xfs_bmap.c:1928-2019 | so merged delayed extents need no more than they held |
| `BmapDelay.AddExtentHoleDelay` | fs/xfs/xfs_bmap.c:1858-2039 | the range becomes delayed and nothing else changes; the list has one extent in place of it and the delayed neighbours it joins (`Merged`), with just its worst case reserved if it joins any, and a neighbour is left apart only if it would get too long; the free count and the reservations together grow by exactly the new reservation, and nothing more has to be reserved when each extent held its worst case |
| `BmapUnmap.FreeItems.Add` | fs/xfs/xfs_bmap.c:4149-4189 | the list of blocks to free stays sorted and gets exactly these blocks |
| `BmapUnmap.DelExtent` | fs/xfs/xfs_bmap.c:3094-3418 | a whole extent, an end or a middle part goes: exactly that range leaves the map, its blocks go on the list to free once each, di_nextents and btree follow; what is left of a delayed extent keeps the least of what it had and its worst case, two parts giving up what there is not in turn (`Keeps`), and the rest is freed; it still holds its worst case but where its middle goes and both ends need more together |
| `BmapUnmap.MiddleMisses` | fs/xfs/xfs_bmap.c:3349-3372 | a delayed extent of three blocks that held its worst case and does not without its middle one |
| `BmapUnmap.Bunmapi` | fs/xfs/xfs_bmap.c:5428-5806 | exactly the range from the stopping point to the end leaves the map, its blocks are listed once each; done only if nothing is left in the range, always so with nexts 0; of the old list at most nexts extents are touched, just those with offsets from the stopping point on, and it stops before it is done only after exactly nexts; reservations and free blocks balance, and delayed extents that held their worst case still do if and only if both ends of one that has the range in its middle need no more (`AllFit`); the backward walk survives deletes, trims and splits |
| `BmapRead.Bmapi` | fs/xfs/xfs_bmap.c:5156-5299 | the pieces tile the range in order from bno, tell hole, delayed or block + offset rightly at every offset, and no two neighbours could be one (`Parted`); they cover it all, or the output is full and they end where an extent starts or ends |
| `BmapRead.BmapiSingle` | fs/xfs/xfs_bmap.c:5376-5419 | the block at an offset that is not delayed, or that there is none |
| `BmapRead.BothWays` | fs/xfs/xfs_bmap.c:5376-5419 | it agrees with the general form |
| `BmapRecord.UnpackPack` | fs/xfs/xfs_bmap_btree.c:103-342 | the four fields packed in 128 bits come out again |
| `BmapRecord.PutCount` | fs/xfs/xfs_bmap_btree.c:360-367 | setting the block count leaves the other fields |
| `BmapRecord.PutBlock` | fs/xfs/xfs_bmap_btree.c:373-395 | setting the start block, split over both words, leaves the other fields |
| `BmapRecord.PutOff` | fs/xfs/xfs_bmap_btree.c:401-409 | setting the offset leaves the other fields |
| `BmapRecord.PutFlag` | fs/xfs/xfs_bmap_btree.c:415-424 | setting the state leaves the other fields |
| `BmapRecord.PackedRec.SetAllf` | fs/xfs/xfs_bmap_btree.c:240-279 | a record set reads back as what was set |
| `BmapRecord.PackedRec.SetState` | fs/xfs/xfs_bmap_btree.c:415-424 | the record in place gets the state, and its other three fields read as before |
| `BmapRecord.PackedRec.SetStartoff` | fs/xfs/xfs_bmap_btree.c:401-409 | the same of the offset |
| `BmapRecord.PackedRec.SetStartblock` | fs/xfs/xfs_bmap_btree.c:373-395 | the same of the start block |
| `BmapRecord.PackedRec.SetBlockcount` | fs/xfs/xfs_bmap_btree.c:360-367 | the record in place gets the block count, and its other three fields read as before |
| `DaHash.HashName` | fs/xfs/xfs_da_btree.c:1506-1531 | hashing four characters at a time gives the hash character by character |
| `DaLookup.Probe` | fs/xfs/xfs_attr_leaf.c:1930-1966 | the halving probe stays in bounds and, with the steps after it, finds the first hash not below the one looked for |
| `DaLookup.LeafLookup` | fs/xfs/xfs_attr_leaf.c:1917-2015 | the first entry of a leaf that matches name, namespace and INCOMPLETE flag, or where one would go |
| `DaLookup.Descend` | fs/xfs/xfs_da_btree.c:1049-1133 | the path down picks in every node the first entry not below the hash |
| `DaLookup.PathShift` | fs/xfs/xfs_da_btree.c:1398-1493 | the path moves to the next leaf in order, or there is none |
| `DaLookup.NodeLookup` | fs/xfs/xfs_da_btree.c:1049-1181 | the lookup over a tree of any depth, with equal hashes over any number of leaves, ends where a linear search of all entries of all leaves ends: it finds an entry if and only if some leaf has one; the index is an entry of the leaf returned, or a place to insert in it |
| `AttrSteps.Lookup` | fs/xfs/xfs_attr.c:1258-1283 | the same lookup over the leaves of a fork that changes |
| `AttrSteps.LocalMost` | fs/xfs/xfs_attr_leaf.h:193-205 | a value is kept in the leaf just if name, value and seven bytes are within three quarters of the block |
| `AttrSteps.LeafAdd` | fs/xfs/xfs_attr_leaf.c:1001-1188 | the new entry, INCOMPLETE in a rename, goes in at its place; the old one's place is tracked |
| `AttrSteps.SplitAdd` | fs/xfs/xfs_attr_leaf.c:949-995 | after a leaf is split, both places are tracked to the leaf they went to |
| `AttrFlags.LeafRemove` | fs/xfs/xfs_attr_leaf.c:1651-1803 | exactly the entry at the place goes, and a leaf left empty |
| `AttrFlags.JoinLeaves` | fs/xfs/xfs_attr_leaf.c:1809-1897 | two neighbouring leaves become one under the number that stays, and the sequence of entries is as it was |
| `AttrRemote.RmtvalSet` | fs/xfs/xfs_attr.c:2035-2163 | the blocks named then hold the value, over any allocation in pieces, and no committed state shows anything of it yet; there is one for each extent got (`Rounds`) and one for each block written |
| `AttrRemote.RmtvalRemove` | fs/xfs/xfs_attr.c:2170-2265 | exactly the value's blocks are freed, a transaction for each extent (`Rounds`), and no committed state changes what is seen |
| `AttrReplace.FlipFlags` | fs/xfs/xfs_attr_leaf.c:2559-2664 | in one transaction the new entry becomes complete and the old one INCOMPLETE |
| `AttrReplace.ClearFlag` | fs/xfs/xfs_attr_leaf.c:2439-2502 | the new entry becomes complete |
| `AttrReplace.SetFlag` | fs/xfs/xfs_attr_leaf.c:2508-2549 | an entry is hidden before its value goes |
| `AttrReplace.SetEntry` | fs/xfs/xfs_attr.c:1302-1476 | all transactions of a set: every state a crash may show is the old one up to one moment and from then on the old one with the old value replaced by the new; at the end the entry is in its place, complete, of the old one, made incomplete, one incomplete entry has gone, and the blocks in use are the old ones less those of the old value and with those of the new one (`Stored`) |
| `AttrReplace.NodeAddName` | fs/xfs/xfs_attr.c:1241-1494 | set in node format, the lookup and the create and replace flags included, with the entries and blocks left by it (`Stored`); refusals change nothing |
| `AttrReplace.LeafAddName` | fs/xfs/xfs_attr.c:910-1099 | set in leaf format, a full leaf becoming a tree first; the same of entries and blocks |
| `AttrReplace.RemoveName` | fs/xfs/xfs_attr.c:1504-1665 | remove, a remote value first: seen as it was up to one moment and gone from then on; just the first complete entry of the name and its blocks are gone (`Unstored`) |
| `AttrStored.ReplacesOne` | fs/xfs/xfs_attr.c:1379-1480 | a replace leaves as many entries as there were, and as many incomplete ones of each name; the old entry itself goes if and only if, in a tree, no incomplete entry of its name comes before it |
| `AttrStored.ReplaceMisses` | fs/xfs/xfs_attr.c:1418-1432 | a name left incomplete by a crash before a complete entry of it: the replace removes the first |
| `AttrReplace.OneEntry` | fs/xfs/xfs_attr.c:1000-1090 | so a name with one complete entry has exactly one in every committed state, its value wholly the old one and then wholly the new one, and every other name is as it was |
| `Bits.NextBit` | fs/xfs/xfs_bit.c:90-120 | the least bit set at the start or after it, over words, or -1 |
| `Bits.ContigBits` | fs/xfs/xfs_bit.c:51-80 | how many bits are set from the start on without a gap |
| `Bits.MaskBit` | fs/xfs/xfs_buf_item.c:828-852 | the shifted mask has exactly the bits of its range |
| `BufItem.LogItem.constructor` | fs/xfs/xfs_buf_item.c:695-735 | a clean bitmap with a bit for every chunk |
| `BufItem.LogItem.Log` | fs/xfs/xfs_buf_item.c:776-858 | the chunks from the first to the last byte get their bits and no other bit changes; so after any series of calls the bitmap is exactly the chunks with a logged byte |
| `BufItem.LogItem.Size` | fs/xfs/xfs_buf_item.c:152-211 | the number of vectors is one and one for each stretch of dirty chunks that can be read as one in memory; a stale buffer has one |
| `BufItem.LogItem.FillVectors` | fs/xfs/xfs_buf_item.c:220-340 | the vectors filled are as many, within an array of that size, one for each stretch in order; the size noted for recovery counts runs of chunks instead |
| `BufSegs.SegsTile` | fs/xfs/xfs_buf_item.c:220-340 | the stretches are ordered, disjoint and hold exactly the dirty chunks |
| `BufRecover.VectorBytes` | fs/xfs/linux-2.6/xfs_buf.c:1281-1293 | each vector reads the bytes of its chunks, wherever the pages of the buffer lie |
| `BufRecover.RecoverBuffer` | fs/xfs/xfs_log_recover.c:1884-1939 | recovery uses up all regions and puts each in its place: the image is the old one with the dirty chunks of the new |
| `BufRecover.Handover` | fs/xfs/xfs_buf_item.c:220-340 | what is logged is what recovery expects if and only if no boundary in memory lies inside a run of dirty chunks |
| `BufRecover.HandoverMisses` | fs/xfs/xfs_buf_item.c:220-340 | a buffer in two pages, dirty on both sides of the boundary, for which it is not |
| `BufRecover.Replay` | fs/xfs/xfs_buf_item.c:110-132 | if all changed bytes were logged, replay over the old image gives the new one |
| `BufRecover.SizeCounts` | fs/xfs/xfs_buf_item.c:308-328 | the size noted for recovery is the number of vectors if and only if no such boundary is there |
| `BufRecover.SizeMisses` | fs/xfs/xfs_buf_item.c:317-321 | a buffer in two pages for which it is not |
| `Acl.Access` | fs/xfs/xfs_acl.c:381-478 | for every valid list in any order of entries, the one pass grants exactly what the declarative check of POSIX 1003.1e section 23.1 grants |
| `Acl.Invalid` | fs/xfs/xfs_acl.c:485-538 | accepts exactly the lists with at most 25 entries of known kinds, one each for owner, group and others, at most one mask, no user or group twice, and a mask if any is named |
| `AclMode.SetMode` | fs/xfs/xfs_acl.c:711-762 | the mode that goes with a list, and whether the list says no more than a mode can |
| `AclMode.SyncMode` | fs/xfs/xfs_acl.c:796-830 | the entries shared with the mode take over its bits, all others stay |
| `AclMode.FilterMode` | fs/xfs/xfs_acl.c:840-874 | the entries shared with the mode keep what the mode gives too |
| `AclLaws.FilterMeets` | fs/xfs/xfs_acl.c:833-839 | a filtered list grants exactly what both the list and the bits of the mode for the class of the one who asks grant |
| `AclLaws.SyncMeets` | fs/xfs/xfs_acl.c:767-786 | after a change of mode the owner and the others have exactly what the mode says, the rest have it under the mask |
| `AclLaws.ModeKept` | fs/xfs/xfs_acl.c:711-830 | a mode put into a valid list comes out again |
| `AclLaws.ListKept` | fs/xfs/xfs_acl.c:711-830 | a valid list put into a mode comes out again if and only if its shared entries have no more than three permission bits, which nothing checks |
| `AclLaws.ListKeptMisses` | fs/xfs/xfs_acl.c:711-830 | a valid list with a fourth bit for its owner, which does not come out again, whatever the mode before |
| `AclLaws.TakenValid` | fs/xfs/xfs_acl.c:796-874 | neither makes a valid list invalid |

## Left out

- Btrees.Btree.constructor: requires at least four records and entries a block; the smallest block size of the file system gives 41.
- The btree variant with its root in the inode: the resizing code is not part of this model.
- BtreeInsert.Insert: the buffer, transaction and tracing calls around each block are left out, and so are the debug checks.
- BtreeDelete.Delete: the freelist must have a slot for a block of every level, which the freelist's size guarantees in the source.
- FreeLists.FreeList.Put: requires a free slot, where the source would overwrite the oldest block; the operations above check for one and return false.
- AllocFixup.FixupTrees: the length shown to suffice (`Needs`) and the one shown not to (`RunsOut`) leave a range between, where `Due` decides for each insertion; the order of full and roomy blocks that meets it is not spelled out for the whole step.
- Alloc.VextentSize: what is left over is stated for minleft up to 2^31; above, the unsigned difference wraps and nothing is checked.
- Alloc.VextentExact: the same.
- AllocNear.VextentNear: the same of minleft. The search is a heuristic and may miss the nearest or longest extent of the group; which extent is taken is said by BothTries. The random skipping of the first algorithm in debug builds is left out.
- AllocNear.ScanLast: which of equally good matches is taken is not said.
- AllocNear.PickNear: which of the two sides is found first is not said, so where the search to the left may be cut off either side is allowed.
- AllocVextent.AgVextent: the same of minleft; the counts of the per-group and superblock caches are left out.
- AllocFreelist.AllocExtent: success is promised from a freelist of the least length for requests without alignment and not for a given block; others may leave two extents behind.
- AllocFreelist.Shrink: success is promised where nothing has to be done, and for one block by ShrinkOne; a round may add levels for which the list, computed before, is too short.
- AllocFreelist.Grow: the same.
- AllocFreelist.Run: success of a whole run is not promised, because the need of the freelist is computed before the operation that may add levels; Step promises it for one operation.
- The list of busy extents, which is about the order of log records.
- AllocFreelist.FixFreelist: the list may come out longer than the least length, by what the trees gave up in the last round; the bound on that is a block for each level and two. The preference for metadata groups and the reading of headers are one parameter, whether the group is busy; the group's cached counters are the header's.
- AllocRotor.Rotate: the outcome of each try is a parameter, and the rotor's own stepping is left out.
- BmapFork.Bmbt: the extent btree is a sequence with the cursor contract proved for the generic tree, not the tree itself, whose records there are those of free space.
- The allocation of delayed extents and of holes as real ones (`xfs_bmap_add_extent_delay_real`, `xfs_bmap_add_extent_hole_real`): the case split of the conversion again, with the reservations of the delayed case.
- BmapConvert.AddExtentUnwrittenReal: the change report and the log flags are left out.
- BmapDelay.AddExtentHoleDelay: the 17 bits of an indirect length in the record are not modelled.
- BmapUnmap.Bunmapi: realtime files, quota, the attribute fork's own conversions and the exits for missing reservations are left out.
- BmapRead.Bmapi: the writing path and the flag to return whole extents are left out.
- Block placement (`xfs_bmap_btalloc`, `xfs_bmap_adjacent`, file streams, stripes): heuristics.
- DaLookup.NodeLookup: the tree is a value; changing the inner nodes (their split, join and hash paths) is left out, the chain of leaves and their numbers is what changes.
- AttrSteps.SplitAdd: how many entries a split moves is a parameter with the conditions the balancing code guarantees; a leaf split twice, which loses the tracked old place, is refused.
- AttrFlags.LeafRemove: the name area and the free map of a leaf are left out; a leaf is its sequence of entries.
- AttrRemote.RmtvalSet: the hole for a value is a parameter, with the contract of the search for unused space; values are written block by block.
- AttrReplace.LeafAddName: the short form and the conversions from and to it are left out; its replace is not atomic in the source.
- AttrReplace.NodeAddName: errors of input and output are left out, and a fork of one leaf with remote values that is full becomes a tree under the same contract as any split.
- BufItem.LogItem.Size: the buffer must be whole chunks, as all buffers of whole sectors are.
- BufRecover.RecoverBuffer: cancelled buffers, inode buffers and the check of quota blocks are left out.
- Acl.Access: the capability check that may follow a refusal is left out, and so are lists on disk and their byte order.
