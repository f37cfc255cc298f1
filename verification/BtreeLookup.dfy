/** Looking up and updating records. */
module BtreeLookup {
  import opened Records
  import opened Levels
  import opened FreeLists
  import opened Btrees
  import opened BtreeShift
  import opened BtreeInsert

  /** The record wanted: the last not greater, the equal one, or the first not smaller. */
  datatype Dir = LE | EQ | GE

  /** The difference of entry i to the record looked up. */
  ghost function DiffAt(kind: Kind, es: seq<Entry>, i: nat, rec: Rec): int
    requires i < |es|
  {
    KeyDiff(kind, es[i].key, rec)
  }

  ghost predicate AllLess(kind: Kind, es: seq<Entry>, lo: int, hi: int, rec: Rec) {
    forall i :: 0 <= i < |es| && lo <= i < hi ==> DiffAt(kind, es, i, rec) < 0
  }

  ghost predicate AllMore(kind: Kind, es: seq<Entry>, lo: int, hi: int, rec: Rec) {
    forall i :: 0 <= i < |es| && lo <= i < hi ==> DiffAt(kind, es, i, rec) > 0
  }

  ghost predicate SortedEnts(kind: Kind, es: seq<Entry>) {
    forall i, j :: 0 <= i < j < |es| ==> Before(kind, es[i].key, es[j].key)
  }

  /**
   * In order up to some place: what is before a smaller or equal entry is smaller, what follows a greater or equal
   * one greater.
   */
  lemma Around(kind: Kind, es: seq<Entry>, j: nat, rec: Rec)
    requires SortedEnts(kind, es) && j < |es|
    ensures DiffAt(kind, es, j, rec) <= 0 ==> AllLess(kind, es, 0, j, rec)
    ensures DiffAt(kind, es, j, rec) >= 0 ==> AllMore(kind, es, j + 1, |es|, rec)
  {
    forall i | 0 <= i < j ensures Before(kind, es[i].key, es[j].key) {
    }
    forall i | j < i < |es| ensures Before(kind, es[j].key, es[i].key) {
    }
  }

  /**
   * The halving search of one block, 1-based: the equal entry, or else the last smaller or the first greater
   * one, as the search happens to end.
   */
  method SearchBlock(kind: Kind, es: seq<Entry>, rec: Rec) returns (keyno: nat, diff: int)
    requires es != [] && SortedEnts(kind, es)
    ensures 1 <= keyno <= |es| && diff == KeyDiff(kind, es[keyno - 1].key, rec)
    ensures AllLess(kind, es, 0, keyno - 1, rec)
    ensures AllMore(kind, es, keyno, |es|, rec)
  {
    var low, high := 1, |es|;
    keyno, diff := 0, 1;
    while low <= high
      invariant 1 <= low <= high + 1 <= |es| + 1
      invariant AllLess(kind, es, 0, low - 1, rec) && AllMore(kind, es, high, |es|, rec)
      invariant keyno == 0 ==> low == 1 && high == |es|
      invariant keyno > 0 ==> keyno <= |es| && diff == KeyDiff(kind, es[keyno - 1].key, rec)
      invariant keyno > 0 ==> if diff < 0 then low == keyno + 1 else diff > 0 && high == keyno - 1
      decreases high - low + 1
    {
      keyno := (low + high) / 2;
      diff := KeyDiff(kind, es[keyno - 1].key, rec);
      Around(kind, es, keyno - 1, rec);
      assert diff == DiffAt(kind, es, keyno - 1, rec);
      if diff < 0 {
        low := keyno + 1;
      } else if diff > 0 {
        high := keyno - 1;
      } else {
        break;
      }
    }
  }

  /** What the way down to block c of a level has found out, diff being the last difference. */
  ghost predicate Narrowed(kind: Kind, lv: Level, c: nat, diff: int, rec: Rec) {
    && c < |lv| && lv[c].ents != []
    && Off(lv, c) < |Flat(lv)|
    && (if diff == 0 then DiffAt(kind, Flat(lv), Off(lv, c), rec) == 0
        else
          && (c > 0 ==> DiffAt(kind, Flat(lv), Off(lv, c), rec) <= 0)
          && AllMore(kind, Flat(lv), Off(lv, c) + |lv[c].ents|, |Flat(lv)|, rec))
  }

  /** Entry j divides the level: smaller entries before it, greater ones after it. */
  ghost predicate Divides(kind: Kind, es: seq<Entry>, j: int, diff: int, rec: Rec) {
    && 0 <= j < |es| && diff == DiffAt(kind, es, j, rec)
    && AllLess(kind, es, 0, j, rec) && AllMore(kind, es, j + 1, |es|, rec)
  }

  lemma BlockSorted(kind: Kind, lv: Level, c: nat)
    requires c < |lv| && SortedEnts(kind, Flat(lv))
    ensures SortedEnts(kind, lv[c].ents)
  {
    forall i, j | 0 <= i < j < |lv[c].ents| ensures Before(kind, lv[c].ents[i].key, lv[c].ents[j].key) {
      FlatIndex(lv, c, i);
      FlatIndex(lv, c, j);
      assert Before(kind, Flat(lv)[Off(lv, c) + i].key, Flat(lv)[Off(lv, c) + j].key);
    }
  }

  /** A search of block c divides the whole level. */
  lemma BlockDivides(kind: Kind, lv: Level, c: nat, diff0: int, keyno: nat, diff: int, rec: Rec)
    requires SortedEnts(kind, Flat(lv)) && Narrowed(kind, lv, c, diff0, rec)
    requires 1 <= keyno <= |lv[c].ents| && diff == KeyDiff(kind, lv[c].ents[keyno - 1].key, rec)
    requires if diff0 == 0 then keyno == 1
             else AllLess(kind, lv[c].ents, 0, keyno - 1, rec) && AllMore(kind, lv[c].ents, keyno, |lv[c].ents|, rec)
    ensures Divides(kind, Flat(lv), Off(lv, c) + keyno - 1, diff, rec)
    ensures diff0 == 0 ==> diff == 0
    ensures diff > 0 && keyno == 1 ==> c == 0
  {
    hide Flat, Off, KeyDiff, SortedEnts;
    var es, off, n := Flat(lv), Off(lv, c), |lv[c].ents|;
    FlatIndex(lv, c, keyno - 1);
    if diff0 == 0 {
      Around(kind, es, off, rec);
    } else {
      if c > 0 {
        Around(kind, es, off, rec);
      } else {
        OffFull(lv);
      }
      forall i | 0 <= i < |es| && i < off + keyno - 1 ensures DiffAt(kind, es, i, rec) < 0 {
        if i >= off {
          FlatIndex(lv, c, i - off);
          assert DiffAt(kind, lv[c].ents, i - off, rec) < 0;
        }
      }
      forall i | off + keyno <= i < |es| ensures DiffAt(kind, es, i, rec) > 0 {
        if i < off + n {
          FlatIndex(lv, c, i - off);
          assert DiffAt(kind, lv[c].ents, i - off, rec) > 0;
        }
      }
    }
  }

  /** The child to go to: the entry found, or the one before it if that is greater, unless there is none. */
  lemma DownNarrowed(kind: Kind, up: Level, lo: Level, j: nat, diff: int, k: nat, rec: Rec)
    requires Linked(up, lo) && SortedEnts(kind, Flat(up)) && SortedEnts(kind, Flat(lo)) && Divides(kind, Flat(up), j, diff, rec)
    requires k == if diff > 0 && j > 0 then j - 1 else j
    ensures Narrowed(kind, lo, k, diff, rec)
  {
    hide SortedEnts, KeyDiff, Off, Flat;
    var eu, el := Flat(up), Flat(lo);
    FlatIndex(lo, k, 0);
    assert el[Off(lo, k)] == lo[k].ents[0];
    assert k > 0 ==> DiffAt(kind, eu, k, rec) <= 0;
    assert DiffAt(kind, el, Off(lo, k), rec) == DiffAt(kind, eu, k, rec);
    FlatAt(lo, k);
    if diff != 0 && k + 1 < |lo| {
      FlatIndex(lo, k + 1, 0);
      assert DiffAt(kind, eu, k + 1, rec) > 0;
      assert DiffAt(kind, el, Off(lo, k + 1), rec) > 0;
      Around(kind, el, Off(lo, k + 1), rec);
    } else if k + 1 == |lo| {
      OffFull(lo);
    }
  }

  /** Keys in order at one level are in order at the level above. */
  lemma SortedUp(kind: Kind, up: Level, lo: Level)
    requires Linked(up, lo) && SortedEnts(kind, Flat(lo))
    ensures SortedEnts(kind, Flat(up))
  {
    forall i, j | 0 <= i < j < |Flat(up)| ensures Before(kind, Flat(up)[i].key, Flat(up)[j].key) {
      FlatIndex(lo, i, 0);
      FlatIndex(lo, j, 0);
      OffMono(lo, i, j);
    }
  }

  lemma {:induction false} SortedLevels(kind: Kind, lv: seq<Level>, l: nat)
    requires l < |lv| && LinksFrom(lv, 0) && SortedEnts(kind, Flat(lv[0]))
    ensures SortedEnts(kind, Flat(lv[l]))
  {
    if l > 0 {
      SortedLevels(kind, lv, l - 1);
      assert LinkAt(lv, l);
      SortedUp(kind, lv[l], lv[l - 1]);
    }
  }

  /** Search the block the way down has come to; the entry found divides the level. */
  method SearchLevel(t: Btree, block: Block, rec: Rec, diff0: int, ghost l: nat, ghost c: nat)
    returns (keyno: nat, diff: int)
    requires l < |t.lv| && c < |t.lv[l]| && block.ents == t.lv[l][c].ents
    requires SortedEnts(t.kind, Flat(t.lv[l])) && Narrowed(t.kind, t.lv[l], c, diff0, rec)
    ensures 1 <= keyno <= |block.ents|
    ensures Divides(t.kind, Flat(t.lv[l]), Off(t.lv[l], c) + keyno - 1, diff, rec)
    ensures diff0 == 0 ==> keyno == 1
    ensures diff > 0 && keyno == 1 ==> c == 0
  {
    BlockSorted(t.kind, t.lv[l], c);
    if diff0 == 0 {
      // a key matched above: the first entry is the one
      keyno := 1;
      diff := KeyDiff(t.kind, block.ents[0].key, rec);
    } else {
      keyno, diff := SearchBlock(t.kind, block.ents, rec);
    }
    BlockDivides(t.kind, t.lv[l], c, diff0, keyno, diff, rec);
  }

  /** The outcome of a lookup, as a statement about the records: at is the number before the cursor. */
  ghost predicate Found(kind: Kind, dir: Dir, recs: seq<Rec>, rec: Rec, at: int, stat: bool) {
    if dir == LE then
      && -1 <= at < |recs|
      && (forall i :: 0 <= i < |recs| && i <= at ==> KeyDiff(kind, recs[i], rec) <= 0)
      && (forall i :: 0 <= i < |recs| && i > at ==> KeyDiff(kind, recs[i], rec) > 0)
      && stat == (at >= 0)
    else
      && 0 <= at <= |recs|
      && (forall i :: 0 <= i < |recs| && i < at ==> KeyDiff(kind, recs[i], rec) < 0)
      && (forall i :: 0 <= i < |recs| && i >= at ==> KeyDiff(kind, recs[i], rec) >= 0)
      && stat == (at < |recs| && (dir == EQ ==> KeyDiff(kind, recs[at], rec) == 0))
  }

  /** From the entry that divides the leaves to the outcome. */
  lemma DividesFound(kind: Kind, dir: Dir, es: seq<Entry>, j: int, diff: int, rec: Rec, at: int, stat: bool)
    requires Divides(kind, es, j, diff, rec)
    requires at == if dir == LE then (if diff > 0 then j - 1 else j) else (if diff < 0 then j + 1 else j)
    requires stat == if dir == LE then at >= 0 else at < |es| && (dir == EQ ==> diff == 0)
    ensures Found(kind, dir, Keys(es), rec, at, stat)
  {
    assert forall i :: 0 <= i < |es| ==> KeyDiff(kind, Keys(es)[i], rec) == DiffAt(kind, es, i, rec);
    assert dir == EQ && diff < 0 && j + 1 < |es| ==> DiffAt(kind, es, j + 1, rec) > 0;
  }

  /** One level of the way down: search the block, set the cursor's entry, and go to the child. */
  method LookupDown(t: Btree, cur: Cursor, level: nat, diff0: int) returns (diff: int)
    requires t.Core() && 0 < level < t.nlevels && LinksFrom(t.lv, 0) && cur.On(t.lv, level)
    requires SortedEnts(t.kind, Flat(t.lv[level])) && SortedEnts(t.kind, Flat(t.lv[level - 1]))
    requires cur.pos[level] < |t.lv[level]| && Narrowed(t.kind, t.lv[level], cur.pos[level], diff0, cur.rec)
    modifies cur
    ensures cur.On(t.lv, level - 1) && cur.rec == old(cur.rec)
    ensures cur.pos[level - 1] < |t.lv[level - 1]|
    ensures Narrowed(t.kind, t.lv[level - 1], cur.pos[level - 1], diff, cur.rec)
  {
    hide AllTied, Stores, FreeList.Valid, Flat, Off;
    ghost var c := cur.pos[level];
    assert AtBlk(t.lv, cur.bufs, cur.pos, level) && LinkAt(t.lv, level);
    OffFull(t.lv[level]);
    var block := t.ReadBlock(cur.bufs[level], level, c);
    var keyno;
    keyno, diff := SearchLevel(t, block, cur.rec, diff0, level, c);
    ghost var j := Off(t.lv[level], c) + keyno - 1;
    if diff > 0 {
      keyno := keyno - 1;
      if keyno < 1 {
        keyno := 1;
      }
    }
    ghost var k := Off(t.lv[level], c) + keyno - 1;
    DownNarrowed(t.kind, t.lv[level], t.lv[level - 1], j, diff, k, cur.rec);
    var pp := block.ents[keyno - 1].child;
    FollowChild(t.lv, cur, level, keyno, pp, k);
  }

  /** Set the cursor's entry at a level and its block at the one below. */
  method FollowChild(ghost lv: seq<Level>, cur: Cursor, level: nat, keyno: nat, pp: Ptr, ghost k: nat)
    requires 0 < level < |lv| && cur.On(lv, level) && ChildLinkAt(lv, level)
    requires Points(lv[level], cur.pos[level], keyno, k) && pp == lv[level][cur.pos[level]].ents[keyno - 1].child
    modifies cur
    ensures cur.On(lv, level - 1) && cur.rec == old(cur.rec) && cur.pos[level - 1] == k < |lv[level - 1]|
  {
    ghost var bufs, ptrs, pos := cur.bufs, cur.ptrs, cur.pos;
    ChildOf(lv, level, pos[level], keyno, k);
    PathSetPtr(lv, bufs, ptrs, pos, level, keyno);
    Descend(lv, bufs, ptrs[level := keyno], pos, level, k, ptrs[level - 1]);
    cur.bufs, cur.ptrs, cur.pos := cur.bufs[level - 1 := pp], cur.ptrs[level := keyno], cur.pos[level - 1 := k];
    PathSame(lv, bufs[level - 1 := pp], ptrs[level := keyno][level - 1 := ptrs[level - 1]], pos[level - 1 := k],
             cur.bufs, cur.ptrs, cur.pos, level - 1);
  }

  lemma BlockEnd(lv: Level, c: nat)
    requires c < |lv|
    ensures Off(lv, c) + |lv[c].ents| <= |Flat(lv)|
    ensures c + 1 == |lv| ==> Off(lv, c) + |lv[c].ents| == |Flat(lv)|
    ensures c == 0 ==> Off(lv, c) == 0
  {
    FlatAt(lv, c);
    OffFull(lv);
  }

  /** On to the first entry of the next leaf. */
  method GoRight(t: Btree, cur: Cursor)
    requires t.Valid() && cur.On(t.lv, 0) && cur.pos[0] + 1 < |t.lv[0]|
    modifies cur
    ensures cur.On(t.lv, 0) && cur.rec == old(cur.rec) && cur.pos[0] == old(cur.pos[0]) + 1 && cur.ptrs[0] == 1
    ensures |t.lv[0][cur.pos[0]].ents| > 0
    ensures cur.At(t.lv, 0) == Off(t.lv[0], old(cur.pos[0])) + |t.lv[0][old(cur.pos[0])].ents| < |Flat(t.lv[0])|
  {
    ghost var c := cur.pos[0];
    LinksChild(t.lv, 0);
    NextBlock(t, cur, 0);
    assert LinkAt(t.lv, 1);
    FlatAt(t.lv[0], c);
    FlatIndex(t.lv[0], c + 1, 0);
  }

  /** The search of the leaf and the adjustment of its result. */
  method LookupLeaf(t: Btree, cur: Cursor, dir: Dir, diff0: int) returns (stat: bool)
    requires t.Valid() && Sorted(t.kind, t.Recs()) && cur.On(t.lv, 0)
    requires cur.pos[0] < |t.lv[0]| && Narrowed(t.kind, t.lv[0], cur.pos[0], diff0, cur.rec)
    modifies cur
    ensures cur.On(t.lv, 0) && cur.rec == old(cur.rec) && cur.pos[0] < |t.lv[0]|
    ensures 0 <= cur.ptrs[0] <= |t.lv[0][cur.pos[0]].ents| + 1 && (dir != LE ==> cur.ptrs[0] >= 1)
    ensures stat ==> 1 <= cur.ptrs[0] <= |t.lv[0][cur.pos[0]].ents|
    ensures Found(t.kind, dir, t.Recs(), cur.rec, cur.At(t.lv, 0), stat)
  {
    hide Found, Narrowed, SortedEnts, KeyDiff, Flat, Off, Divides, Tied;
    ghost var c, es := cur.pos[0], Flat(t.lv[0]);
    SortedEntries(t.kind, es);
    assert AtBlk(t.lv, cur.bufs, cur.pos, 0);
    var block := t.ReadBlock(cur.bufs[0], 0, c);
    var keyno, diff := SearchLevel(t, block, cur.rec, diff0, 0, c);
    ghost var j := Off(t.lv[0], c) + keyno - 1;
    BlockEnd(t.lv[0], c);
    ghost var ptrs0 := cur.ptrs;
    if dir != LE && diff < 0 {
      keyno := keyno + 1;
      PathSetPtr(t.lv, cur.bufs, ptrs0, cur.pos, 0, keyno);
      cur.ptrs := cur.ptrs[0 := keyno];
      if dir == GE && keyno > |block.ents| && block.right != NULLAGBLOCK {
        GoRight(t, cur);
        DividesFound(t.kind, dir, es, j, diff, cur.rec, j + 1, true);
        return true;
      }
    } else {
      if dir == LE && diff > 0 {
        keyno := keyno - 1;
      }
      PathSetPtr(t.lv, cur.bufs, ptrs0, cur.pos, 0, keyno);
      cur.ptrs := cur.ptrs[0 := keyno];
    }
    stat := keyno != 0 && keyno <= |block.ents| && (dir != EQ || diff == 0);
    DividesFound(t.kind, dir, es, j, diff, cur.rec, Off(t.lv[0], c) + keyno - 1, stat);
  }

  lemma SortedEntries(kind: Kind, es: seq<Entry>)
    ensures Sorted(kind, Keys(es)) <==> SortedEnts(kind, es)
  {
    if Sorted(kind, Keys(es)) {
      forall i, j | 0 <= i < j < |es| ensures Before(kind, es[i].key, es[j].key) {
        assert Before(kind, Keys(es)[i], Keys(es)[j]);
      }
    }
  }

  /** The way down from the root to a leaf. */
  method LookupPath(t: Btree, cur: Cursor) returns (diff: int)
    requires t.Valid() && Sorted(t.kind, t.Recs()) && cur.Fits() && cur.nlevels == t.nlevels
    requires t.Recs() != []
    modifies cur
    ensures cur.On(t.lv, 0) && cur.rec == old(cur.rec) && cur.pos[0] < |t.lv[0]|
    ensures Narrowed(t.kind, t.lv[0], cur.pos[0], diff, cur.rec)
  {
    SortedEntries(t.kind, Flat(t.lv[0]));
    var level := t.nlevels - 1;
    StartPath(t, cur, level);
    diff := 1;
    while level > 0
      invariant 0 <= level < t.nlevels
      invariant cur.On(t.lv, level) && cur.rec == old(cur.rec) && cur.pos[level] < |t.lv[level]|
      invariant Narrowed(t.kind, t.lv[level], cur.pos[level], diff, cur.rec)
    {
      SortedLevels(t.kind, t.lv, level);
      SortedLevels(t.kind, t.lv, level - 1);
      diff := LookupDown(t, cur, level, diff);
      level := level - 1;
    }
  }

  /** The cursor at the root. */
  method StartPath(t: Btree, cur: Cursor, top: nat)
    requires t.Valid() && cur.Fits() && cur.nlevels == t.nlevels && top + 1 == t.nlevels
    modifies cur
    ensures cur.On(t.lv, top) && cur.rec == old(cur.rec) && cur.pos[top] == 0
    ensures t.Recs() != [] ==> Narrowed(t.kind, t.lv[top], 0, 1, cur.rec)
  {
    cur.bufs, cur.pos := cur.bufs[top := t.root], cur.pos[top := 0];
    assert AtBlk(t.lv, cur.bufs, cur.pos, top);
    FlatAt(t.lv[top], 0);
    OffFull(t.lv[top]);
    assert SizedAt(t, t.lv, top);
    assert t.lv[top][1..] == [];
  }

  /** Whether the tree is one leaf without records. */
  method IsEmpty(t: Btree) returns (empty: bool)
    requires t.Valid()
    ensures empty == (t.Recs() == [])
    ensures empty ==> t.nlevels == 1 && t.lv[0][0].ents == []
  {
    empty := false;
    TopDown(t, 0);
    FlatAt(t.lv[0], 0);
    if t.nlevels == 1 {
      assert t.lv[0][1..] == [];
      var block := t.ReadBlock(t.root, 0, 0);
      empty := |block.ents| == 0;
    } else {
      TopDown(t, 1);
      assert LinkAt(t.lv, 1) && SizedAt(t, t.lv, 0);
    }
  }

  /** The lookup in an empty tree leaves the cursor before or at the first place of the leaf. */
  method LookupEmpty(t: Btree, cur: Cursor, dir: Dir) returns (stat: bool)
    requires t.Valid() && cur.Fits() && cur.nlevels == t.nlevels
    requires t.Recs() == [] && t.nlevels == 1 && t.lv[0][0].ents == []
    modifies cur
    ensures cur.On(t.lv, 0) && cur.rec == old(cur.rec) && cur.pos[0] == 0
    ensures 0 <= cur.ptrs[0] <= 1 && (dir != LE ==> cur.ptrs[0] == 1)
    ensures !stat
    ensures Found(t.kind, dir, t.Recs(), cur.rec, cur.At(t.lv, 0), stat)
  {
    StartPath(t, cur, 0);
    OffFull(t.lv[0]);
    var ptr := if dir != LE then 1 else 0;
    PathSetPtr(t.lv, cur.bufs, cur.ptrs, cur.pos, 0, ptr);
    cur.ptrs := cur.ptrs[0 := ptr];
    stat := false;
  }

  /**
   * Look up the cursor's record. The cursor is left at the last record not greater (LE), the first not
   * smaller (GE), or the equal record or else the place to insert it (EQ).
   */
  method Lookup(t: Btree, cur: Cursor, dir: Dir) returns (stat: bool)
    requires t.Valid() && Sorted(t.kind, t.Recs()) && cur.Fits() && cur.nlevels == t.nlevels
    modifies cur
    ensures cur.On(t.lv, 0) && cur.rec == old(cur.rec) && cur.pos[0] < |t.lv[0]|
    ensures 0 <= cur.ptrs[0] <= |t.lv[0][cur.pos[0]].ents| + 1 && (dir != LE ==> cur.ptrs[0] >= 1)
    ensures stat ==> 1 <= cur.ptrs[0] <= |t.lv[0][cur.pos[0]].ents|
    ensures Found(t.kind, dir, t.Recs(), cur.rec, cur.At(t.lv, 0), stat)
  {
    var empty := IsEmpty(t);
    if empty {
      stat := LookupEmpty(t, cur, dir);
    } else {
      var diff := LookupPath(t, cur);
      stat := LookupLeaf(t, cur, dir, diff);
    }
  }

  /** No level is without a block. */
  lemma {:induction false} TopDown(t: Btree, l: nat)
    requires t.Valid() && l < t.nlevels
    ensures t.lv[l] != []
    decreases t.nlevels - l
  {
    if l + 1 < t.nlevels {
      TopDown(t, l + 1);
      assert LinkAt(t.lv, l + 1) && SizedAt(t, t.lv, l + 1);
      assert t.MinRecs(l + 1) >= 2;
      FlatAt(t.lv[l + 1], 0);
    }
  }

  /** The record at the cursor, if there is one. */
  method GetRec(t: Btree, cur: Cursor) returns (rec: Rec, stat: bool)
    requires t.Valid() && cur.On(t.lv, 0) && cur.pos[0] < |t.lv[0]|
    ensures stat == (1 <= cur.ptrs[0] <= |t.lv[0][cur.pos[0]].ents|)
    ensures stat ==> 0 <= cur.At(t.lv, 0) < |t.Recs()| && rec == t.Recs()[cur.At(t.lv, 0)]
  {
    assert AtBlk(t.lv, cur.bufs, cur.pos, 0);
    var block := t.ReadBlock(cur.bufs[0], 0, cur.pos[0]);
    rec := Rec(0, 0);
    stat := 1 <= cur.ptrs[0] <= |block.ents|;
    if stat {
      rec := block.ents[cur.ptrs[0] - 1].key;
      FlatIndex(t.lv[0], cur.pos[0], cur.ptrs[0] - 1);
    }
  }

  /** The cursor is at a place in the leaves: at a record, or before or after those of its leaf. */
  ghost predicate AtLeaf(t: Btree, cur: Cursor)
    reads t`store, t`root, t`nlevels, t`lv, t.fl, t.fl.slots, cur
  {
    && t.Valid() && cur.On(t.lv, 0) && cur.pos[0] < |t.lv[0]|
    && 0 <= cur.ptrs[0] <= |t.lv[0][cur.pos[0]].ents| + 1
  }

  /** Where the cursor is in the order of all records. */
  lemma AtBounds(t: Btree, cur: Cursor)
    requires AtLeaf(t, cur)
    ensures -1 <= cur.At(t.lv, 0) <= |t.Recs()|
    ensures cur.pos[0] + 1 < |t.lv[0]| ==> Off(t.lv[0], cur.pos[0]) + |t.lv[0][cur.pos[0]].ents| < |t.Recs()|
    ensures cur.pos[0] + 1 == |t.lv[0]| ==> Off(t.lv[0], cur.pos[0]) + |t.lv[0][cur.pos[0]].ents| == |t.Recs()|
    ensures cur.pos[0] > 0 <==> Off(t.lv[0], cur.pos[0]) > 0
  {
    var lv, b := t.lv[0], cur.pos[0];
    FlatAt(lv, b);
    OffFull(lv);
    if b + 1 < |lv| || b > 0 {
      assert |t.lv| > 1;
      assert LinkAt(t.lv, 1);
      OffMono(lv, 0, b);
      OffMono(lv, b + 1, |lv|);
    }
  }

  /** Increment at the leaves: the record after the one at the cursor. */
  method NextRec(t: Btree, cur: Cursor) returns (stat: bool)
    requires AtLeaf(t, cur) && cur.ptrs[0] <= |t.lv[0][cur.pos[0]].ents|
    modifies cur
    ensures AtLeaf(t, cur) && cur.rec == old(cur.rec) && cur.ptrs[0] >= 1
    ensures cur.At(t.lv, 0) == old(cur.At(t.lv, 0)) + 1
    ensures stat == (cur.At(t.lv, 0) < |t.Recs()|) == (cur.ptrs[0] <= |t.lv[0][cur.pos[0]].ents|)
  {
    AtBounds(t, cur);
    FlatAt(t.lv[0], cur.pos[0]);
    LinksChild(t.lv, 0);
    stat := Increment(t, cur, 0);
    if |t.lv| > 1 {
      assert LinkAt(t.lv, 1);
    }
    AtBounds(t, cur);
  }

  /** Decrement at the leaves: the record before the one at the cursor. */
  method PrevRec(t: Btree, cur: Cursor) returns (stat: bool)
    requires AtLeaf(t, cur) && cur.ptrs[0] >= 1
    modifies cur
    ensures AtLeaf(t, cur) && cur.rec == old(cur.rec) && cur.ptrs[0] <= |t.lv[0][cur.pos[0]].ents|
    ensures cur.At(t.lv, 0) == old(cur.At(t.lv, 0)) - 1
    ensures stat == (cur.At(t.lv, 0) >= 0) == (cur.ptrs[0] >= 1)
  {
    AtBounds(t, cur);
    if cur.pos[0] > 0 {
      FlatAt(t.lv[0], cur.pos[0] - 1);
    }
    LinksChild(t.lv, 0);
    stat := Decrement(t, cur, 0);
    if |t.lv| > 1 {
      assert LinkAt(t.lv, 1);
    }
    AtBounds(t, cur);
  }

  /** Going to the next record and back, or to the one before and back, leaves the cursor where it was. */
  method NextThenPrev(t: Btree, cur: Cursor) returns (stat: bool)
    requires AtLeaf(t, cur) && 1 <= cur.ptrs[0] <= |t.lv[0][cur.pos[0]].ents|
    modifies cur
    ensures AtLeaf(t, cur) && stat
    ensures cur.pos[0] == old(cur.pos[0]) && cur.bufs[0] == old(cur.bufs[0]) && cur.ptrs[0] == old(cur.ptrs[0])
  {
    hide Flat, Off;
    LinksChild(t.lv, 0);
    assert AtBlk(t.lv, cur.bufs, cur.pos, 0);
    stat := Increment(t, cur, 0);
    stat := Decrement(t, cur, 0);
    assert AtBlk(t.lv, cur.bufs, cur.pos, 0);
  }

  method PrevThenNext(t: Btree, cur: Cursor) returns (stat: bool)
    requires AtLeaf(t, cur) && 1 <= cur.ptrs[0] <= |t.lv[0][cur.pos[0]].ents|
    modifies cur
    ensures AtLeaf(t, cur) && stat
    ensures cur.pos[0] == old(cur.pos[0]) && cur.bufs[0] == old(cur.bufs[0]) && cur.ptrs[0] == old(cur.ptrs[0])
  {
    hide Flat, Off;
    LinksChild(t.lv, 0);
    assert AtBlk(t.lv, cur.bufs, cur.pos, 0);
    stat := Decrement(t, cur, 0);
    stat := Increment(t, cur, 0);
    assert AtBlk(t.lv, cur.bufs, cur.pos, 0);
  }

  /** Overwrite the record at the cursor; the by-size tree's longest extent follows the last record. */
  method Update(t: Btree, cur: Cursor, rec: Rec)
    requires AtLeaf(t, cur) && 1 <= cur.ptrs[0] <= |t.lv[0][cur.pos[0]].ents|
    modifies t`store, t`lv, t`longest
    ensures AtLeaf(t, cur) && t.nlevels == old(t.nlevels) && t.store.Keys == old(t.store).Keys
    ensures 0 <= cur.At(t.lv, 0) == old(cur.At(t.lv, 0)) < old(|t.Recs()|)
    ensures cur.ptrs[0] <= |t.lv[0][cur.pos[0]].ents|
    ensures t.Recs() == old(t.Recs())[cur.At(t.lv, 0) := rec]
    ensures ShapeFrom(old(t.lv), t.lv, 0)
    ensures t.kind == Cnt && old(t.longest == LastCount(t.Recs())) ==> t.longest == LastCount(t.Recs())
    ensures t.kind == Bno ==> t.longest == old(t.longest)
  {
    ghost var recs := t.Recs();
    AtBounds(t, cur);
    var last := UpdateEntry(t, cur, rec);
    if t.kind == Cnt && last {
      t.longest := rec.count;
    }
  }

  /** The record and the keys above it; true if it is the last of the tree. */
  method UpdateEntry(t: Btree, cur: Cursor, rec: Rec) returns (last: bool)
    requires AtLeaf(t, cur) && 1 <= cur.ptrs[0] <= |t.lv[0][cur.pos[0]].ents|
    modifies t`store, t`lv
    ensures AtLeaf(t, cur) && t.nlevels == old(t.nlevels) && t.store.Keys == old(t.store).Keys
    ensures 0 <= cur.At(t.lv, 0) == old(cur.At(t.lv, 0)) < old(|t.Recs()|)
    ensures cur.ptrs[0] <= |t.lv[0][cur.pos[0]].ents|
    ensures t.Recs() == old(t.Recs())[cur.At(t.lv, 0) := rec]
    ensures ShapeFrom(old(t.lv), t.lv, 0)
    ensures last == (cur.At(t.lv, 0) == old(|t.Recs()|) - 1)
  {
    hide Tied, Flat, Off, AllTied, Stores, FreeList.Valid;
    ghost var lv0, b := t.lv, cur.pos[0];
    AtBounds(t, cur);
    assert AtBlk(lv0, cur.bufs, cur.pos, 0);
    var block := t.ReadBlock(cur.bufs[0], 0, b);
    var ptr := cur.ptrs[0];
    var ents := block.ents[ptr - 1 := Entry(rec, block.ents[ptr - 1].child)];
    last := block.right == NULLAGBLOCK && ptr == |block.ents|;
    FlatSetEntry(lv0[0], b, ptr - 1, Entry(rec, block.ents[ptr - 1].child));
    t.SetEnts(cur.bufs[0], ents, 0, b);
    ghost var lv1 := t.lv;
    AboveAll(lv0, cur, 0);
    PutAbove(lv0, lv1, cur, 0, lv0[0], true, ents);
    if ptr == 1 {
      UpdKey(t, cur, rec, 1, lv1[0], b);
    }
    UpdatedLeaf(t, lv0, lv1, cur, b, ptr, rec);
  }

  lemma UpdatedLeaf(t: Btree, lv0: seq<Level>, lv1: seq<Level>, cur: Cursor, b: nat, ptr: int, rec: Rec)
    requires t.Core() && |lv0| == t.nlevels && |lv0[|lv0| - 1]| == 1 && b < |lv0[0]| && 1 <= ptr <= |lv0[0][b].ents|
    requires LinksFrom(lv0, 0) && SizesFrom(t, lv0, 0)
    requires cur.On(lv0, 0) && cur.pos[0] == b && cur.ptrs[0] == ptr
    requires lv1 == lv0[0 := WithEnts(lv0[0], b, lv0[0][b].ents[ptr - 1 := Entry(rec, lv0[0][b].ents[ptr - 1].child)])]
    requires ShapeFrom(lv1, t.lv, 1) && LinksFrom(t.lv, 1) && (1 < |t.lv| ==> Linked(t.lv[1], lv1[0]))
    ensures AtLeaf(t, cur) && t.lv[0] == lv1[0] && ShapeFrom(lv0, t.lv, 0)
    ensures Off(t.lv[0], b) == Off(lv0[0], b)
  {
    ShapeFromFacts(lv1, t.lv, 1);
    FlatReplace(lv0[0], b, lv1[0][b].ents);
    assert SameShape(lv1[|lv1| - 1], t.lv[|lv1| - 1]);
    OnPathLevel(lv0, lv1[0], cur.bufs, cur.ptrs, cur.pos, 0);
    OnPathShapeAbove(lv1, t.lv, cur.bufs, cur.ptrs, cur.pos, 0);
    forall l | 0 <= l < |lv1| ensures SizedAt(t, lv1, l) {
      assert SizedAt(t, lv0, l);
    }
    SizesShape(t, lv1, t.lv, 0, 1);
    if 1 < |t.lv| {
      assert LinkAt(t.lv, 1);
    }
    forall m | 0 <= m < |lv0| ensures SameShape(lv0[m], t.lv[m]) {
      assert SameShape(lv1[m], t.lv[m]);
    }
  }
}
