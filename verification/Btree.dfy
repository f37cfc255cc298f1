/**
 * The generic btree over its block store: blocks, the tree that owns them, and cursors.
 * The records and keys are those of the free-space trees.
 */
module Btrees {
  import opened Records
  import opened Levels
  import opened FreeLists

  /** A btree block: its level, its entries and its two siblings. */
  datatype Block = Block(level: nat, ents: seq<Entry>, left: Ptr, right: Ptr)

  type Store = map<Ptr, Block>

  ghost function LeftSib(lv: Level, i: int): Ptr {
    if 0 < i <= |lv| then lv[i - 1].id else NULLAGBLOCK
  }

  ghost function RightSib(lv: Level, i: int): Ptr {
    if -1 <= i < |lv| - 1 then lv[i + 1].id else NULLAGBLOCK
  }

  /** The store has block i of the level, chained to its neighbours. */
  ghost predicate BlkTied(store: Store, lv: Level, l: nat, i: int)
    requires 0 <= i < |lv|
  {
    && lv[i].id in store
    && store[lv[i].id] == Block(l, lv[i].ents, LeftSib(lv, i), RightSib(lv, i))
  }

  ghost predicate HasBlk(lv: Level, p: Ptr) {
    exists i :: 0 <= i < |lv| && lv[i].id == p
  }

  ghost predicate DistinctIds(lv: Level) {
    forall i, j :: 0 <= i < j < |lv| ==> lv[i].id != lv[j].id
  }

  /** The store holds exactly the blocks of this level, chained in this order. */
  ghost predicate Tied(store: Store, lv: Level, l: nat) {
    && (forall i {:trigger BlkTied(store, lv, l, i)} :: 0 <= i < |lv| ==> BlkTied(store, lv, l, i))
    && DistinctIds(lv)
    && (forall p {:trigger HasBlk(lv, p)} :: p in store && store[p].level == l ==> HasBlk(lv, p))
  }

  ghost predicate AllTied(store: Store, lv: seq<Level>) {
    forall l :: 0 <= l < |lv| ==> Tied(store, lv[l], l)
  }

  /** The store has blocks of n levels, none of them on the freelist. */
  ghost predicate Stores(store: Store, queue: seq<Ptr>, n: nat) {
    forall p :: p in store ==> p != NULLAGBLOCK && p !in queue && store[p].level < n
  }

  /** Parents and children agree, keys included, at levels l and l - 1. */
  ghost predicate LinkAt(lv: seq<Level>, l: int)
    requires 0 < l < |lv|
  {
    Linked(lv[l], lv[l - 1])
  }

  ghost predicate ChildLinkAt(lv: seq<Level>, l: int)
    requires 0 < l < |lv|
  {
    NonEmpty(lv[l - 1]) && ChildLinked(lv[l], lv[l - 1])
  }

  ghost predicate LinksFrom(lv: seq<Level>, p: nat) {
    forall l {:trigger LinkAt(lv, l)} :: p < l < |lv| ==> LinkAt(lv, l)
  }

  ghost predicate ChildLinksFrom(lv: seq<Level>, p: nat) {
    forall l {:trigger ChildLinkAt(lv, l)} :: p < l < |lv| ==> ChildLinkAt(lv, l)
  }

  /** All links from p up hold, but that entry k of level l may have a wrong key. */
  ghost predicate LinksBut(lv: seq<Level>, p: nat, l: nat, k: nat)
    requires p < l
  {
    && (forall m {:trigger LinkAt(lv, m)} :: p < m < |lv| && m != l ==> LinkAt(lv, m))
    && (l < |lv| ==> LinkedBut(lv[l], lv[l - 1], k))
  }

  ghost predicate AtBlk(lv: seq<Level>, bufs: seq<Ptr>, pos: seq<nat>, l: int)
    requires 0 <= l < |lv| == |bufs| == |pos|
  {
    pos[l] < |lv[l]| && bufs[l] == lv[l][pos[l]].id
  }

  ghost predicate AtEntry(lv: seq<Level>, ptrs: seq<int>, pos: seq<nat>, l: int)
    requires 0 < l < |lv| == |ptrs| == |pos|
  {
    Points(lv[l], pos[l], ptrs[l], pos[l - 1])
  }

  /** Where a cursor is: at every level from p up the block, and above p the entry of that path. */
  ghost predicate OnPath(lv: seq<Level>, bufs: seq<Ptr>, ptrs: seq<int>, pos: seq<nat>, p: nat) {
    && |bufs| == |ptrs| == |pos| == |lv|
    && (forall l {:trigger AtBlk(lv, bufs, pos, l)} :: p <= l < |lv| ==> AtBlk(lv, bufs, pos, l))
    && (forall l {:trigger AtEntry(lv, ptrs, pos, l)} :: p < l < |lv| ==> AtEntry(lv, ptrs, pos, l))
  }

  /** A btree cursor: the path of block addresses and entry numbers, and the record looked up. */
  class Cursor {
    var nlevels: nat
    var bufs: seq<Ptr>
    var ptrs: seq<int>
    var rec: Rec
    ghost var pos: seq<nat>

    constructor (t: Btree)
      requires t.nlevels > 0
      ensures Fits() && nlevels == t.nlevels
    {
      nlevels := t.nlevels;
      bufs := seq(t.nlevels, _ => NULLAGBLOCK);
      ptrs := seq(t.nlevels, _ => 0);
      pos := seq(t.nlevels, _ => 0);
    }

    constructor Dup(cur: Cursor)
      ensures nlevels == cur.nlevels && bufs == cur.bufs && ptrs == cur.ptrs && pos == cur.pos && rec == cur.rec
    {
      nlevels, bufs, ptrs, pos, rec := cur.nlevels, cur.bufs, cur.ptrs, cur.pos, cur.rec;
    }

    /** The arrays have a place for every level. */
    ghost predicate Fits()
      reads this
    {
      nlevels == |bufs| == |ptrs| == |pos|
    }

    /** One more level on top. */
    method Grow(buf: Ptr, ptr: int)
      modifies this
      requires Fits()
      ensures Fits() && nlevels == old(nlevels) + 1
    {
      bufs, ptrs, pos := bufs + [buf], ptrs + [ptr], pos + [0];
      nlevels := nlevels + 1;
    }

    /** The levels from n up are no more. */
    method Shrink(n: nat)
      modifies this
      requires Fits() && n <= nlevels
      ensures Fits() && nlevels == n && rec == old(rec)
      ensures bufs == old(bufs)[..n] && ptrs == old(ptrs)[..n] && pos == old(pos)[..n]
    {
      bufs, ptrs, pos := bufs[..n], ptrs[..n], pos[..n];
      nlevels := n;
    }

    /** As many levels as given; what is new is not set. */
    method Resize(n: nat)
      modifies this
      requires Fits() && nlevels <= n
      ensures Fits() && nlevels == n
    {
      while nlevels < n
        invariant Fits() && nlevels <= n
      {
        Grow(NULLAGBLOCK, 0);
      }
    }

    ghost predicate On(lv: seq<Level>, p: nat)
      reads this
    {
      nlevels == |lv| && OnPath(lv, bufs, ptrs, pos, p)
    }

    /** The number of entries of level p before the one the cursor is at. */
    ghost function At(lv: seq<Level>, p: nat): int
      requires p < |lv| == |pos| == |ptrs| && pos[p] < |lv[p]|
      reads this
    {
      Off(lv[p], pos[p]) + ptrs[p] - 1
    }

    /** Nothing below level p has changed, nor the record. */
    twostate predicate SameBelow(p: nat)
      reads this
    {
      && nlevels == old(nlevels) && rec == old(rec)
      && p <= |bufs| == |ptrs| == |pos| == old(|bufs|) == old(|ptrs|) == old(|pos|)
      && (forall m :: 0 <= m < p ==> bufs[m] == old(bufs)[m])
      && (forall m :: 0 <= m < p ==> ptrs[m] == old(ptrs)[m])
      && (forall m :: 0 <= m < p ==> pos[m] == old(pos)[m])
    }
  }

  class Btree {
    const kind: Kind
    const mxr: nat      // most records of a leaf
    const mxn: nat      // most entries of a node
    const fl: FreeList
    var store: Store
    var root: Ptr
    var nlevels: nat
    var longest: nat
    ghost var lv: seq<Level>

    /** An empty tree: one leaf without records. */
    constructor (kind: Kind, mxr: nat, mxn: nat, fl: FreeList, rootblk: Ptr)
      requires mxr >= 4 && mxn >= 4 && fl.Valid() && rootblk != NULLAGBLOCK && rootblk !in fl.queue
      ensures Valid() && Recs() == [] && longest == 0 && nlevels == 1
      ensures this.kind == kind && this.mxr == mxr && this.mxn == mxn && this.fl == fl && root == rootblk
      ensures store.Keys == {rootblk}
    {
      this.kind, this.mxr, this.mxn, this.fl := kind, mxr, mxn, fl;
      store := map[rootblk := Block(0, [], NULLAGBLOCK, NULLAGBLOCK)];
      root, nlevels, longest := rootblk, 1, 0;
      lv := [[Blk(rootblk, [])]];
      new;
      assert lv[0][0].id == rootblk && HasBlk(lv[0], rootblk);
      FlatAt(lv[0], 0);
    }

    function MaxRecs(level: nat): nat {
      if level == 0 then mxr else mxn
    }

    function MinRecs(level: nat): nat {
      MaxRecs(level) / 2
    }

    /** The block store is the levels; the root is the first block of the top one. */
    ghost predicate Core()
      reads `store, `root, `nlevels, `lv, fl, fl.slots
    {
      && mxr >= 4 && mxn >= 4
      && fl.Valid()
      && nlevels == |lv| > 0
      && |lv[nlevels - 1]| > 0 && root == lv[nlevels - 1][0].id
      && AllTied(store, lv)
      && Stores(store, fl.queue, nlevels)
    }

    /** The least number of entries of a block of level l in a tree of n levels. */
    ghost function Least(n: nat, l: nat): nat {
      if l + 1 < n then MinRecs(l) else if l == 0 then 0 else 2
    }

    /** The root is alone on its level. */
    ghost predicate Rooted()
      reads `nlevels, `lv
    {
      nlevels == |lv| > 0 && |lv[nlevels - 1]| == 1
    }

    ghost predicate Valid()
      reads `store, `root, `nlevels, `lv, fl, fl.slots
    {
      && Core() && Rooted()
      && LinksFrom(lv, 0)
      && SizesFrom(this, lv, 0)
    }

    /** Read block b of level l. */
    method ReadBlock(id: Ptr, ghost l: nat, ghost b: nat) returns (block: Block)
      requires Core() && l < nlevels && b < |lv[l]| && id == lv[l][b].id
      ensures id in store && block == store[id]
      ensures block.level == l && block.ents == lv[l][b].ents
      ensures block.left == (if b > 0 then lv[l][b - 1].id else NULLAGBLOCK)
      ensures block.right == (if b + 1 < |lv[l]| then lv[l][b + 1].id else NULLAGBLOCK)
      ensures block.left == NULLAGBLOCK <==> b == 0
      ensures block.right == NULLAGBLOCK <==> b + 1 == |lv[l]|
    {
      assert BlkTied(store, lv[l], l, b);
      assert b > 0 ==> BlkTied(store, lv[l], l, b - 1);
      assert b + 1 < |lv[l]| ==> BlkTied(store, lv[l], l, b + 1);
      block := store[id];
    }

    /** Write new entries into block b of level l. */
    method SetEnts(bp: Ptr, ents: seq<Entry>, ghost l: nat, ghost b: nat)
      requires Core() && l < nlevels && b < |lv[l]| && bp == lv[l][b].id && bp in store
      modifies `store, `lv
      ensures Core()
      ensures lv == old(lv)[l := old(lv[l])[b := Blk(bp, ents)]]
      ensures store == old(store)[bp := old(store[bp]).(ents := ents)]
    {
      ghost var store0 := store;
      assert BlkTied(store, lv[l], l, b);
      store := store[bp := store[bp].(ents := ents)];
      TiedSet(store0, lv[l], l, b, ents);
      forall m | 0 <= m < nlevels && m != l ensures Tied(store, lv[m], m) {
        TiedOther(store0, store, lv[m], m, l);
      }
      lv := lv[l := lv[l][b := Blk(bp, ents)]];
    }

    /** Write new entries into two neighbours, b and b + 1 of level l. */
    method SetPair(lp: Ptr, lents: seq<Entry>, rp: Ptr, rents: seq<Entry>, ghost l: nat, ghost b: nat)
      requires Core() && l < nlevels && b + 1 < |lv[l]|
      requires lp == lv[l][b].id && lp in store && rp == lv[l][b + 1].id && rp in store
      modifies `store, `lv
      ensures Core() && store.Keys == old(store).Keys
      ensures lv == old(lv)[l := old(lv[l])[b := Blk(lp, lents)][b + 1 := Blk(rp, rents)]]
    {
      ghost var lv0 := lv;
      SetEnts(lp, lents, l, b);
      SetEnts(rp, rents, l, b + 1);
      assert lv == lv0[l := lv[l]];
    }

    /** The records of the tree in order. */
    ghost function Recs(): seq<Rec>
      requires |lv| > 0
      reads `lv
    {
      Keys(Flat(lv[0]))
    }
  }

  ghost predicate SizedAt(t: Btree, lv: seq<Level>, l: nat)
    requires l < |lv|
  {
    Sized(lv[l], t.Least(|lv|, l), t.MaxRecs(l))
  }

  /** Block sizes at levels p and above. */
  ghost predicate SizesFrom(t: Btree, lv: seq<Level>, p: nat) {
    forall l {:trigger SizedAt(t, lv, l)} :: p <= l < |lv| ==> SizedAt(t, lv, l)
  }

  lemma SizesShape(t: Btree, lv: seq<Level>, lv': seq<Level>, p: nat, q: nat)
    requires SizesFrom(t, lv, p) && ShapeFrom(lv, lv', q)
    ensures SizesFrom(t, lv', p)
  {
    ShapeFromFacts(lv, lv', q);
    forall l | p <= l < |lv| ensures SizedAt(t, lv', l) {
      assert SizedAt(t, lv, l) && SameShape(lv[l], lv'[l]);
      SizedShape(lv[l], lv'[l], t.Least(|lv|, l), t.MaxRecs(l));
    }
  }

  ghost function Keys(es: seq<Entry>): seq<Rec> {
    seq(|es|, i requires 0 <= i < |es| => es[i].key)
  }

  /** The levels below p are the same, those above differ in keys alone. */
  ghost predicate ShapeFrom(a: seq<Level>, b: seq<Level>, p: nat) {
    && |a| == |b|
    && p <= |a|
    && a[..p] == b[..p]
    && forall m {:trigger SameShape(a[m], b[m])} :: p <= m < |a| ==> SameShape(a[m], b[m])
  }

  lemma ShapeFromFacts(a: seq<Level>, b: seq<Level>, p: nat)
    requires ShapeFrom(a, b, p)
    ensures forall m :: 0 <= m < p ==> b[m] == a[m]
    ensures forall m :: 0 <= m < |a| ==> SameShape(a[m], b[m])
  {
    assert forall m :: 0 <= m < p ==> a[..p][m] == b[..p][m];
  }

  lemma OnPathShape(lv: seq<Level>, lv': seq<Level>, bufs: seq<Ptr>, ptrs: seq<int>, pos: seq<nat>, p: nat)
    requires OnPath(lv, bufs, ptrs, pos, p)
    requires ShapeFrom(lv, lv', p)
    ensures OnPath(lv', bufs, ptrs, pos, p)
  {
    forall l | p <= l < |lv| ensures AtBlk(lv', bufs, pos, l) {
      assert AtBlk(lv, bufs, pos, l) && SameShape(lv[l], lv'[l]);
      assert SameBlk(lv[l][pos[l]], lv'[l][pos[l]]);
    }
    forall l | p < l < |lv| ensures AtEntry(lv', ptrs, pos, l) {
      assert AtBlk(lv, bufs, pos, l) && AtEntry(lv, ptrs, pos, l) && SameShape(lv[l], lv'[l]);
      SameShapeOff(lv[l], lv'[l], pos[l]);
      assert SameBlk(lv[l][pos[l]], lv'[l][pos[l]]);
    }
  }

  /** Changing blocks of one level does not untie another. */
  lemma TiedOther(store: Store, store': Store, lv: Level, l: nat, m: nat)
    requires Tied(store, lv, l) && l != m
    requires forall p :: p in store && store[p].level != m ==> p in store' && store'[p] == store[p]
    requires forall p :: p in store' && store'[p].level != m ==> p in store && store[p].level != m
    ensures Tied(store', lv, l)
  {
    forall i | 0 <= i < |lv| ensures BlkTied(store', lv, l, i) {
      assert BlkTied(store, lv, l, i);
    }
  }

  /** Replacing the entries of one block, its chain left alone. */
  lemma TiedSet(store: Store, lv: Level, l: nat, b: nat, ents: seq<Entry>)
    requires Tied(store, lv, l) && b < |lv|
    ensures lv[b].id in store
    ensures var id := lv[b].id;
            Tied(store[id := store[id].(ents := ents)], lv[b := Blk(id, ents)], l)
  {
    var id := lv[b].id;
    assert BlkTied(store, lv, l, b);
    var lv' := lv[b := Blk(id, ents)];
    var store' := store[id := store[id].(ents := ents)];
    assert forall i :: 0 <= i < |lv| ==> lv'[i].id == lv[i].id;
    forall p | p in store' && store'[p].level == l ensures HasBlk(lv', p) {
      assert HasBlk(lv, p);
      var i :| 0 <= i < |lv| && lv[i].id == p;
      assert lv'[i].id == p;
    }
    forall i | 0 <= i < |lv| ensures BlkTied(store', lv', l, i) {
      assert BlkTied(store, lv, l, i);
      assert LeftSib(lv', i) == LeftSib(lv, i) && RightSib(lv', i) == RightSib(lv, i);
    }
  }

  /** One step of UpdKey, on the levels. The level below is lo. */
  lemma UpdKeyStep(lv: seq<Level>, l: nat, lo: Level, b: nat, ptr: int, k: nat)
    requires l < |lv| && LinksFrom(lv, l + 1) && LinkedBut(lv[l], lo, k)
    requires l + 1 < |lv| ==> LinkAt(lv, l + 1)
    requires Points(lv[l], b, ptr, k) && k < |lo|
    ensures var key := lo[k].ents[0].key;
            var e := Entry(key, lv[l][b].ents[ptr - 1].child);
            var lv' := lv[l := lv[l][b := Blk(lv[l][b].id, lv[l][b].ents[ptr - 1 := e])]];
            && ShapeFrom(lv, lv', l) && Linked(lv'[l], lo)
            && LinksFrom(lv', l + 1)
            && (l + 1 < |lv| ==>
                  if ptr == 1 then LinkedBut(lv'[l + 1], lv'[l], b) && lv'[l][b].ents[0].key == key
                  else LinkAt(lv', l + 1))
  {
    var e := Entry(lo[k].ents[0].key, lv[l][b].ents[ptr - 1].child);
    var lv' := lv[l := lv[l][b := Blk(lv[l][b].id, lv[l][b].ents[ptr - 1 := e])]];
    SetKeyStep(lv[l], lo, b, ptr, k);
    if l + 1 < |lv| {
      KeyChangeAbove(lv[l + 1], lv[l], b, ptr - 1, e);
    }
    forall m | l + 1 < m < |lv| ensures LinkAt(lv', m) {
      assert LinkAt(lv, m);
    }
  }

  /** What UpdKey has to mend: the key of block k of lo, in its parent at the cursor. */
  ghost predicate KeyDue(lv: seq<Level>, cur: Cursor, key: Rec, l: nat, lo: Level, k: nat)
    reads cur
  {
    && cur.nlevels == |lv|
    && LinksFrom(lv, l)
    && (l < |lv| ==>
          && cur.On(lv, l)
          && Points(lv[l], cur.pos[l], cur.ptrs[l], k)
          && k < |lo| && lo[k].ents != [] && lo[k].ents[0].key == key
          && LinkedBut(lv[l], lo, k))
  }

  /** The key at the cursor's entry of level l becomes the one given. */
  method SetKey(t: Btree, cur: Cursor, key: Rec, l: nat, ghost lo: Level, ghost k: nat)
    requires t.Core() && l < t.nlevels && KeyDue(t.lv, cur, key, l, lo, k)
    modifies t`store, t`lv
    ensures t.Core() && cur.On(t.lv, l) && ShapeFrom(old(t.lv), t.lv, l) && Linked(t.lv[l], lo)
    ensures t.store.Keys == old(t.store).Keys
    ensures if cur.ptrs[l] == 1 then KeyDue(t.lv, cur, key, l + 1, t.lv[l], cur.pos[l])
            else LinksFrom(t.lv, l)
  {
    hide AllTied, Stores, FreeList.Valid, Flat, Off;
    ghost var lv1, b := t.lv, cur.pos[l];
    assert AtBlk(lv1, cur.bufs, cur.pos, l);
    var block := t.ReadBlock(cur.bufs[l], l, b);
    var ptr := cur.ptrs[l];
    assert l + 1 < |lv1| ==> LinkAt(lv1, l + 1);
    UpdKeyStep(lv1, l, lo, b, ptr, k);
    t.SetEnts(cur.bufs[l], block.ents[ptr - 1 := Entry(key, block.ents[ptr - 1].child)], l, b);
    OnPathShape(lv1, t.lv, cur.bufs, cur.ptrs, cur.pos, l);
    if l + 1 < |t.lv| {
      assert AtEntry(t.lv, cur.ptrs, cur.pos, l + 1);
      PathUp(t.lv, cur.bufs, cur.ptrs, cur.pos, l, l + 1);
    }
  }

  /** After a change in keys from level l up, the levels below are as they were. */
  lemma UpdKeyKeep(lv0: seq<Level>, lv1: seq<Level>, lv2: seq<Level>, level: nat, l: nat)
    requires ShapeFrom(lv0, lv1, level) && ShapeFrom(lv1, lv2, l) && level <= l < |lv0|
    ensures ShapeFrom(lv0, lv2, level)
    ensures forall m {:trigger LinkAt(lv2, m)} :: 0 < m < l && LinkAt(lv1, m) ==> LinkAt(lv2, m)
    ensures l > 0 ==> lv2[l - 1] == lv1[l - 1]
  {
    assert forall m :: 0 <= m < l ==> lv2[m] == lv2[..l][m] == lv1[m];
    forall m | level <= m < |lv0| ensures SameShape(lv0[m], lv2[m]) {
      assert SameShape(lv0[m], lv1[m]);
      if m >= l {
        SameShapeTrans(lv0[m], lv1[m], lv2[m]);
      }
    }
    assert lv2[..level] == lv2[..l][..level] == lv1[..l][..level] == lv1[..level];
  }

  /**
   * Go up from level, writing the key into the entry the cursor is at, as long as
   * that entry is the first of its block. The blocks below are lo; block k got a new first key.
   */
  method UpdKey(t: Btree, cur: Cursor, key: Rec, level: nat, ghost lo: Level, ghost k: nat)
    requires t.Core() && 1 <= level <= t.nlevels && KeyDue(t.lv, cur, key, level, lo, k)
    modifies t`store, t`lv
    ensures t.Core() && LinksFrom(t.lv, level)
    ensures level < t.nlevels ==> Linked(t.lv[level], lo)
    ensures ShapeFrom(old(t.lv), t.lv, level)
    ensures t.store.Keys == old(t.store).Keys
  {
    hide AllTied, Stores, FreeList.Valid, Flat, Off;
    var l := level;
    var ptr := 1;
    ghost var lv0 := t.lv;
    ghost var lol, kl := lo, k;
    while ptr == 1 && l < t.nlevels
      invariant level <= l <= t.nlevels
      invariant t.Core() && t.store.Keys == old(t.store).Keys
      invariant ShapeFrom(lv0, t.lv, level)
      invariant l > level ==> Linked(t.lv[level], lo) && lol == t.lv[l - 1]
      invariant l == level ==> lol == lo
      invariant ptr == 1 ==> KeyDue(t.lv, cur, key, l, lol, kl)
      invariant ptr != 1 ==> l > level
      invariant forall m {:trigger LinkAt(t.lv, m)} :: level < m < l ==> LinkAt(t.lv, m)
      invariant ptr != 1 ==> LinksFrom(t.lv, level)
    {
      ptr := cur.ptrs[l];
      ghost var lv1 := t.lv;
      SetKey(t, cur, key, l, lol, kl);
      UpdKeyKeep(lv0, lv1, t.lv, level, l);
      lol, kl := t.lv[l], cur.pos[l];
      l := l + 1;
    }
  }

  /** The child of entry k of level l is block k of the level below. */
  lemma ChildOf(lv: seq<Level>, l: nat, b: nat, ptr: int, k: nat)
    requires 0 < l < |lv| && ChildLinkAt(lv, l) && Points(lv[l], b, ptr, k)
    ensures k < |lv[l - 1]| && lv[l][b].ents[ptr - 1].child == lv[l - 1][k].id
  {
    FlatIndex(lv[l], b, ptr - 1);
  }

  /** Following the entry a path is at to the level below. */
  lemma Descend(lv: seq<Level>, bufs: seq<Ptr>, ptrs: seq<int>, pos: seq<nat>, l: nat, k: nat, ptr: int)
    requires 0 < l < |lv| && OnPath(lv, bufs, ptrs, pos, l) && ChildLinkAt(lv, l)
    requires Points(lv[l], pos[l], ptrs[l], k)
    ensures k < |lv[l - 1]|
    ensures OnPath(lv, bufs[l - 1 := lv[l - 1][k].id], ptrs[l - 1 := ptr], pos[l - 1 := k], l - 1)
  {
    ChildOf(lv, l, pos[l], ptrs[l], k);
    var bufs', ptrs', pos' := bufs[l - 1 := lv[l - 1][k].id], ptrs[l - 1 := ptr], pos[l - 1 := k];
    forall m | l - 1 <= m < |lv| ensures AtBlk(lv, bufs', pos', m) {
      assert m >= l ==> AtBlk(lv, bufs, pos, m);
    }
    forall m | l - 1 < m < |lv| ensures AtEntry(lv, ptrs', pos', m) {
      assert m > l ==> AtEntry(lv, ptrs, pos, m);
    }
  }

  /** The entry number at the lowest level of a path is free. */
  lemma PathSetPtr(lv: seq<Level>, bufs: seq<Ptr>, ptrs: seq<int>, pos: seq<nat>, p: nat, ptr: int)
    requires p < |lv| && OnPath(lv, bufs, ptrs, pos, p)
    ensures OnPath(lv, bufs, ptrs[p := ptr], pos, p)
  {
    PathAfterClimb(lv, bufs, ptrs, pos, ptrs[p := ptr], p, p);
  }

  /** A path from p up depends on nothing below. */
  lemma PathSame(lv: seq<Level>, bufs: seq<Ptr>, ptrs: seq<int>, pos: seq<nat>,
                 bufs': seq<Ptr>, ptrs': seq<int>, pos': seq<nat>, p: nat)
    requires OnPath(lv, bufs, ptrs, pos, p) && |bufs'| == |ptrs'| == |pos'| == |lv|
    requires forall m :: p <= m < |lv| ==> bufs'[m] == bufs[m] && ptrs'[m] == ptrs[m] && pos'[m] == pos[m]
    ensures OnPath(lv, bufs', ptrs', pos', p)
  {
    forall m | p <= m < |lv| ensures AtBlk(lv, bufs', pos', m) {
      assert AtBlk(lv, bufs, pos, m);
    }
    forall m | p < m < |lv| ensures AtEntry(lv, ptrs', pos', m) {
      assert AtEntry(lv, ptrs, pos, m);
    }
  }

  /** A path from l up is one from p up. */
  lemma PathUp(lv: seq<Level>, bufs: seq<Ptr>, ptrs: seq<int>, pos: seq<nat>, p: nat, l: nat)
    requires OnPath(lv, bufs, ptrs, pos, p) && p <= l
    ensures OnPath(lv, bufs, ptrs, pos, l)
  {
  }

  /**
   * One entry on (d = 1) or back (d = -1) from the entry a path is at, where that
   * leaves the block: the first entry of the next, or the last of the one before.
   */
  ghost predicate StepEntry(lv: seq<Level>, pos: seq<nat>, m: int, d: int)
    requires 0 < m < |lv| == |pos|
  {
    && 0 <= pos[m] + d < |lv[m]|
    && Points(lv[m], pos[m] + d, if d == 1 then 1 else |lv[m][pos[m] + d].ents|, pos[m - 1] + d)
  }

  /** One step down, to the child the cursor is at; its first or last entry. */
  method StepDown(t: Btree, cur: Cursor, lev: nat, ghost k: nat, toFirst: bool)
    requires t.Core() && 0 < lev < t.nlevels && cur.On(t.lv, lev) && ChildLinkAt(t.lv, lev)
    requires Points(t.lv[lev], cur.pos[lev], cur.ptrs[lev], k)
    modifies cur
    ensures cur.On(t.lv, lev - 1) && cur.SameBelow(lev - 1)
    ensures k < |t.lv[lev - 1]|
    ensures cur.pos[lev - 1] == k
    ensures cur.ptrs[lev - 1] == if toFirst then 1 else |t.lv[lev - 1][k].ents|
  {
    assert AtBlk(t.lv, cur.bufs, cur.pos, lev);
    ChildOf(t.lv, lev, cur.pos[lev], cur.ptrs[lev], k);
    var block := t.ReadBlock(cur.bufs[lev], lev, cur.pos[lev]);
    var child := block.ents[cur.ptrs[lev] - 1].child;
    block := t.ReadBlock(child, lev - 1, k);
    var ptr := if toFirst then 1 else |block.ents|;
    Descend(t.lv, cur.bufs, cur.ptrs, cur.pos, lev, k, ptr);
    cur.bufs, cur.ptrs, cur.pos := cur.bufs[lev - 1 := child], cur.ptrs[lev - 1 := ptr], cur.pos[lev - 1 := k];
  }

  /** Walk back down the tree to level, fixing up block and entry numbers on the way. */
  method WalkDown(t: Btree, cur: Cursor, top: nat, level: nat, ghost d: int, toFirst: bool)
    requires t.Core() && level < top < t.nlevels && cur.On(t.lv, top) && ChildLinksFrom(t.lv, level)
    requires d == 1 || d == -1
    requires toFirst <==> d == 1
    requires 0 <= cur.pos[top - 1] + d && Points(t.lv[top], cur.pos[top], cur.ptrs[top], cur.pos[top - 1] + d)
    requires forall m {:trigger StepEntry(t.lv, cur.pos, m, d)} :: level < m < top ==> StepEntry(t.lv, cur.pos, m, d)
    requires 0 <= cur.pos[level] + d
    modifies cur
    ensures cur.On(t.lv, level) && cur.SameBelow(level)
    ensures cur.pos[level] == old(cur.pos)[level] + d < |t.lv[level]|
    ensures cur.ptrs[level] == if toFirst then 1 else |t.lv[level][cur.pos[level]].ents|
  {
    hide Flat, Off, Tied;
    ghost var pos0 := cur.pos;
    assert ChildLinkAt(t.lv, top);
    assert top > level + 1 ==> StepEntry(t.lv, pos0, top - 1, d);
    StepDown(t, cur, top, pos0[top - 1] + d, toFirst);
    var lev := top - 1;
    while lev > level
      invariant level <= lev < top
      invariant cur.On(t.lv, lev) && cur.SameBelow(level)
      invariant forall m :: level <= m < lev ==> cur.pos[m] == pos0[m]
      invariant 0 <= pos0[lev] + d
      invariant cur.pos[lev] == pos0[lev] + d < |t.lv[lev]|
      invariant cur.ptrs[lev] == if toFirst then 1 else |t.lv[lev][cur.pos[lev]].ents|
    {
      assert StepEntry(t.lv, pos0, lev, d) && ChildLinkAt(t.lv, lev);
      assert lev - 1 > level ==> StepEntry(t.lv, pos0, lev - 1, d);
      StepDown(t, cur, lev, pos0[lev - 1] + d, toFirst);
      lev := lev - 1;
    }
  }

  /**
   * March up the tree incrementing entry numbers until that stays in a block, then walk
   * down again: from any entry of a block to the first of the block to its right.
   */
  method NextBlock(t: Btree, cur: Cursor, level: nat)
    requires t.Core() && t.Rooted() && level < t.nlevels && cur.On(t.lv, level) && ChildLinksFrom(t.lv, level)
    requires cur.pos[level] + 1 < |t.lv[level]|
    modifies cur
    ensures cur.On(t.lv, level) && cur.SameBelow(level)
    ensures cur.pos[level] == old(cur.pos)[level] + 1 && cur.ptrs[level] == 1
  {
    hide AllTied, Stores, FreeList.Valid, Flat, Off;
    ghost var lv, bufs0, ptrs0, pos0 := t.lv, cur.bufs, cur.ptrs, cur.pos;
    var lev := level + 1;
    while lev < cur.nlevels
      invariant level < lev <= |lv| == cur.nlevels && t.lv == lv
      invariant cur.bufs == bufs0 && cur.pos == pos0 && cur.SameBelow(level)
      invariant forall m :: lev <= m < |lv| ==> cur.ptrs[m] == ptrs0[m]
      invariant pos0[lev - 1] + 1 < |lv[lev - 1]|
      invariant forall m {:trigger StepEntry(lv, pos0, m, 1)} :: level < m < lev ==> StepEntry(lv, pos0, m, 1)
    {
      assert AtBlk(lv, bufs0, pos0, lev) && AtEntry(lv, ptrs0, pos0, lev) && ChildLinkAt(lv, lev);
      var block := t.ReadBlock(cur.bufs[lev], lev, pos0[lev]);
      cur.ptrs := cur.ptrs[lev := cur.ptrs[lev] + 1];
      if cur.ptrs[lev] <= |block.ents| {
        break;
      }
      assert lev + 1 < |lv| ==> ChildLinkAt(lv, lev + 1);
      NextEntry(lv[lev], pos0[lev], ptrs0[lev], pos0[lev - 1]);
      lev := lev + 1;
    }
    PathAfterClimb(lv, bufs0, ptrs0, pos0, cur.ptrs, level, lev);
    WalkDown(t, cur, lev, level, 1, true);
  }

  /** The mirror of NextBlock: to the last entry of the block to the left. */
  method PrevBlock(t: Btree, cur: Cursor, level: nat)
    requires t.Core() && t.Rooted() && level < t.nlevels && cur.On(t.lv, level) && ChildLinksFrom(t.lv, level)
    requires 0 < cur.pos[level] < |t.lv[level]|
    modifies cur
    ensures cur.On(t.lv, level) && cur.SameBelow(level)
    ensures cur.pos[level] == old(cur.pos)[level] - 1
    ensures cur.ptrs[level] == |t.lv[level][cur.pos[level]].ents|
  {
    ghost var lv, bufs0, ptrs0, pos0 := t.lv, cur.bufs, cur.ptrs, cur.pos;
    var lev := level + 1;
    while lev < cur.nlevels
      invariant level < lev <= |lv| == cur.nlevels && t.lv == lv
      invariant cur.bufs == bufs0 && cur.pos == pos0 && cur.SameBelow(level)
      invariant forall m :: lev <= m < |lv| ==> cur.ptrs[m] == ptrs0[m]
      invariant 0 < pos0[lev - 1] < |lv[lev - 1]|
      invariant forall m {:trigger StepEntry(lv, pos0, m, -1)} :: level < m < lev ==> StepEntry(lv, pos0, m, -1)
    {
      assert AtBlk(lv, bufs0, pos0, lev) && AtEntry(lv, ptrs0, pos0, lev) && ChildLinkAt(lv, lev);
      cur.ptrs := cur.ptrs[lev := cur.ptrs[lev] - 1];
      if cur.ptrs[lev] > 0 {
        break;
      }
      assert lev + 1 < |lv| ==> ChildLinkAt(lv, lev + 1);
      PrevEntry(lv[lev], pos0[lev], pos0[lev - 1]);
      lev := lev + 1;
    }
    PathAfterClimb(lv, bufs0, ptrs0, pos0, cur.ptrs, level, lev);
    WalkDown(t, cur, lev, level, -1, false);
  }

  /**
   * Move the cursor to the next entry of a level, changing the path above as needed. At the
   * right edge it stays in its block, one past the end.
   */
  method Increment(t: Btree, cur: Cursor, level: nat) returns (stat: bool)
    requires t.Core() && t.Rooted() && level < t.nlevels && cur.On(t.lv, level) && ChildLinksFrom(t.lv, level)
    requires cur.pos[level] < |t.lv[level]| && 0 <= cur.ptrs[level] <= |t.lv[level][cur.pos[level]].ents|
    modifies cur
    ensures cur.On(t.lv, level) && cur.SameBelow(level)
    ensures var b, ptr := old(cur.pos[level]), old(cur.ptrs[level]);
            var inside := ptr < |t.lv[level][b].ents|;
            && stat == (inside || b + 1 < |t.lv[level]|)
            && if stat && !inside then cur.pos[level] == b + 1 && cur.ptrs[level] == 1
               else cur.pos == old(cur.pos) && cur.bufs == old(cur.bufs) && cur.ptrs == old(cur.ptrs)[level := ptr + 1]
  {
    ghost var ptrs0 := cur.ptrs;
    assert AtBlk(t.lv, cur.bufs, cur.pos, level);
    var block := t.ReadBlock(cur.bufs[level], level, cur.pos[level]);
    cur.ptrs := cur.ptrs[level := cur.ptrs[level] + 1];
    PathSetPtr(t.lv, cur.bufs, ptrs0, cur.pos, level, cur.ptrs[level]);
    if cur.ptrs[level] <= |block.ents| {
      return true;
    }
    if block.right == NULLAGBLOCK {
      return false;
    }
    NextBlock(t, cur, level);
    stat := true;
  }

  /**
   * Move the cursor to the entry before. At the left edge it stays in its block, before
   * the first entry.
   */
  method Decrement(t: Btree, cur: Cursor, level: nat) returns (stat: bool)
    requires t.Core() && t.Rooted() && level < t.nlevels && cur.On(t.lv, level) && ChildLinksFrom(t.lv, level)
    requires cur.pos[level] < |t.lv[level]| && 1 <= cur.ptrs[level] <= |t.lv[level][cur.pos[level]].ents| + 1
    modifies cur
    ensures cur.On(t.lv, level) && cur.SameBelow(level)
    ensures var b, ptr := old(cur.pos[level]), old(cur.ptrs[level]);
            var inside := ptr > 1;
            && stat == (inside || b > 0)
            && if stat && !inside then cur.pos[level] == b - 1 && cur.ptrs[level] == |t.lv[level][b - 1].ents|
               else cur.pos == old(cur.pos) && cur.bufs == old(cur.bufs) && cur.ptrs == old(cur.ptrs)[level := ptr - 1]
  {
    ghost var ptrs0 := cur.ptrs;
    assert AtBlk(t.lv, cur.bufs, cur.pos, level);
    cur.ptrs := cur.ptrs[level := cur.ptrs[level] - 1];
    PathSetPtr(t.lv, cur.bufs, ptrs0, cur.pos, level, cur.ptrs[level]);
    if cur.ptrs[level] > 0 {
      return true;
    }
    var block := t.ReadBlock(cur.bufs[level], level, cur.pos[level]);
    if block.left == NULLAGBLOCK {
      return false;
    }
    PrevBlock(t, cur, level);
    stat := true;
  }

  /** A path whose entry number at one level alone counts. */
  lemma PathAfterClimb(lv: seq<Level>, bufs: seq<Ptr>, ptrs: seq<int>, pos: seq<nat>, ptrs': seq<int>, p: nat, top: nat)
    requires OnPath(lv, bufs, ptrs, pos, p) && p <= top < |lv| && |ptrs'| == |ptrs|
    requires forall m :: top < m < |lv| ==> ptrs'[m] == ptrs[m]
    ensures OnPath(lv, bufs, ptrs', pos, top)
  {
    forall m | top < m < |lv| ensures AtEntry(lv, ptrs', pos, m) {
      assert AtEntry(lv, ptrs, pos, m);
    }
  }
}
