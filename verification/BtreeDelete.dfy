/** Deleting a record: borrow from a neighbour, join with one, kill the root. */
module BtreeDelete {
  import opened Records
  import opened Levels
  import opened FreeLists
  import opened Btrees
  import opened BtreeShift
  import opened BtreeInsert

  /** Blocks j and j + 1 made one, at the address of the left. */
  ghost function JoinLevel(lv: Level, j: nat): Level
    requires j + 1 < |lv|
  {
    lv[..j] + [Blk(lv[j].id, lv[j].ents + lv[j + 1].ents)] + lv[j + 2..]
  }

  lemma JoinFlat(lv: Level, j: nat)
    requires j + 1 < |lv|
    ensures Flat(JoinLevel(lv, j)) == Flat(lv) && Off(JoinLevel(lv, j), j) == Off(lv, j)
  {
    var lv' := JoinLevel(lv, j);
    FlatPair(lv, j);
    FlatAt(lv', j);
    assert lv'[..j] == lv[..j] && lv'[j + 1..] == lv[j + 2..];
    Regroup(Flat(lv[..j]), lv[j].ents, lv[j + 1].ents, Flat(lv[j + 2..]));
  }

  /** The level above then has one entry too many. */
  lemma JoinPending(es: seq<Entry>, lv: Level, j: nat)
    requires HeadsBut(es, lv, -1) && j + 1 < |lv|
    ensures HeadsBut(Del(es, j + 1), JoinLevel(lv, j), -1)
  {
    var lv' := JoinLevel(lv, j);
    var es' := Del(es, j + 1);
    assert forall k :: 0 <= k < j ==> lv'[k] == lv[k] && es'[k] == es[k];
    assert lv'[j].ents[0] == lv[j].ents[0] && es'[j] == es[j];
    assert forall k :: j < k < |lv'| ==> lv'[k] == lv[k + 1] && es'[k] == es[k + 1];
  }

  ghost function JoinStore(store: Store, lv: Level, l: nat, j: nat): Store
    requires j + 1 < |lv| && lv[j].id in store && lv[j + 1].id in store
    requires j + 2 < |lv| ==> lv[j + 2].id in store
  {
    var store1 := store[lv[j].id := Block(l, lv[j].ents + lv[j + 1].ents, store[lv[j].id].left, store[lv[j + 1].id].right)];
    var store2 := if j + 2 < |lv| then store1[lv[j + 2].id := store[lv[j + 2].id].(left := lv[j].id)] else store1;
    store2 - {lv[j + 1].id}
  }

  lemma JoinIds(lv: Level, j: nat)
    requires j + 1 < |lv| && DistinctIds(lv)
    ensures DistinctIds(JoinLevel(lv, j))
  {
    var lv' := JoinLevel(lv, j);
    forall i, k | 0 <= i < k < |lv'| ensures lv'[i].id != lv'[k].id {
      assert lv'[i].id == lv[if i <= j then i else i + 1].id;
      assert lv'[k].id == lv[if k <= j then k else k + 1].id;
    }
  }

  lemma JoinBlkTied(store: Store, lv: Level, l: nat, j: nat, i: nat)
    requires Tied(store, lv, l) && j + 1 < |lv| && i + 1 < |lv|
    requires lv[j].id in store && lv[j + 1].id in store && (j + 2 < |lv| ==> lv[j + 2].id in store)
    ensures BlkTied(JoinStore(store, lv, l, j), JoinLevel(lv, j), l, i)
  {
    assert BlkTied(store, lv, l, j) && BlkTied(store, lv, l, j + 1);
    var lv' := JoinLevel(lv, j);
    var o := if i <= j then i else i + 1;
    assert BlkTied(store, lv, l, o);
    assert lv'[i].id == lv[o].id;
    assert i > 0 ==> lv'[i - 1].id == lv[if i - 1 <= j then i - 1 else i].id;
    assert i + 2 < |lv| ==> lv'[i + 1].id == lv[if i + 1 <= j then i + 1 else i + 2].id;
    assert o != j ==> lv[o].id != lv[j].id;
    assert lv[o].id != lv[j + 1].id;
    assert o != j + 2 && j + 2 < |lv| ==> lv[o].id != lv[j + 2].id;
  }

  lemma TiedJoin(store: Store, lv: Level, l: nat, j: nat)
    requires Tied(store, lv, l) && j + 1 < |lv|
    ensures lv[j].id in store && lv[j + 1].id in store && (j + 2 < |lv| ==> lv[j + 2].id in store)
    ensures Tied(JoinStore(store, lv, l, j), JoinLevel(lv, j), l)
  {
    assert BlkTied(store, lv, l, j) && BlkTied(store, lv, l, j + 1);
    assert j + 2 < |lv| ==> BlkTied(store, lv, l, j + 2);
    var lv' := JoinLevel(lv, j);
    var store' := JoinStore(store, lv, l, j);
    JoinIds(lv, j);
    forall p | p in store' && store'[p].level == l ensures HasBlk(lv', p) {
      assert HasBlk(lv, p);
      var i :| 0 <= i < |lv| && lv[i].id == p;
      assert i != j + 1;
      assert lv'[if i <= j then i else i - 1].id == p;
    }
    forall i | 0 <= i < |lv'| ensures BlkTied(store', lv', l, i) {
      JoinBlkTied(store, lv, l, j, i);
    }
  }

  lemma JoinOther(store: Store, lv: Level, l: nat, j: nat)
    requires Tied(store, lv, l) && j + 1 < |lv|
    ensures lv[j].id in store && lv[j + 1].id in store && (j + 2 < |lv| ==> lv[j + 2].id in store)
    ensures var store' := JoinStore(store, lv, l, j);
            && store'.Keys == store.Keys - {lv[j + 1].id}
            && (forall p :: p in store && store[p].level != l ==> p in store' && store'[p] == store[p])
            && (forall p :: p in store' ==> p in store && store'[p].level == store[p].level)
  {
    assert BlkTied(store, lv, l, j) && BlkTied(store, lv, l, j + 1);
    assert j + 2 < |lv| ==> BlkTied(store, lv, l, j + 2);
    assert lv[j].id != lv[j + 1].id && (j + 2 < |lv| ==> lv[j + 2].id != lv[j + 1].id);
  }

  /** A block went from the tree to the freelist. */
  lemma GaveOne(store: Store, store': Store, queue: seq<Ptr>, p: Ptr)
    requires p in store && store'.Keys == store.Keys - {p}
    ensures store'.Keys + Elems(queue + [p]) == store.Keys + Elems(queue)
    ensures |store'| == |store| - 1
  {
    assert |store'.Keys| == |store'| && |store.Keys| == |store|;
    assert forall x :: x in queue + [p] <==> x in queue || x == p;
  }

  /** Move all of the right block to the left one, unchain the right one and free it. */
  method JoinBlocks(t: Btree, lptr: Ptr, rptr: Ptr, ghost l: nat, ghost j: nat)
    requires t.Core() && l < t.nlevels && j + 1 < |t.lv[l]| && lptr == t.lv[l][j].id && rptr == t.lv[l][j + 1].id
    requires t.fl.flcount < t.fl.slots.Length
    modifies t`store, t`lv, t.fl, t.fl.slots
    ensures t.Core() && t.lv == old(t.lv)[l := JoinLevel(old(t.lv[l]), j)]
    ensures t.fl.queue == old(t.fl.queue) + [rptr]
    ensures Balance(t, old(Owned(t)), |old(t.store)| + old(|t.fl.queue|), old(t.fl.btreeblks) + old(|t.fl.queue|))
  {
    hide Flat, Tied, AllTied, JoinLevel, Off;
    ghost var store0, lv0 := t.store, t.lv;
    JoinChain(t, lptr, rptr, l, j);
    GaveOne(store0, t.store, t.fl.queue, rptr);
    t.fl.Put(rptr, true);
  }

  method JoinChain(t: Btree, lptr: Ptr, rptr: Ptr, ghost l: nat, ghost j: nat)
    requires t.Core() && l < t.nlevels && j + 1 < |t.lv[l]| && lptr == t.lv[l][j].id && rptr == t.lv[l][j + 1].id
    modifies t`store, t`lv
    ensures t.Core() && t.lv == old(t.lv)[l := JoinLevel(old(t.lv[l]), j)]
    ensures rptr in old(t.store) && t.store.Keys == old(t.store).Keys - {rptr} && rptr !in t.fl.queue && rptr != NULLAGBLOCK
  {
    hide Flat, Off, FreeList.Valid;
    ghost var store0 := t.store;
    var left := t.ReadBlock(lptr, l, j);
    var right := t.ReadBlock(rptr, l, j + 1);
    t.store := t.store[lptr := Block(left.level, left.ents + right.ents, left.left, right.right)];
    if right.right != NULLAGBLOCK {
      assert BlkTied(store0, t.lv[l], l, j + 2);
      var rr := t.store[right.right];
      t.store := t.store[right.right := rr.(left := lptr)];
    }
    t.store := t.store - {rptr};
    TiedJoin(store0, t.lv[l], l, j);
    JoinOther(store0, t.lv[l], l, j);
    assert t.store == JoinStore(store0, t.lv[l], l, j);
    forall m | 0 <= m < t.nlevels && m != l ensures Tied(t.store, t.lv[m], m) {
      TiedOther(store0, t.store, t.lv[m], m, l);
    }
    t.lv := t.lv[l := JoinLevel(t.lv[l], j)];
  }

  /** The path below level p. */
  ghost predicate LowerPath(lv: seq<Level>, cur: Cursor, p: nat)
    reads cur
  {
    && cur.Fits() && cur.nlevels == |lv| && p <= |lv|
    && (p > 0 ==> cur.pos[0] < |lv[0]| && 1 <= cur.ptrs[0] <= |lv[0][cur.pos[0]].ents| + 1)
    && (forall m {:trigger AtBlk(lv, cur.bufs, cur.pos, m)} :: 0 <= m < p ==> AtBlk(lv, cur.bufs, cur.pos, m))
    && (forall m {:trigger AtEntry(lv, cur.ptrs, cur.pos, m)} :: 0 < m < p ==> AtEntry(lv, cur.ptrs, cur.pos, m))
  }

  /** The links below level p. */
  ghost predicate LowerLinks(lv: seq<Level>, p: nat) {
    p <= |lv| && forall m {:trigger LinkAt(lv, m)} :: 0 < m < p ==> LinkAt(lv, m)
  }

  /** Levels below p have blocks of the size of those that are not the root. */
  ghost predicate LowerSizes(t: Btree, lv: seq<Level>, p: nat) {
    p <= |lv| && forall m :: 0 <= m < p ==> Sized(lv[m], t.MinRecs(m), t.MaxRecs(m))
  }

  /** What holds of the tree around level p while an entry is being deleted there. */
  ghost predicate Around(t: Btree, cur: Cursor, p: nat)
    reads t`store, t`root, t`nlevels, t`lv, t.fl, t.fl.slots, cur
  {
    && t.Core() && t.Rooted() && p < t.nlevels
    && cur.On(t.lv, p) && LinksFrom(t.lv, p) && cur.pos[p] < |t.lv[p]|
    && LowerPath(t.lv, cur, p) && LowerLinks(t.lv, p) && LowerSizes(t, t.lv, p)
    && SizesFrom(t, t.lv, p + 1)
    && (p > 0 ==> cur.At(t.lv, p) == cur.pos[p - 1] + 1)
  }

  /** The entry at the cursor is to be deleted from level p; at level p the level below lacks it already. */
  ghost predicate Deleting(t: Btree, cur: Cursor, p: nat)
    reads t`store, t`root, t`nlevels, t`lv, t.fl, t.fl.slots, cur
  {
    && Around(t, cur, p) && SizedAt(t, t.lv, p)
    && 1 <= cur.ptrs[p] <= |t.lv[p][cur.pos[p]].ents|
    && 0 <= cur.At(t.lv, p) < |Flat(t.lv[p])|
    && (p > 0 ==> HeadsBut(Del(Flat(t.lv[p]), cur.At(t.lv, p)), t.lv[p - 1], -1))
  }

  /** All blocks of the right size, but that block b may be one entry short. */
  ghost predicate SizedBut(lv: Level, b: nat, lo: nat, hi: nat) {
    && b < |lv|
    && (forall i :: 0 <= i < |lv| && i != b ==> lo <= |lv[i].ents| <= hi)
    && lo <= |lv[b].ents| + 1 && |lv[b].ents| <= hi
  }

  /** The entry is gone from level p; the cursor's block may be too small. */
  ghost predicate Excised(t: Btree, cur: Cursor, p: nat)
    reads t`store, t`root, t`nlevels, t`lv, t.fl, t.fl.slots, cur
  {
    && Around(t, cur, p)
    && SizedBut(t.lv[p], cur.pos[p], t.Least(|t.lv|, p), t.MaxRecs(p))
    && 1 <= cur.ptrs[p] <= |t.lv[p][cur.pos[p]].ents| + 1
    && (p > 0 ==> LinkAt(t.lv, p))
  }

  /** The tree is in order again, and so is the cursor. */
  ghost predicate Done(t: Btree, cur: Cursor)
    reads t`store, t`root, t`nlevels, t`lv, t.fl, t.fl.slots, cur
  {
    && t.Valid() && cur.On(t.lv, 0) && cur.pos[0] < |t.lv[0]|
    && 1 <= cur.ptrs[0] <= |t.lv[0][cur.pos[0]].ents| + 1
  }

  lemma Finish(t: Btree, cur: Cursor, p: nat)
    requires t.Core() && t.Rooted() && p < t.nlevels
    requires cur.On(t.lv, p) && LinksFrom(t.lv, p) && cur.pos[p] < |t.lv[p]|
    requires LowerPath(t.lv, cur, p) && LowerLinks(t.lv, p) && LowerSizes(t, t.lv, p)
    requires SizesFrom(t, t.lv, p)
    requires if p > 0 then LinkAt(t.lv, p) && Points(t.lv[p], cur.pos[p], cur.ptrs[p], cur.pos[p - 1])
             else 1 <= cur.ptrs[0] <= |t.lv[0][cur.pos[0]].ents| + 1
    ensures Done(t, cur)
  {
    forall m | 0 <= m < |t.lv| ensures AtBlk(t.lv, cur.bufs, cur.pos, m) {
    }
    forall m | 0 < m < |t.lv| ensures AtEntry(t.lv, cur.ptrs, cur.pos, m) {
    }
    forall m | 0 < m < |t.lv| ensures LinkAt(t.lv, m) {
    }
    forall m | 0 <= m < |t.lv| ensures SizedAt(t, t.lv, m) {
    }
    assert AtBlk(t.lv, cur.bufs, cur.pos, 0);
  }

  /** Take the entry at the cursor out of its block and update the parents' keys if it was the first. */
  method ExciseEntry(t: Btree, cur: Cursor, p: nat)
    requires t.Core() && t.Rooted() && p < t.nlevels && cur.On(t.lv, p) && LinksFrom(t.lv, p)
    requires cur.pos[p] < |t.lv[p]| && 1 <= cur.ptrs[p] <= |t.lv[p][cur.pos[p]].ents|
    requires p + 1 < t.nlevels ==> |t.lv[p][cur.pos[p]].ents| >= 2
    modifies t`store, t`lv
    ensures t.Core() && t.Rooted() && cur.On(t.lv, p) && LinksFrom(t.lv, p) && t.store.Keys == old(t.store).Keys
    ensures ShapeFrom(old(t.lv)[p := WithEnts(old(t.lv[p]), cur.pos[p], Del(old(t.lv[p][cur.pos[p]].ents), cur.ptrs[p] - 1))],
                      t.lv, p + 1)
  {
    hide AllTied, Stores, FreeList.Valid;
    ghost var lv0, b := t.lv, cur.pos[p];
    assert AtBlk(lv0, cur.bufs, cur.pos, p);
    var block := t.ReadBlock(cur.bufs[p], p, b);
    var ptr := cur.ptrs[p];
    var ents := block.ents[..ptr - 1] + block.ents[ptr..];
    t.SetEnts(cur.bufs[p], ents, p, b);
    ghost var lv1 := t.lv;
    OnPathLevel(lv0, lv1[p], cur.bufs, cur.ptrs, cur.pos, p);
    if p + 1 < t.nlevels {
      AboveAll(lv0, cur, p);
      PutAbove(lv0, lv1, cur, p, lv0[p], true, ents);
      if ptr == 1 {
        UpdKey(t, cur, ents[0].key, p + 1, lv1[p], b);
      }
      ExciseShape(lv1, t.lv, cur, p);
    }
  }

  lemma ExciseShape(lv1: seq<Level>, lv: seq<Level>, cur: Cursor, p: nat)
    requires p + 1 < |lv1| && ShapeFrom(lv1, lv, p + 1) && |lv1[|lv1| - 1]| == 1
    requires cur.On(lv1, p) && LinksFrom(lv, p + 1) && Linked(lv[p + 1], lv1[p])
    ensures |lv| == |lv1| && |lv[|lv| - 1]| == 1 && cur.On(lv, p) && LinksFrom(lv, p)
  {
    ShapeFromFacts(lv1, lv, p + 1);
    assert SameShape(lv1[|lv1| - 1], lv[|lv1| - 1]);
    OnPathShapeAbove(lv1, lv, cur.bufs, cur.ptrs, cur.pos, p);
    assert LinkAt(lv, p + 1);
  }

  lemma LowerKeep(t: Btree, lv0: seq<Level>, lv: seq<Level>, cur: Cursor, p: nat)
    requires |lv0| == |lv| && p < |lv| && ShapeFrom(lv0[p := lv[p]], lv, p + 1)
    ensures lv[..p] == lv0[..p]
    ensures LowerPath(lv0, cur, p) ==> LowerPath(lv, cur, p)
    ensures LowerLinks(lv0, p) ==> LowerLinks(lv, p)
    ensures LowerSizes(t, lv0, p) ==> LowerSizes(t, lv, p)
    ensures SizesFrom(t, lv0, p + 1) ==> SizesFrom(t, lv, p + 1)
    ensures |lv[|lv| - 1]| == |lv0[|lv| - 1]| || p == |lv| - 1
  {
    var lv1 := lv0[p := lv[p]];
    ShapeFromFacts(lv1, lv, p + 1);
    assert SameShape(lv1[|lv| - 1], lv[|lv| - 1]);
    if LowerPath(lv0, cur, p) {
      forall m | 0 <= m < p ensures AtBlk(lv, cur.bufs, cur.pos, m) {
        assert AtBlk(lv0, cur.bufs, cur.pos, m);
      }
      forall m | 0 < m < p ensures AtEntry(lv, cur.ptrs, cur.pos, m) {
        assert AtEntry(lv0, cur.ptrs, cur.pos, m);
      }
    }
    if LowerLinks(lv0, p) {
      forall m | 0 < m < p ensures LinkAt(lv, m) {
        assert LinkAt(lv0, m);
      }
    }
    if SizesFrom(t, lv0, p + 1) {
      forall m | p + 1 <= m < |lv| ensures SizedAt(t, lv1, m) {
        assert SizedAt(t, lv0, m);
      }
      SizesShape(t, lv1, lv, p + 1, p + 1);
    }
  }

  lemma ToExcised(t: Btree, lv0: seq<Level>, cur: Cursor, p: nat, b: nat, ptr: int)
    requires t.Core() && t.Rooted() && p < t.nlevels && cur.On(t.lv, p) && LinksFrom(t.lv, p)
    requires |lv0| == |t.lv| && b < |lv0[p]| && 1 <= ptr <= |lv0[p][b].ents| && b == cur.pos[p] && ptr == cur.ptrs[p]
    requires ShapeFrom(lv0[p := WithEnts(lv0[p], b, Del(lv0[p][b].ents, ptr - 1))], t.lv, p + 1)
    requires LowerPath(lv0, cur, p) && LowerLinks(lv0, p) && LowerSizes(t, lv0, p) && SizesFrom(t, lv0, p)
    requires p > 0 ==> Off(lv0[p], b) + ptr - 1 == cur.pos[p - 1] + 1 < |Flat(lv0[p])|
                       && HeadsBut(Del(Flat(lv0[p]), Off(lv0[p], b) + ptr - 1), lv0[p - 1], -1)
    ensures Excised(t, cur, p)
    ensures Off(lv0[p], b) + ptr - 1 < |Flat(lv0[p])|
    ensures Flat(t.lv[p]) == Del(Flat(lv0[p]), Off(lv0[p], b) + ptr - 1)
    ensures Off(t.lv[p], b) == Off(lv0[p], b) && t.lv[..p] == lv0[..p]
  {
    hide Flat, Off, Tied;
    var ents := Del(lv0[p][b].ents, ptr - 1);
    AfterPut(t, lv0, t.lv, p, b, ents);
    FlatDel(lv0[p], b, ptr - 1);
    LowerKeep(t, lv0, t.lv, cur, p);
    assert SizedAt(t, lv0, p);
    if p > 0 {
      assert t.lv[p - 1] == t.lv[..p][p - 1] == lv0[p - 1];
      assert LinkAt(t.lv, p);
    }
  }

  /** Leaf c is one entry shorter; the other leaves are as they were, and so are the shapes above. */
  ghost predicate Thinned(lv: seq<Level>, lv': seq<Level>, c: nat) {
    && |lv'| == |lv| > 0 && c < |lv[0]| == |lv'[0]| && |lv'[0][c].ents| + 1 == |lv[0][c].ents|
    && (forall i :: 0 <= i < |lv[0]| && i != c ==> lv'[0][i] == lv[0][i])
    && forall m :: 0 < m < |lv| ==> SameShape(lv[m], lv'[m])
  }

  lemma ThinnedLess(lv: seq<Level>, lv': seq<Level>, c: nat)
    requires Thinned(lv, lv', c)
    ensures |lv'| == |lv| > 0 && c < |lv[0]| == |lv'[0]| && |lv'[0][c].ents| + 1 == |lv[0][c].ents|
  {
  }

  lemma ThinnedShape(lv: seq<Level>, lv': seq<Level>, c: nat, ents: seq<Entry>)
    requires |lv| > 0 && c < |lv[0]| && |ents| + 1 == |lv[0][c].ents|
    requires ShapeFrom(lv[0 := WithEnts(lv[0], c, ents)], lv', 1)
    ensures Thinned(lv, lv', c)
  {
    var lv1 := lv[0 := WithEnts(lv[0], c, ents)];
    ShapeFromFacts(lv1, lv', 1);
    forall m | 0 < m < |lv| ensures SameShape(lv[m], lv'[m]) {
      assert SameShape(lv1[m], lv'[m]);
    }
  }

  method Excise(t: Btree, cur: Cursor, p: nat)
    requires Deleting(t, cur, p)
    modifies t`store, t`lv
    ensures Excised(t, cur, p) && t.store.Keys == old(t.store).Keys && t.nlevels == old(t.nlevels)
    ensures Flat(t.lv[p]) == Del(Flat(old(t.lv[p])), old(cur.At(t.lv, p)))
    ensures cur.At(t.lv, p) == old(cur.At(t.lv, p))
    ensures t.lv[..p] == old(t.lv)[..p]
    ensures p == 0 ==> Thinned(old(t.lv), t.lv, old(cur.pos[0])) && cur.pos == old(cur.pos)
  {
    hide Thinned, Flat, Off, AllTied, Stores, FreeList.Valid;
    ghost var lv0 := t.lv;
    assert SizedAt(t, lv0, p);
    ExciseEntry(t, cur, p);
    if p == 0 {
      ThinnedShape(lv0, t.lv, cur.pos[0], Del(lv0[0][cur.pos[0]].ents, cur.ptrs[0] - 1));
    }
    ToExcised(t, lv0, cur, p, cur.pos[p], cur.ptrs[p]);
  }

  lemma LowerPathSame(lv: seq<Level>, bufs: seq<Ptr>, ptrs: seq<int>, pos: seq<nat>, cur: Cursor, p: nat)
    requires cur.Fits() && |bufs| == |ptrs| == |pos| == |lv| == cur.nlevels && p <= |lv|
    requires forall m {:trigger AtBlk(lv, bufs, pos, m)} :: 0 <= m < p ==> AtBlk(lv, bufs, pos, m)
    requires forall m {:trigger AtEntry(lv, ptrs, pos, m)} :: 0 < m < p ==> AtEntry(lv, ptrs, pos, m)
    requires p > 0 ==> pos[0] < |lv[0]| && 1 <= ptrs[0] <= |lv[0][pos[0]].ents| + 1
    requires forall m :: 0 <= m < p ==> cur.bufs[m] == bufs[m] && cur.ptrs[m] == ptrs[m] && cur.pos[m] == pos[m]
    ensures LowerPath(lv, cur, p)
  {
    forall m | 0 <= m < p ensures AtBlk(lv, cur.bufs, cur.pos, m) {
      assert AtBlk(lv, bufs, pos, m);
    }
    forall m | 0 < m < p ensures AtEntry(lv, cur.ptrs, cur.pos, m) {
      assert AtEntry(lv, ptrs, pos, m);
    }
  }

  /** The entry before the one at (b, ptr). */
  lemma Before1(lv: Level, b: nat, ptr: int, b': nat, ptr': int)
    requires b < |lv| && 1 <= ptr <= |lv[b].ents| + 1 && Off(lv, b) + ptr - 1 > 0
    requires if ptr > 1 then b' == b && ptr' == ptr - 1
             else b > 0 ==> b' == b - 1 && ptr' == |lv[b - 1].ents| > 0
    ensures b > 0 || ptr > 1
    ensures Points(lv, b', ptr', Off(lv, b) + ptr - 2)
  {
    OffFull(lv);
    if b > 0 {
      FlatAt(lv, b - 1);
    }
  }

  /** Above the leaves, move the cursor back to the entry before the one deleted. */
  method DecCursor(t: Btree, cur: Cursor, p: nat)
    requires Excised(t, cur, p) && SizedAt(t, t.lv, p)
    modifies cur
    ensures Done(t, cur) && cur.rec == old(cur.rec)
    ensures cur.pos[0] == old(cur.pos)[0] && cur.ptrs[0] == old(cur.ptrs)[0]
  {
    ghost var b, ptr, k := cur.pos[p], cur.ptrs[p], cur.At(t.lv, p);
    ghost var bufs0, ptrs0, pos0 := cur.bufs, cur.ptrs, cur.pos;
    if p > 0 {
      LinksChild(t.lv, p);
      assert p + 1 < |t.lv| ==> LinkAt(t.lv, p + 1);
      OffFull(t.lv[p]);
      var stat := Decrement(t, cur, p);
      Before1(t.lv[p], b, ptr, cur.pos[p], cur.ptrs[p]);
      LowerPathSame(t.lv, bufs0, ptrs0, pos0, cur, p);
      assert AtBlk(t.lv, cur.bufs, cur.pos, p);
    }
    assert SizesFrom(t, t.lv, p);
    Finish(t, cur, p);
  }

  /** The tree around level p after a shift there between blocks that leaves the level's entries alone. */
  lemma AfterShift(t: Btree, lv0: seq<Level>, cur: Cursor, p: nat, x: Level)
    requires t.Core() && p + 1 < t.nlevels && |lv0| == |t.lv| && |lv0[|lv0| - 1]| == 1
    requires cur.On(lv0, p) && LinksFrom(t.lv, p) && cur.pos[p] < |lv0[p]|
    requires LowerPath(lv0, cur, p) && LowerLinks(lv0, p) && LowerSizes(t, lv0, p) && SizesFrom(t, lv0, p + 1)
    requires |x| == |lv0[p]| && (forall i :: 0 <= i < |x| ==> x[i].id == lv0[p][i].id) && Flat(x) == Flat(lv0[p])
    requires ShapeFrom(lv0[p := x], t.lv, p + 1)
    requires p > 0 ==> LinkAt(lv0, p)
    ensures t.lv[p] == x && t.lv[..p] == lv0[..p] && t.Rooted() && cur.On(t.lv, p)
    ensures LowerPath(t.lv, cur, p) && LowerLinks(t.lv, p) && LowerSizes(t, t.lv, p) && SizesFrom(t, t.lv, p + 1)
    ensures p > 0 ==> LinkAt(t.lv, p)
  {
    ShapeFromFacts(lv0[p := x], t.lv, p + 1);
    LowerKeep(t, lv0, t.lv, cur, p);
    OnPathLevel(lv0, x, cur.bufs, cur.ptrs, cur.pos, p);
    OnPathShapeAbove(lv0[p := x], t.lv, cur.bufs, cur.ptrs, cur.pos, p);
    if p > 0 {
      assert t.lv[p - 1] == t.lv[..p][p - 1] == lv0[p - 1];
      assert LinkAt(lv0, p);
    }
  }

  /** A temporary cursor at the last entry of the block to the right. */
  method CursorRight(t: Btree, cur: Cursor, p: nat) returns (tcur: Cursor)
    requires t.Core() && t.Rooted() && p < t.nlevels && cur.On(t.lv, p) && LinksFrom(t.lv, p)
    requires cur.pos[p] + 1 < |t.lv[p]|
    ensures fresh(tcur) && tcur.On(t.lv, p) && tcur.pos[p] == cur.pos[p] + 1
    ensures tcur.ptrs[p] == |t.lv[p][cur.pos[p] + 1].ents|
  {
    hide AllTied, Stores, FreeList.Valid, Flat, Off;
    tcur := new Cursor.Dup(cur);
    assert AtBlk(t.lv, cur.bufs, cur.pos, p);
    var block := t.ReadBlock(cur.bufs[p], p, cur.pos[p]);
    tcur.ptrs := tcur.ptrs[p := |block.ents|];
    PathSetPtr(t.lv, cur.bufs, cur.ptrs, cur.pos, p, |block.ents|);
    LinksChild(t.lv, p);
    var i := Increment(t, tcur, p);
    assert AtBlk(t.lv, tcur.bufs, tcur.pos, p);
    block := t.ReadBlock(tcur.bufs[p], p, tcur.pos[p]);
    PathSetPtr(t.lv, tcur.bufs, tcur.ptrs, tcur.pos, p, |block.ents|);
    tcur.ptrs := tcur.ptrs[p := |block.ents|];
  }

  /** A temporary cursor at the first entry of the block to the left. */
  method CursorLeft(t: Btree, cur: Cursor, p: nat) returns (tcur: Cursor)
    requires t.Core() && t.Rooted() && p < t.nlevels && cur.On(t.lv, p) && LinksFrom(t.lv, p)
    requires 0 < cur.pos[p] < |t.lv[p]|
    ensures fresh(tcur) && tcur.On(t.lv, p) && tcur.pos[p] == cur.pos[p] - 1
    ensures tcur.ptrs[p] == 1
  {
    tcur := new Cursor.Dup(cur);
    tcur.ptrs := tcur.ptrs[p := 1];
    PathSetPtr(t.lv, cur.bufs, cur.ptrs, cur.pos, p, 1);
    LinksChild(t.lv, p);
    var i := Decrement(t, tcur, p);
    PathSetPtr(t.lv, tcur.bufs, tcur.ptrs, tcur.pos, p, 1);
    tcur.ptrs := tcur.ptrs[p := 1];
  }

  /** The leaves' entries, the number of them before the cursor (and one more), and the cursor's record. */
  datatype LeafView = LeafView(flat: seq<Entry>, at: int, rec: Rec)

  ghost function View(t: Btree, cur: Cursor): LeafView
    requires |t.lv| > 0 && |cur.pos| > 0 && |cur.ptrs| > 0 && cur.pos[0] < |t.lv[0]|
    reads t`lv, cur
  {
    LeafView(Flat(t.lv[0]), Off(t.lv[0], cur.pos[0]) + cur.ptrs[0], cur.rec)
  }

  /** A step at some level leaves the leaves' entries and the place of the cursor there. */
  ghost predicate LeafKept(t: Btree, cur: Cursor, view: LeafView)
    reads t`lv, cur
  {
    && |t.lv| > 0 && |cur.pos| > 0 && |cur.ptrs| > 0 && cur.pos[0] < |t.lv[0]|
    && View(t, cur) == view
  }

  /** The block at the cursor is one entry short and not the root. */
  ghost predicate Short(t: Btree, cur: Cursor, p: nat)
    reads t`store, t`root, t`nlevels, t`lv, t.fl, t.fl.slots, cur
  {
    Excised(t, cur, p) && p + 1 < t.nlevels && |t.lv[p][cur.pos[p]].ents| + 1 == t.MinRecs(p)
  }

  lemma ShortSizes(t: Btree, cur: Cursor, p: nat)
    requires Short(t, cur, p)
    ensures t.MinRecs(p) >= 2 && t.lv[p][cur.pos[p]].ents != []
    ensures forall i :: 0 <= i < |t.lv[p]| && i != cur.pos[p] ==> t.MinRecs(p) <= |t.lv[p][i].ents| <= t.MaxRecs(p)
    ensures 2 * t.MinRecs(p) <= t.MaxRecs(p)
  {
  }

  /**
   * How block b of a level, one entry short, is filled up again: by an entry of the right neighbour, if that can spare it, or
   * else of the left one; or else it is joined with the left neighbour, or the right one if it is the first.
   */
  ghost predicate Refilled(lv: Level, lv': Level, b: nat, lo: nat) {
    && b < |lv|
    && if b + 1 < |lv| && |lv[b + 1].ents| > lo then lv' == ShiftedLeft(lv, b)
       else if b > 0 && |lv[b - 1].ents| > lo then lv' == ShiftedRight(lv, b - 1)
       else if b > 0 then lv' == JoinLevel(lv, b - 1)
       else 1 < |lv| && lv' == JoinLevel(lv, 0)
  }

  /** The first entry of the block to the right, which can spare it, comes over. */
  method TakeFromRight(t: Btree, cur: Cursor, tcur: Cursor, p: nat)
    requires Short(t, cur, p) && cur != tcur && tcur.On(t.lv, p)
    requires cur.pos[p] + 1 < |t.lv[p]| && tcur.pos[p] == cur.pos[p] + 1
    requires tcur.ptrs[p] == |t.lv[p][cur.pos[p] + 1].ents| > t.MinRecs(p)
    modifies t`store, t`lv, tcur
    ensures Excised(t, cur, p) && SizedAt(t, t.lv, p) && cur.At(t.lv, p) == old(cur.At(t.lv, p))
    ensures Flat(t.lv[p]) == Flat(old(t.lv[p])) && t.lv[..p] == old(t.lv)[..p]
    ensures t.lv[p] == ShiftedLeft(old(t.lv[p]), cur.pos[p])
    ensures t.store.Keys == old(t.store).Keys && t.nlevels == old(t.nlevels)
  {
    hide AllTied, Stores, FreeList.Valid, Tied, Linked;
    ghost var lv0, b := t.lv, cur.pos[p];
    ghost var l, r := t.lv[p][b].ents, t.lv[p][b + 1].ents;
    ShortSizes(t, cur, p);
    var done := Lshift(t, tcur, p);
    FlatShift(lv0[p], b, l + [r[0]], r[1..]);
    AfterShift(t, lv0, cur, p, ShiftedLeft(lv0[p], b));
  }

  /** If the block to the right can spare an entry, shift one out of it. */
  method BorrowRight(t: Btree, cur: Cursor, p: nat) returns (done: bool)
    requires Short(t, cur, p)
    modifies t`store, t`lv
    ensures done == old(cur.pos[p] + 1 < |t.lv[p]| && |t.lv[p][cur.pos[p] + 1].ents| - 1 >= t.MinRecs(p))
    ensures !done ==> t.lv == old(t.lv) && t.store == old(t.store)
    ensures done ==> Excised(t, cur, p) && SizedAt(t, t.lv, p) && cur.At(t.lv, p) == old(cur.At(t.lv, p))
                     && Flat(t.lv[p]) == Flat(old(t.lv[p])) && t.lv[..p] == old(t.lv)[..p]
    ensures done ==> Refilled(old(t.lv[p]), t.lv[p], cur.pos[p], t.MinRecs(p))
    ensures t.store.Keys == old(t.store).Keys && t.nlevels == old(t.nlevels)
  {
    hide AllTied, Stores, FreeList.Valid, Flat, Off, Tied, LinkAt;
    ghost var b := cur.pos[p];
    assert AtBlk(t.lv, cur.bufs, cur.pos, p);
    var block := t.ReadBlock(cur.bufs[p], p, b);
    if block.right == NULLAGBLOCK {
      return false;
    }
    var tcur := CursorRight(t, cur, p);
    assert AtBlk(t.lv, tcur.bufs, tcur.pos, p);
    var right := t.ReadBlock(tcur.bufs[p], p, b + 1);
    if |right.ents| - 1 < t.MinRecs(p) {
      return false;
    }
    TakeFromRight(t, cur, tcur, p);
    done := true;
  }

  /** The last entry of the block to the left, which can spare it, comes over. */
  method TakeFromLeft(t: Btree, cur: Cursor, tcur: Cursor, p: nat)
    requires Short(t, cur, p) && cur != tcur && tcur.On(t.lv, p)
    requires cur.pos[p] > 0 && tcur.pos[p] == cur.pos[p] - 1
    requires tcur.ptrs[p] == 1 && |t.lv[p][cur.pos[p] - 1].ents| > t.MinRecs(p)
    modifies t`store, t`lv
    ensures t.Core() && t.Rooted() && p < t.nlevels && SizedAt(t, t.lv, p) && cur.On(t.lv, p) && LinksFrom(t.lv, p)
              && cur.pos[p] < |t.lv[p]|
    ensures LowerPath(t.lv, cur, p) && LowerLinks(t.lv, p) && LowerSizes(t, t.lv, p) && SizesFrom(t, t.lv, p + 1)
    ensures p > 0 ==> LinkAt(t.lv, p) && Points(t.lv[p], cur.pos[p], cur.ptrs[p], cur.pos[p - 1])
    ensures cur.ptrs[p] <= |t.lv[p][cur.pos[p]].ents|
    ensures Off(t.lv[p], cur.pos[p]) + 1 == old(Off(t.lv[p], cur.pos[p]))
    ensures Flat(t.lv[p]) == Flat(old(t.lv[p])) && t.lv[..p] == old(t.lv)[..p]
    ensures t.lv[p] == ShiftedRight(old(t.lv[p]), cur.pos[p] - 1)
    ensures t.store.Keys == old(t.store).Keys && t.nlevels == old(t.nlevels)
  {
    hide Tied, Linked, AllTied, Stores, FreeList.Valid, Flat, Off;
    ghost var lv0, b := t.lv, cur.pos[p];
    ghost var l, r := t.lv[p][b - 1].ents, t.lv[p][b].ents;
    ShortSizes(t, cur, p);
    var done := Rshift(t, tcur, p);
    FlatShift(lv0[p], b - 1, l[..|l| - 1], [l[|l| - 1]] + r);
    FlatAt(lv0[p], b - 1);
    AfterShift(t, lv0, cur, p, ShiftedRight(lv0[p], b - 1));
  }

  /** If the block to the left can spare an entry, shift one out of it. */
  method BorrowLeft(t: Btree, cur: Cursor, p: nat) returns (done: bool)
    requires Short(t, cur, p)
    requires cur.pos[p] + 1 < |t.lv[p]| ==> |t.lv[p][cur.pos[p] + 1].ents| <= t.MinRecs(p)
    modifies t`store, t`lv, cur`ptrs
    ensures done == old(cur.pos[p] > 0 && |t.lv[p][cur.pos[p] - 1].ents| - 1 >= t.MinRecs(p))
    ensures !done ==> t.lv == old(t.lv) && t.store == old(t.store) && cur.ptrs == old(cur.ptrs)
    ensures done ==> Done(t, cur) && LeafKept(t, cur, old(View(t, cur)))
    ensures done ==> Refilled(old(t.lv[p]), t.lv[p], old(cur.pos[p]), t.MinRecs(p))
    ensures t.store.Keys == old(t.store).Keys && t.nlevels == old(t.nlevels)
  {
    hide Flat, Off, Tied, LinkAt, AllTied, Stores, FreeList.Valid;
    ghost var b := cur.pos[p];
    assert AtBlk(t.lv, cur.bufs, cur.pos, p);
    var block := t.ReadBlock(cur.bufs[p], p, b);
    if block.left == NULLAGBLOCK {
      return false;
    }
    var tcur := CursorLeft(t, cur, p);
    assert AtBlk(t.lv, tcur.bufs, tcur.pos, p);
    var left := t.ReadBlock(tcur.bufs[p], p, b - 1);
    if |left.ents| - 1 < t.MinRecs(p) {
      return false;
    }
    TakeFromLeft(t, cur, tcur, p);
    assert SizesFrom(t, t.lv, p);
    if p == 0 {
      PathSetPtr(t.lv, cur.bufs, cur.ptrs, cur.pos, 0, cur.ptrs[0] + 1);
      cur.ptrs := cur.ptrs[0 := cur.ptrs[0] + 1];
    }
    Finish(t, cur, p);
    assert p > 0 ==> t.lv[0] == t.lv[..p][0];
    done := true;
  }

  /** The cursor's state that ToDeleting asks for, the levels being those before the join. */
  ghost predicate JoinCursor(lv: seq<Level>, cur: Cursor, p: nat, j: nat)
    reads cur
  {
    && p + 1 < |lv| && j + 1 < |lv[p]|
    && cur.On(lv, p + 1) && LowerPath(lv, cur, p)
    && Points(lv[p + 1], cur.pos[p + 1], cur.ptrs[p + 1], j + 1)
    && cur.pos[p] == j && cur.bufs[p] == lv[p][j].id
    && (if p > 0 then Points(JoinLevel(lv[p], j), j, cur.ptrs[p], cur.pos[p - 1])
        else 1 <= cur.ptrs[0] <= |JoinLevel(lv[p], j)[j].ents| + 1)
  }

  /** The tree's state that ToDeleting asks for: the levels before the join. */
  ghost predicate JoinTree(t: Btree, lv: seq<Level>, p: nat, j: nat) {
    && p + 1 < |lv| && j + 1 < |lv[p]| && |lv[|lv| - 1]| == 1
    && LinksFrom(lv, p) && LowerLinks(lv, p) && (p > 0 ==> LinkAt(lv, p))
    && SizesFrom(t, lv, p + 1) && LowerSizes(t, lv, p)
    && Sized(JoinLevel(lv[p], j), t.MinRecs(p), t.MaxRecs(p))
  }

  /** After a join at level p, the right block's entry is the one to delete above. */
  lemma ToDeleting(t: Btree, lv0: seq<Level>, cur: Cursor, p: nat, j: nat)
    requires t.Core() && t.nlevels == |lv0| && JoinTree(t, lv0, p, j)
    requires t.lv == lv0[p := JoinLevel(lv0[p], j)]
    requires JoinCursor(lv0, cur, p, j)
    ensures Deleting(t, cur, p + 1) && t.lv[..p] == lv0[..p]
  {
    hide AllTied, Stores, FreeList.Valid, Tied, Flat, Off;
    assert LinkAt(lv0, p + 1);
    JoinPending(Flat(lv0[p + 1]), lv0[p], j);
    JoinFlat(lv0[p], j);
    forall m | p + 1 <= m < |t.lv| ensures AtBlk(t.lv, cur.bufs, cur.pos, m) && SizedAt(t, t.lv, m) {
      assert AtBlk(lv0, cur.bufs, cur.pos, m) && SizedAt(t, lv0, m);
    }
    forall m | p + 1 < m < |t.lv| ensures AtEntry(t.lv, cur.ptrs, cur.pos, m) && LinkAt(t.lv, m) {
      assert AtEntry(lv0, cur.ptrs, cur.pos, m) && LinkAt(lv0, m);
    }
    forall m | 0 <= m < p + 1 ensures AtBlk(t.lv, cur.bufs, cur.pos, m) {
      assert m < p ==> AtBlk(lv0, cur.bufs, cur.pos, m);
    }
    forall m | 0 < m < p + 1 ensures AtEntry(t.lv, cur.ptrs, cur.pos, m) && LinkAt(t.lv, m) {
      assert m < p ==> AtEntry(lv0, cur.ptrs, cur.pos, m);
      assert LinkAt(lv0, m);
    }
    FlatIndex(lv0[p + 1], cur.pos[p + 1], cur.ptrs[p + 1] - 1);
  }

  /** The sizes after two small neighbours have been made one. */
  lemma JoinSizes(lv: Level, b: nat, j: nat, lo: nat, hi: nat)
    requires j + 1 < |lv| && (b == j || b == j + 1) && lo >= 2
    requires SizedBut(lv, b, lo, hi) && |lv[j].ents| + |lv[j + 1].ents| <= hi
    ensures Sized(JoinLevel(lv, j), lo, hi)
  {
    var lv' := JoinLevel(lv, j);
    forall i | 0 <= i < |lv'| ensures lo <= |lv'[i].ents| <= hi {
      assert i != j ==> lv'[i] == lv[if i < j then i else i + 1];
    }
  }

  /** Where the cursor is at level p: block b, the place the entry deleted had. */
  ghost predicate AtHole(lv: seq<Level>, cur: Cursor, p: nat, b: nat)
    reads cur
  {
    && p + 1 < |lv| && cur.On(lv, p) && LowerPath(lv, cur, p)
    && b < |lv[p]| && cur.pos[p] == b && 1 <= cur.ptrs[p] <= |lv[p][b].ents| + 1
    && (p > 0 ==> cur.At(lv, p) == cur.pos[p - 1] + 1)
  }

  /** Set the cursor to the left block, which the entries of its own block are about to join. */
  method CursorToLeft(cur: Cursor, p: nat, lbp: Ptr, lrecs: nat, ghost lv: seq<Level>, ghost b: nat)
    requires AtHole(lv, cur, p, b) && 0 < b && lbp == lv[p][b - 1].id && lrecs == |lv[p][b - 1].ents| > 0
    modifies cur
    ensures JoinCursor(lv, cur, p, b - 1) && cur.rec == old(cur.rec)
    ensures p == 0 ==> Off(lv[0], b - 1) + cur.ptrs[0] - 1 == old(cur.At(lv, 0))
    ensures p > 0 ==> cur.pos[0] == old(cur.pos)[0] && cur.ptrs[0] == old(cur.ptrs)[0]
  {
    hide Flat, Off;
    ghost var bufs0, ptrs0, pos0 := cur.bufs, cur.ptrs, cur.pos;
    assert AtBlk(lv, bufs0, pos0, p) && AtEntry(lv, ptrs0, pos0, p + 1);
    JoinFlat(lv[p], b - 1);
    FlatAt(lv[p], b - 1);
    var ptr := cur.ptrs[p] + lrecs;
    if p > 0 {
      ptr := ptr - 1;
    }
    cur.bufs, cur.ptrs, cur.pos := cur.bufs[p := lbp], cur.ptrs[p := ptr], cur.pos[p := b - 1];
    PathSame(lv, bufs0, ptrs0, pos0, cur.bufs, cur.ptrs, cur.pos, p + 1);
    LowerPathSame(lv, bufs0, ptrs0, pos0, cur, p);
  }

  /** Join the cursor's block into its left neighbour. */
  method JoinLeft(t: Btree, cur: Cursor, p: nat, lbp: Ptr, lrecs: nat)
    requires Short(t, cur, p) && cur.pos[p] > 0 && t.fl.flcount < t.fl.slots.Length
    requires lbp == t.lv[p][cur.pos[p] - 1].id && lrecs == |t.lv[p][cur.pos[p] - 1].ents|
    requires lrecs + |t.lv[p][cur.pos[p]].ents| <= t.MaxRecs(p)
    modifies t`store, t`lv, t.fl, t.fl.slots, cur
    ensures t.nlevels == old(t.nlevels) && p + 1 < t.nlevels && Deleting(t, cur, p + 1)
    ensures cur.rec == old(cur.rec)
    ensures Flat(t.lv[p]) == Flat(old(t.lv[p])) && t.lv[..p] == old(t.lv)[..p]
    ensures t.lv[p] == JoinLevel(old(t.lv[p]), old(cur.pos[p]) - 1)
    ensures p == 0 ==> cur.At(t.lv, 0) == old(cur.At(t.lv, 0))
    ensures p > 0 ==> cur.pos[0] == old(cur.pos)[0] && cur.ptrs[0] == old(cur.ptrs)[0]
    ensures t.fl.flcount == old(t.fl.flcount) + 1
    ensures Balance(t, old(Owned(t)), |old(t.store)| + old(|t.fl.queue|), old(t.fl.btreeblks) + old(|t.fl.queue|))
  {
    hide Tied, Flat, Off, Stores;
    ghost var lv0, b := t.lv, cur.pos[p];
    ShortSizes(t, cur, p);
    JoinSizes(lv0[p], b, b - 1, t.MinRecs(p), t.MaxRecs(p));
    JoinFlat(lv0[p], b - 1);
    assert JoinTree(t, lv0, p, b - 1);
    var rbp := cur.bufs[p];
    assert AtBlk(t.lv, cur.bufs, cur.pos, p);
    CursorToLeft(cur, p, lbp, lrecs, lv0, b);
    JoinBlocks(t, lbp, rbp, p, b - 1);
    ToDeleting(t, lv0, cur, p, b - 1);
  }

  /** One entry on, wherever that is. */
  lemma After1(lv: Level, b: nat, ptr: int, b': nat, ptr': int)
    requires b < |lv| && Points(lv, b, ptr, Off(lv, b) + ptr - 1) && NonEmpty(lv) && Off(lv, b) + ptr < |Flat(lv)|
    requires if ptr < |lv[b].ents| then b' == b && ptr' == ptr + 1
             else b + 1 < |lv| ==> b' == b + 1 && ptr' == 1
    ensures ptr < |lv[b].ents| || b + 1 < |lv|
    ensures Points(lv, b', ptr', Off(lv, b) + ptr)
  {
    if ptr == |lv[b].ents| {
      NextEntry(lv, b, ptr, Off(lv, b) + ptr - 1);
    }
  }

  /** The values of a path to a place in the first block of level p. */
  ghost predicate PathHole(lv: seq<Level>, bufs: seq<Ptr>, ptrs: seq<int>, pos: seq<nat>, p: nat) {
    && p + 1 < |lv| == |bufs| == |ptrs| == |pos| && 2 <= |lv[p]|
    && (forall m {:trigger AtBlk(lv, bufs, pos, m)} :: 0 <= m < p ==> AtBlk(lv, bufs, pos, m))
    && (forall m {:trigger AtEntry(lv, ptrs, pos, m)} :: 0 < m < p ==> AtEntry(lv, ptrs, pos, m))
    && (p > 0 ==> pos[0] < |lv[0]| && 1 <= ptrs[0] <= |lv[0][pos[0]].ents| + 1)
    && pos[p] == 0 && bufs[p] == lv[p][0].id && 1 <= ptrs[p] <= |lv[p][0].ents| + 1
    && (p > 0 ==> ptrs[p] == pos[p - 1] + 2)
    && NonEmpty(lv[p + 1]) && |Flat(lv[p + 1])| == |lv[p]| && Points(lv[p + 1], pos[p + 1], ptrs[p + 1], 0)
  }

  lemma RightStart(lv: seq<Level>, cur: Cursor, p: nat)
    requires AtHole(lv, cur, p, 0) && |lv[p]| >= 2 && LinksFrom(lv, p) && |lv[|lv| - 1]| == 1
    ensures PathHole(lv, cur.bufs, cur.ptrs, cur.pos, p) && cur.On(lv, p + 1) && LinksFrom(lv, p + 1)
  {
    hide Flat, Tied;
    assert AtBlk(lv, cur.bufs, cur.pos, p) && AtBlk(lv, cur.bufs, cur.pos, p + 1) && AtEntry(lv, cur.ptrs, cur.pos, p + 1);
    assert LinkAt(lv, p + 1) && (p + 2 < |lv| ==> LinkAt(lv, p + 2));
    OffFull(lv[p]);
  }

  lemma RightDone(lv: seq<Level>, bufs: seq<Ptr>, ptrs: seq<int>, pos: seq<nat>, cur: Cursor, p: nat)
    requires PathHole(lv, bufs, ptrs, pos, p) && cur.On(lv, p + 1) && cur.Fits()
    requires forall m :: 0 <= m <= p ==> cur.bufs[m] == bufs[m] && cur.pos[m] == pos[m]
    requires forall m :: 0 <= m < p ==> cur.ptrs[m] == ptrs[m]
    requires cur.ptrs[p] == if p > 0 then ptrs[p] - 1 else ptrs[0]
    requires if ptrs[p + 1] < |lv[p + 1][pos[p + 1]].ents| then cur.pos[p + 1] == pos[p + 1] && cur.ptrs[p + 1] == ptrs[p + 1] + 1
             else pos[p + 1] + 1 < |lv[p + 1]| ==> cur.pos[p + 1] == pos[p + 1] + 1 && cur.ptrs[p + 1] == 1
    ensures JoinCursor(lv, cur, p, 0)
  {
    hide Flat, Tied, NonEmpty;
    After1(lv[p + 1], pos[p + 1], ptrs[p + 1], cur.pos[p + 1], cur.ptrs[p + 1]);
    OffFull(JoinLevel(lv[p], 0));
    LowerPathSame(lv, bufs, ptrs, pos, cur, p);
  }

  /**
   * The level above is to lose the entry of the block to the right of the cursor's, the leftmost:
   * move on to it there. The place at level p is not changed but for the step back above the leaves.
   */
  method CursorToRight(t: Btree, cur: Cursor, p: nat)
    requires t.Core() && t.Rooted() && AtHole(t.lv, cur, p, 0) && |t.lv[p]| >= 2 && LinksFrom(t.lv, p)
    modifies cur
    ensures JoinCursor(t.lv, cur, p, 0) && cur.rec == old(cur.rec)
    ensures cur.pos[0] == old(cur.pos)[0] && cur.ptrs[0] == old(cur.ptrs)[0]
  {
    hide Flat, Tied, Off, LinkAt, ChildLinksFrom, LinksFrom, LowerPath, OnPath, NonEmpty, Btree.Core;
    ghost var lv, bufs0, ptrs0, pos0 := t.lv, cur.bufs, cur.ptrs, cur.pos;
    RightStart(lv, cur, p);
    LinksChild(lv, p + 1);
    var stat := Increment(t, cur, p + 1);
    PathAfterClimb(lv, cur.bufs, cur.ptrs, cur.pos, cur.ptrs[p := cur.ptrs[p] - 1], p + 1, p + 1);
    if p > 0 {
      cur.ptrs := cur.ptrs[p := cur.ptrs[p] - 1];
    }
    RightDone(lv, bufs0, ptrs0, pos0, cur, p);
  }

  /** Join the block to the right into the cursor's, which is the leftmost. */
  method JoinRight(t: Btree, cur: Cursor, p: nat, rbp: Ptr)
    requires Short(t, cur, p) && cur.pos[p] == 0 && 1 < |t.lv[p]| && t.fl.flcount < t.fl.slots.Length
    requires rbp == t.lv[p][1].id
    requires |t.lv[p][0].ents| + |t.lv[p][1].ents| <= t.MaxRecs(p)
    modifies t`store, t`lv, t.fl, t.fl.slots, cur
    ensures t.nlevels == old(t.nlevels) && p + 1 < t.nlevels && Deleting(t, cur, p + 1)
    ensures cur.rec == old(cur.rec)
    ensures Flat(t.lv[p]) == Flat(old(t.lv[p])) && t.lv[..p] == old(t.lv)[..p]
    ensures t.lv[p] == JoinLevel(old(t.lv[p]), 0)
    ensures p == 0 ==> cur.At(t.lv, 0) == old(cur.At(t.lv, 0))
    ensures p > 0 ==> cur.pos[0] == old(cur.pos)[0] && cur.ptrs[0] == old(cur.ptrs)[0]
    ensures t.fl.flcount == old(t.fl.flcount) + 1
    ensures Balance(t, old(Owned(t)), |old(t.store)| + old(|t.fl.queue|), old(t.fl.btreeblks) + old(|t.fl.queue|))
  {
    hide Flat, Tied, Off, AllTied, Stores;
    ghost var lv0 := t.lv;
    ShortSizes(t, cur, p);
    JoinSizes(lv0[p], 0, 0, t.MinRecs(p), t.MaxRecs(p));
    JoinFlat(lv0[p], 0);
    assert JoinTree(t, lv0, p, 0);
    var lbp := cur.bufs[p];
    assert AtBlk(t.lv, cur.bufs, cur.pos, p);
    CursorToRight(t, cur, p);
    JoinBlocks(t, lbp, rbp, p, 0);
    ToDeleting(t, lv0, cur, p, 0);
  }

  /**
   * Join with a neighbour. Neither has an entry to spare, so a join is always possible, and it
   * is one with the left neighbour unless there is none.
   */
  method JoinEither(t: Btree, cur: Cursor, p: nat)
    requires Short(t, cur, p) && t.fl.flcount < t.fl.slots.Length
    requires cur.pos[p] > 0 ==> |t.lv[p][cur.pos[p] - 1].ents| <= t.MinRecs(p)
    requires cur.pos[p] + 1 < |t.lv[p]| ==> |t.lv[p][cur.pos[p] + 1].ents| <= t.MinRecs(p)
    modifies t`store, t`lv, t.fl, t.fl.slots, cur
    ensures t.nlevels == old(t.nlevels) && p + 1 < t.nlevels && Deleting(t, cur, p + 1)
    ensures cur.rec == old(cur.rec)
    ensures Flat(t.lv[p]) == Flat(old(t.lv[p])) && t.lv[..p] == old(t.lv)[..p]
    ensures Refilled(old(t.lv[p]), t.lv[p], old(cur.pos[p]), t.MinRecs(p))
    ensures p == 0 ==> cur.At(t.lv, 0) == old(cur.At(t.lv, 0))
    ensures p > 0 ==> cur.pos[0] == old(cur.pos)[0] && cur.ptrs[0] == old(cur.ptrs)[0]
    ensures t.fl.flcount == old(t.fl.flcount) + 1
    ensures Balance(t, old(Owned(t)), |old(t.store)| + old(|t.fl.queue|), old(t.fl.btreeblks) + old(|t.fl.queue|))
  {
    hide AllTied, Stores, FreeList.Valid, Flat, Off, Tied, LinkAt;
    ghost var b := cur.pos[p];
    ShortSizes(t, cur, p);
    TwoBlocks(t, cur, p);
    assert AtBlk(t.lv, cur.bufs, cur.pos, p);
    var block := t.ReadBlock(cur.bufs[p], p, b);
    var lrecs, rrecs := 0, 0;
    if block.left != NULLAGBLOCK {
      var left := t.ReadBlock(block.left, p, b - 1);
      lrecs := |left.ents|;
    }
    if block.right != NULLAGBLOCK {
      var right := t.ReadBlock(block.right, p, b + 1);
      rrecs := |right.ents|;
    }
    if block.left != NULLAGBLOCK && lrecs + |block.ents| <= t.MaxRecs(p) {
      JoinLeft(t, cur, p, block.left, lrecs);
    } else if block.right != NULLAGBLOCK && rrecs + |block.ents| <= t.MaxRecs(p) {
      JoinRight(t, cur, p, block.right);
    } else {
      // the imbalance that cannot be fixed
      assert false;
    }
  }

  /** Join with a neighbour, as seen from the leaves. */
  method Join(t: Btree, cur: Cursor, p: nat)
    requires Short(t, cur, p) && t.fl.flcount < t.fl.slots.Length
    requires cur.pos[p] > 0 ==> |t.lv[p][cur.pos[p] - 1].ents| <= t.MinRecs(p)
    requires cur.pos[p] + 1 < |t.lv[p]| ==> |t.lv[p][cur.pos[p] + 1].ents| <= t.MinRecs(p)
    modifies t`store, t`lv, t.fl, t.fl.slots, cur
    ensures t.nlevels == old(t.nlevels) && p + 1 < t.nlevels && Deleting(t, cur, p + 1)
    ensures LeafKept(t, cur, old(View(t, cur)))
    ensures Refilled(old(t.lv[p]), t.lv[p], old(cur.pos[p]), t.MinRecs(p))
    ensures t.fl.flcount == old(t.fl.flcount) + 1
    ensures Balance(t, old(Owned(t)), |old(t.store)| + old(|t.fl.queue|), old(t.fl.btreeblks) + old(|t.fl.queue|))
  {
    hide AllTied, Stores, FreeList.Valid, Flat, Off;
    ghost var lv0 := t.lv;
    JoinEither(t, cur, p);
    hide Deleting, Excised, Around, Balance;
    assert p > 0 ==> t.lv[0] == t.lv[..p][0] == lv0[..p][0];
  }

  /** A level that is not the top one has two blocks at least. */
  lemma TwoBlocks(t: Btree, cur: Cursor, p: nat)
    requires Excised(t, cur, p) && p + 1 < t.nlevels
    ensures |t.lv[p]| >= 2
  {
    assert LinkAt(t.lv, p + 1) && SizedAt(t, t.lv, p + 1);
    assert t.MinRecs(p + 1) >= 2;
    assert AtEntry(t.lv, cur.ptrs, cur.pos, p + 1);
    FlatAt(t.lv[p + 1], cur.pos[p + 1]);
  }

  /** The single block below the root becomes the root. */
  method DropRoot(t: Btree, newroot: Ptr)
    requires t.Core() && t.Rooted() && t.nlevels > 1
    requires |t.lv[t.nlevels - 2]| > 0 && newroot == t.lv[t.nlevels - 2][0].id
    modifies t`store, t`lv, t`root, t`nlevels
    ensures t.Core() && t.lv == old(t.lv)[..old(t.nlevels) - 1]
    ensures old(t.root) in old(t.store) && t.store.Keys == old(t.store).Keys - {old(t.root)}
    ensures old(t.root) !in t.fl.queue && old(t.root) != NULLAGBLOCK
  {
    ghost var store0, lv0, n := t.store, t.lv, t.nlevels;
    assert BlkTied(t.store, t.lv[n - 1], n - 1, 0);
    t.store := t.store - {t.root};
    t.root := newroot;
    t.nlevels := t.nlevels - 1;
    t.lv := t.lv[..n - 1];
    forall m | 0 <= m < n - 1 ensures Tied(t.store, t.lv[m], m) {
      assert Tied(store0, lv0[m], m);
      TiedOther(store0, t.store, lv0[m], m, n - 1);
    }
    OnlyRoot(store0, lv0, n - 1);
  }

  /** The top level has no block but the root. */
  lemma OnlyRoot(store: Store, lv: seq<Level>, top: nat)
    requires top < |lv| && |lv[top]| == 1 && Tied(store, lv[top], top)
    ensures forall p :: p in store && store[p].level == top ==> p == lv[top][0].id
  {
    forall p | p in store && store[p].level == top ensures p == lv[top][0].id {
      assert HasBlk(lv[top], p);
    }
  }

  /** All that is known before the root at level p is dropped. */
  ghost predicate ToKill(t: Btree, lv: seq<Level>, cur: Cursor, p: nat)
    reads cur
  {
    && 0 < p && |lv| == p + 1 && |lv[p - 1]| == 1
    && LowerPath(lv, cur, p) && LowerLinks(lv, p) && LowerSizes(t, lv, p)
  }

  method ShrinkCursor(t: Btree, cur: Cursor, p: nat, ghost lv0: seq<Level>)
    requires t.mxr >= 4 && t.mxn >= 4 && ToKill(t, lv0, cur, p)
    modifies cur
    ensures cur.On(lv0[..p], 0) && cur.rec == old(cur.rec)
    ensures cur.pos[0] == old(cur.pos)[0] && cur.ptrs[0] == old(cur.ptrs)[0]
    ensures LinksFrom(lv0[..p], 0) && SizesFrom(t, lv0[..p], 0)
    ensures cur.pos[0] < |lv0[0]| && 1 <= cur.ptrs[0] <= |lv0[0][cur.pos[0]].ents| + 1
  {
    ghost var bufs, ptrs, pos, lv := cur.bufs, cur.ptrs, cur.pos, lv0[..p];
    cur.Shrink(p);
    forall m | 0 <= m < p ensures AtBlk(lv, cur.bufs, cur.pos, m) && SizedAt(t, lv, m) {
      assert AtBlk(lv0, bufs, pos, m);
      assert t.MinRecs(m) >= 2;
    }
    forall m | 0 < m < p ensures AtEntry(lv, cur.ptrs, cur.pos, m) && LinkAt(lv, m) {
      assert AtEntry(lv0, ptrs, pos, m) && LinkAt(lv0, m);
    }
  }

  /** The old root goes to the freelist. */
  method FreeRoot(t: Btree, newroot: Ptr)
    requires t.Core() && t.Rooted() && t.nlevels > 1
    requires |t.lv[t.nlevels - 2]| > 0 && newroot == t.lv[t.nlevels - 2][0].id
    requires t.fl.flcount < t.fl.slots.Length
    modifies t`store, t`lv, t`root, t`nlevels, t.fl, t.fl.slots
    ensures t.Core() && t.lv == old(t.lv)[..old(t.nlevels) - 1]
    ensures t.fl.flcount == old(t.fl.flcount) + 1
    ensures Balance(t, old(Owned(t)), |old(t.store)| + old(|t.fl.queue|), old(t.fl.btreeblks) + old(|t.fl.queue|))
  {
    hide Tied;
    ghost var store0 := t.store;
    var bp := t.root;
    DropRoot(t, newroot);
    GaveOne(store0, t.store, t.fl.queue, bp);
    t.fl.Put(bp, true);
  }

  /** A root left with one child goes to the freelist; the child is the new root. */
  method KillRoot(t: Btree, cur: Cursor, p: nat)
    requires Excised(t, cur, p) && p + 1 == t.nlevels && p > 0 && |t.lv[p][0].ents| == 1
    requires t.fl.flcount < t.fl.slots.Length
    modifies t`store, t`lv, t`root, t`nlevels, t.fl, t.fl.slots, cur
    ensures Done(t, cur) && cur.rec == old(cur.rec) && t.nlevels == old(t.nlevels) - 1
    ensures t.lv[0] == old(t.lv)[0] && cur.pos[0] == old(cur.pos)[0] && cur.ptrs[0] == old(cur.ptrs)[0]
    ensures t.fl.flcount == old(t.fl.flcount) + 1
    ensures Balance(t, old(Owned(t)), |old(t.store)| + old(|t.fl.queue|), old(t.fl.btreeblks) + old(|t.fl.queue|))
  {
    hide Tied, AllTied, Stores, FreeList.Valid;
    ghost var lv0 := t.lv;
    var block := t.ReadBlock(t.root, p, 0);
    assert LinkAt(lv0, p);
    FlatAt(lv0[p], 0);
    assert ToKill(t, lv0, cur, p);
    ShrinkCursor(t, cur, p, lv0);
    FreeRoot(t, block.ents[0].child);
  }

  /** Rebalance the tree where an entry has gone; true if the level above has something to do. */
  method Rebalance(t: Btree, cur: Cursor, p: nat) returns (more: bool)
    requires Excised(t, cur, p) && t.fl.flcount < t.fl.slots.Length
    modifies t`store, t`lv, t`root, t`nlevels, t.fl, t.fl.slots, cur
    ensures more ==> p + 1 < t.nlevels == old(t.nlevels) && Deleting(t, cur, p + 1)
    ensures !more ==> Done(t, cur) && old(t.nlevels) - 1 <= t.nlevels <= old(t.nlevels)
    ensures old((p + 1 < t.nlevels && |t.lv[p][cur.pos[p]].ents| >= t.MinRecs(p)) || t.nlevels == p + 1 == 1) ==>
              !more && t.lv == old(t.lv) && t.fl.queue == old(t.fl.queue)
    ensures LeafKept(t, cur, old(View(t, cur)))
    ensures old(t.fl.flcount) <= t.fl.flcount <= old(t.fl.flcount) + 1
    ensures Balance(t, old(Owned(t)), |old(t.store)| + old(|t.fl.queue|), old(t.fl.btreeblks) + old(|t.fl.queue|))
  {
    hide Flat, Off, AllTied, Stores, FreeList.Valid, Tied;
    ghost var lv0 := t.lv;
    assert AtBlk(t.lv, cur.bufs, cur.pos, p);
    var block := t.ReadBlock(cur.bufs[p], p, cur.pos[p]);
    more := false;
    if p + 1 == t.nlevels && p > 0 && |block.ents| == 1 {
      KillRoot(t, cur, p);
    } else if p + 1 == t.nlevels || |block.ents| >= t.MinRecs(p) {
      DecCursor(t, cur, p);
    } else {
      more := RebalanceShort(t, cur, p);
    }
  }

  /** Borrow from the right if possible, and step back above the leaves. */
  method ShareRight(t: Btree, cur: Cursor, p: nat) returns (done: bool)
    requires Short(t, cur, p)
    modifies t`store, t`lv, cur
    ensures done == old(cur.pos[p] + 1 < |t.lv[p]| && |t.lv[p][cur.pos[p] + 1].ents| - 1 >= t.MinRecs(p))
    ensures if done then Done(t, cur) && LeafKept(t, cur, old(View(t, cur)))
            else Short(t, cur, p) && t.lv == old(t.lv) && t.store == old(t.store)
    ensures done ==> Refilled(old(t.lv[p]), t.lv[p], old(cur.pos[p]), t.MinRecs(p))
    ensures !done ==> cur.pos == old(cur.pos) && cur.ptrs == old(cur.ptrs) && cur.rec == old(cur.rec)
    ensures t.store.Keys == old(t.store).Keys && t.nlevels == old(t.nlevels)
  {
    done := BorrowRight(t, cur, p);
    if done {
      assert p > 0 ==> t.lv[0] == t.lv[..p][0];
      DecCursor(t, cur, p);
    }
  }

  /** Borrow from the right if possible, or else from the left. */
  method BorrowEither(t: Btree, cur: Cursor, p: nat) returns (done: bool)
    requires Short(t, cur, p)
    modifies t`store, t`lv, cur
    ensures if done then Done(t, cur) && LeafKept(t, cur, old(View(t, cur)))
            else Short(t, cur, p) && t.lv == old(t.lv) && t.store == old(t.store)
    ensures done ==> Refilled(old(t.lv[p]), t.lv[p], old(cur.pos[p]), t.MinRecs(p))
    ensures !done ==> cur.pos == old(cur.pos) && cur.ptrs == old(cur.ptrs) && cur.rec == old(cur.rec)
    ensures !done ==>
              && (cur.pos[p] > 0 ==> |t.lv[p][cur.pos[p] - 1].ents| <= t.MinRecs(p))
              && (cur.pos[p] + 1 < |t.lv[p]| ==> |t.lv[p][cur.pos[p] + 1].ents| <= t.MinRecs(p))
    ensures t.store.Keys == old(t.store).Keys && t.nlevels == old(t.nlevels)
  {
    hide Done, Excised, Around, Flat, Off, Tied, AllTied, Stores, Refilled;
    done := ShareRight(t, cur, p);
    if !done {
      done := BorrowLeft(t, cur, p);
    }
  }

  /** Rebalance a block that is one entry short: borrow right, borrow left, join. */
  method RebalanceShort(t: Btree, cur: Cursor, p: nat) returns (more: bool)
    requires Short(t, cur, p) && t.fl.flcount < t.fl.slots.Length
    modifies t`store, t`lv, t.fl, t.fl.slots, cur
    ensures t.nlevels == old(t.nlevels) && p + 1 < t.nlevels
    ensures if more then Deleting(t, cur, p + 1) else Done(t, cur)
    ensures LeafKept(t, cur, old(View(t, cur)))
    ensures Refilled(old(t.lv[p]), t.lv[p], old(cur.pos[p]), t.MinRecs(p))
    ensures old(t.fl.flcount) <= t.fl.flcount <= old(t.fl.flcount) + 1
    ensures Balance(t, old(Owned(t)), |old(t.store)| + old(|t.fl.queue|), old(t.fl.btreeblks) + old(|t.fl.queue|))
  {
    hide Done, Deleting, Excised, Around, Flat, Off, Tied, AllTied, Stores, Refilled, LeafKept;
    more := false;
    var done := BorrowEither(t, cur, p);
    if done {
      SameKeys(old(t.store), t.store);
    } else {
      Join(t, cur, p);
      more := true;
    }
  }

  /**
   * Whether the by-size tree's longest extent changes, and what to: the cursor is where a record of the
   * last leaf was.
   */
  method LastrecDelete(t: Btree, cur: Cursor, ghost before: seq<Rec>, ghost k: nat) returns (last: bool, len: nat)
    requires Excised(t, cur, 0) && cur.At(t.lv, 0) == k < |before| && t.Recs() == Del(before, k)
    ensures LastCount(Del(before, k)) == if last then len else LastCount(before)
  {
    hide AllTied, Stores, FreeList.Valid, Tied;
    assert AtBlk(t.lv, cur.bufs, cur.pos, 0);
    ghost var b := cur.pos[0];
    var block := t.ReadBlock(cur.bufs[0], 0, b);
    last := block.right == NULLAGBLOCK && cur.ptrs[0] > |block.ents|;
    len := 0;
    FlatAt(t.lv[0], b);
    if b + 1 < |t.lv[0]| {
      FlatPair(t.lv[0], b);
      assert LinkAt(t.lv, 1);
    } else {
      assert t.lv[0][b + 1..] == [];
    }
    if |block.ents| > 0 {
      len := block.ents[|block.ents| - 1].key.count;
      FlatIndex(t.lv[0], b, |block.ents| - 1);
    }
    assert forall i :: 0 <= i < |t.Recs()| ==> t.Recs()[i] == before[if i < k then i else i + 1];
  }

  lemma KeysDel(es: seq<Entry>, k: nat)
    requires k < |es|
    ensures Keys(Del(es, k)) == Del(Keys(es), k)
  {
  }

  /** The first round of Delete: the record goes from its leaf. */
  method DeleteLeaf(t: Btree, cur: Cursor) returns (more: bool, last: bool, len: nat)
    requires Deleting(t, cur, 0) && t.fl.flcount < t.fl.slots.Length
    modifies t`store, t`lv, t`root, t`nlevels, t.fl, t.fl.slots, cur
    ensures more ==> 1 < t.nlevels == old(t.nlevels) && Deleting(t, cur, 1)
    ensures !more ==> Done(t, cur) && old(t.nlevels) - 1 <= t.nlevels <= old(t.nlevels)
    ensures 0 <= old(cur.At(t.lv, 0)) < old(|t.Recs()|)
    ensures |t.lv| > 0 && t.Recs() == Del(old(t.Recs()), old(cur.At(t.lv, 0)))
    ensures old(|t.lv[0][cur.pos[0]].ents| > t.MinRecs(0) || t.nlevels == 1) ==>
              !more && Thinned(old(t.lv), t.lv, old(cur.pos[0])) && t.fl.queue == old(t.fl.queue)
    ensures LeafKept(t, cur, old(LeafView(Del(Flat(t.lv[0]), cur.At(t.lv, 0)), View(t, cur).at, cur.rec)))
    ensures old(t.fl.flcount) <= t.fl.flcount <= old(t.fl.flcount) + 1
    ensures Balance(t, old(Owned(t)), |old(t.store)| + old(|t.fl.queue|), old(t.fl.btreeblks) + old(|t.fl.queue|))
    ensures LastCount(t.Recs()) == if last then len else LastCount(old(t.Recs()))
  {
    hide Thinned, Flat, Off, AllTied, Stores, FreeList.Valid, Tied;
    ghost var lv0, recs, k := t.lv, t.Recs(), cur.At(t.lv, 0);
    KeysDel(Flat(t.lv[0]), k);
    Excise(t, cur, 0);
    ThinnedLess(lv0, t.lv, cur.pos[0]);
    SameKeys(old(t.store), t.store);
    last, len := LastrecDelete(t, cur, recs, k);
    more := Rebalance(t, cur, 0);
  }

  /** A round of Delete above the leaves. */
  method DeleteStep(t: Btree, cur: Cursor, p: nat) returns (more: bool)
    requires p > 0 && Deleting(t, cur, p) && t.fl.flcount < t.fl.slots.Length
    modifies t`store, t`lv, t`root, t`nlevels, t.fl, t.fl.slots, cur
    ensures more ==> p + 1 < t.nlevels == old(t.nlevels) && Deleting(t, cur, p + 1)
    ensures !more ==> Done(t, cur) && old(t.nlevels) - 1 <= t.nlevels <= old(t.nlevels)
    ensures LeafKept(t, cur, old(View(t, cur)))
    ensures old(t.fl.flcount) <= t.fl.flcount <= old(t.fl.flcount) + 1
    ensures Balance(t, old(Owned(t)), |old(t.store)| + old(|t.fl.queue|), old(t.fl.btreeblks) + old(|t.fl.queue|))
  {
    ghost var lv0 := t.lv;
    Excise(t, cur, p);
    assert t.lv[0] == t.lv[..p][0] == lv0[..p][0];
    SameKeys(old(t.store), t.store);
    more := Rebalance(t, cur, p);
  }

  /** The rounds of Delete above the leaves, up to the last. */
  method DeleteNodes(t: Btree, cur: Cursor)
    requires 1 < t.nlevels && Deleting(t, cur, 1) && t.fl.flcount + t.nlevels - 1 <= t.fl.slots.Length
    modifies t`store, t`lv, t`root, t`nlevels, t.fl, t.fl.slots, cur
    ensures Done(t, cur) && LeafKept(t, cur, old(View(t, cur)))
    ensures old(t.nlevels) - 1 <= t.nlevels <= old(t.nlevels)
    ensures old(t.fl.flcount) <= t.fl.flcount <= old(t.fl.flcount) + old(t.nlevels) - 1
    ensures Balance(t, old(Owned(t)), |old(t.store)| + old(|t.fl.queue|), old(t.fl.btreeblks) + old(|t.fl.queue|))
  {
    hide Tied, Flat, Off, AllTied, Stores, FreeList.Valid, Btree.Valid;
    ghost var n, fc := t.nlevels, t.fl.flcount;
    ghost var own, total, counted := Owned(t), |t.store| + |t.fl.queue|, t.fl.btreeblks + |t.fl.queue|;
    ghost var view := View(t, cur);
    var more, level := true, 1;
    while more
      invariant 1 <= level <= n && n - 1 <= t.nlevels <= n
      invariant more ==> level < t.nlevels == n && Deleting(t, cur, level)
      invariant !more ==> Done(t, cur)
      invariant LeafKept(t, cur, view)
      invariant fc <= t.fl.flcount <= fc + level - 1
      invariant Balance(t, own, total, counted)
      decreases more, n - level
    {
      hide Deleting, Done;
      more := DeleteStep(t, cur, level);
      level := level + 1;
    }
  }

  /** All rounds of Delete. */
  method DeleteLevels(t: Btree, cur: Cursor) returns (last: bool, len: nat)
    requires Deleting(t, cur, 0) && t.fl.flcount + t.nlevels <= t.fl.slots.Length
    modifies t`store, t`lv, t`root, t`nlevels, t.fl, t.fl.slots, cur
    ensures Done(t, cur)
    ensures 0 <= old(cur.At(t.lv, 0)) < old(|t.Recs()|)
    ensures t.Recs() == Del(old(t.Recs()), old(cur.At(t.lv, 0)))
    ensures old(|t.lv[0][cur.pos[0]].ents| > t.MinRecs(0) || t.nlevels == 1) ==>
              Thinned(old(t.lv), t.lv, old(cur.pos[0])) && t.fl.queue == old(t.fl.queue)
    ensures cur.At(t.lv, 0) == old(cur.At(t.lv, 0)) && cur.rec == old(cur.rec)
    ensures old(t.nlevels) - 1 <= t.nlevels <= old(t.nlevels)
    ensures old(t.fl.flcount) <= t.fl.flcount <= old(t.fl.flcount) + old(t.nlevels)
    ensures Balance(t, old(Owned(t)), |old(t.store)| + old(|t.fl.queue|), old(t.fl.btreeblks) + old(|t.fl.queue|))
    ensures LastCount(t.Recs()) == if last then len else LastCount(old(t.Recs()))
  {
    hide Tied, Flat, Off, AllTied, Stores, FreeList.Valid, Btree.Valid;
    var more;
    more, last, len := DeleteLeaf(t, cur);
    if more {
      DeleteNodes(t, cur);
    }
  }

  /**
   * Delete the record at the cursor; false if there is none. The cursor then is where the record was.
   * The freelist must have a slot for a block from every level.
   */
  method Delete(t: Btree, cur: Cursor) returns (stat: bool)
    requires t.Valid() && cur.On(t.lv, 0) && cur.pos[0] < |t.lv[0]|
    requires 0 <= cur.ptrs[0] <= |t.lv[0][cur.pos[0]].ents| + 1
    requires t.fl.flcount + t.nlevels <= t.fl.slots.Length
    modifies t`store, t`lv, t`root, t`nlevels, t`longest, t.fl, t.fl.slots, cur
    ensures t.Valid() && cur.On(t.lv, 0) && cur.pos[0] < |t.lv[0]| && cur.rec == old(cur.rec)
    ensures 0 <= cur.ptrs[0] <= |t.lv[0][cur.pos[0]].ents| + 1 && (stat ==> cur.ptrs[0] >= 1)
    ensures stat == old(1 <= cur.ptrs[0] <= |t.lv[0][cur.pos[0]].ents|)
    ensures cur.At(t.lv, 0) == old(cur.At(t.lv, 0))
    ensures !stat ==> t.Recs() == old(t.Recs()) && t.longest == old(t.longest)
    ensures stat ==> 0 <= old(cur.At(t.lv, 0)) < old(|t.Recs()|)
                     && t.Recs() == Del(old(t.Recs()), old(cur.At(t.lv, 0)))
    ensures stat && old(|t.lv[0][cur.pos[0]].ents| > t.MinRecs(0) || t.nlevels == 1) ==>
              Thinned(old(t.lv), t.lv, old(cur.pos[0])) && t.fl.queue == old(t.fl.queue)
    ensures old(t.nlevels) - 1 <= t.nlevels <= old(t.nlevels)
    ensures old(t.fl.flcount) <= t.fl.flcount <= old(t.fl.flcount) + old(t.nlevels)
    ensures Balance(t, old(Owned(t)), |old(t.store)| + old(|t.fl.queue|), old(t.fl.btreeblks) + old(|t.fl.queue|))
    ensures t.kind == Cnt && old(t.longest == LastCount(t.Recs())) ==> t.longest == LastCount(t.Recs())
    ensures t.kind == Bno ==> t.longest == old(t.longest)
  {
    hide Flat, Off, AllTied, Stores, FreeList.Valid;
    assert AtBlk(t.lv, cur.bufs, cur.pos, 0);
    var block := t.ReadBlock(cur.bufs[0], 0, cur.pos[0]);
    if cur.ptrs[0] == 0 || cur.ptrs[0] > |block.ents| {
      return false;
    }
    StartDelete(t, cur);
    var last, len := DeleteLevels(t, cur);
    if t.kind == Cnt && last {
      t.longest := len;
    }
    stat := true;
  }

  lemma StartDelete(t: Btree, cur: Cursor)
    requires t.Valid() && cur.On(t.lv, 0) && cur.pos[0] < |t.lv[0]|
    requires 1 <= cur.ptrs[0] <= |t.lv[0][cur.pos[0]].ents|
    ensures Deleting(t, cur, 0)
  {
    FlatIndex(t.lv[0], cur.pos[0], cur.ptrs[0] - 1);
    assert SizedAt(t, t.lv, 0);
  }
}
