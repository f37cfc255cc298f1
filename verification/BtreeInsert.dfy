/** Inserting a record: shift, split, new root. */
module BtreeInsert {
  import opened Records
  import opened Levels
  import opened FreeLists
  import opened Btrees
  import opened BtreeShift

  /** Block b cut in two after n entries; the right half gets the address given. */
  ghost function SplitLevel(lv: Level, b: nat, n: nat, rid: Ptr): Level
    requires b < |lv| && n <= |lv[b].ents|
  {
    lv[..b] + [Blk(lv[b].id, lv[b].ents[..n]), Blk(rid, lv[b].ents[n..])] + lv[b + 1..]
  }

  lemma SplitFlat(lv: Level, b: nat, n: nat, rid: Ptr)
    requires b < |lv| && n <= |lv[b].ents|
    ensures var lv' := SplitLevel(lv, b, n, rid);
            && Flat(lv') == Flat(lv)
            && Off(lv', b) == Off(lv, b)
            && Off(lv', b + 1) == Off(lv, b) + n
  {
    var lv' := SplitLevel(lv, b, n, rid);
    FlatAt(lv, b);
    FlatPair(lv', b);
    assert lv'[..b] == lv[..b] && lv'[b + 2..] == lv[b + 1..];
    Regroup(Flat(lv[..b]), lv[b].ents[..n], lv[b].ents[n..], Flat(lv[b + 1..]));
    assert lv[b].ents[..n] + lv[b].ents[n..] == lv[b].ents;
  }

  ghost function SplitStore(store: Store, lv: Level, l: nat, b: nat, n: nat, rid: Ptr): Store
    requires b < |lv| && n <= |lv[b].ents| && lv[b].id in store
    requires b + 1 < |lv| ==> lv[b + 1].id in store
  {
    var left := store[lv[b].id];
    var store1 := store[rid := Block(l, lv[b].ents[n..], lv[b].id, left.right)]
                       [lv[b].id := Block(l, lv[b].ents[..n], left.left, rid)];
    if b + 1 < |lv| then store1[lv[b + 1].id := store[lv[b + 1].id].(left := rid)] else store1
  }

  lemma SplitIds(lv: Level, b: nat, n: nat, rid: Ptr)
    requires b < |lv| && n <= |lv[b].ents|
    requires DistinctIds(lv) && forall i :: 0 <= i < |lv| ==> lv[i].id != rid
    ensures DistinctIds(SplitLevel(lv, b, n, rid))
  {
    var lv' := SplitLevel(lv, b, n, rid);
    forall i, j | 0 <= i < j < |lv'| ensures lv'[i].id != lv'[j].id {
      var i', j' := if i <= b then i else i - 1, if j <= b then j else j - 1;
      assert i != b + 1 ==> lv'[i].id == lv[i'].id;
      assert j != b + 1 ==> lv'[j].id == lv[j'].id;
    }
  }

  lemma SplitBlkTied(store: Store, lv: Level, l: nat, b: nat, n: nat, rid: Ptr, i: nat)
    requires Tied(store, lv, l) && b < |lv| && n <= |lv[b].ents| && rid !in store
    requires lv[b].id in store && (b + 1 < |lv| ==> lv[b + 1].id in store)
    requires i <= |lv|
    ensures BlkTied(SplitStore(store, lv, l, b, n, rid), SplitLevel(lv, b, n, rid), l, i)
  {
    assert BlkTied(store, lv, l, b);
    var lv' := SplitLevel(lv, b, n, rid);
    var store' := SplitStore(store, lv, l, b, n, rid);
    if i <= b {
      assert BlkTied(store, lv, l, i);
      assert lv'[i].id == lv[i].id;
      if i < b {
        assert lv[i].id != lv[b].id && (b + 1 < |lv| ==> lv[i].id != lv[b + 1].id);
      }
    } else if i == b + 1 {
      assert lv'[i] == Blk(rid, lv[b].ents[n..]);
      assert b + 1 < |lv| ==> lv'[b + 2].id == lv[b + 1].id;
    } else {
      assert BlkTied(store, lv, l, i - 1);
      assert lv'[i] == lv[i - 1];
      assert i < |lv| ==> lv'[i + 1].id == lv[i].id;
      assert lv[b].id != lv[i - 1].id && (i - 1 != b + 1 ==> lv[b + 1].id != lv[i - 1].id);
      assert i > b + 2 ==> lv'[i - 1].id == lv[i - 2].id;
    }
  }

  lemma TiedSplit(store: Store, lv: Level, l: nat, b: nat, n: nat, rid: Ptr)
    requires Tied(store, lv, l) && b < |lv| && n <= |lv[b].ents| && rid !in store
    ensures lv[b].id in store && (b + 1 < |lv| ==> lv[b + 1].id in store)
    ensures Tied(SplitStore(store, lv, l, b, n, rid), SplitLevel(lv, b, n, rid), l)
  {
    assert BlkTied(store, lv, l, b);
    assert b + 1 < |lv| ==> BlkTied(store, lv, l, b + 1);
    var lv' := SplitLevel(lv, b, n, rid);
    var store' := SplitStore(store, lv, l, b, n, rid);
    forall i | 0 <= i < |lv| ensures lv[i].id != rid {
      assert BlkTied(store, lv, l, i);
    }
    SplitIds(lv, b, n, rid);
    forall p | p in store' && store'[p].level == l ensures HasBlk(lv', p) {
      if p == rid {
        assert lv'[b + 1].id == rid;
      } else {
        assert HasBlk(lv, p);
        var i :| 0 <= i < |lv| && lv[i].id == p;
        assert lv'[if i <= b then i else i + 1].id == p;
      }
    }
    forall i | 0 <= i < |lv'| ensures BlkTied(store', lv', l, i) {
      SplitBlkTied(store, lv, l, b, n, rid, i);
    }
  }

  lemma SplitOther(store: Store, lv: Level, l: nat, b: nat, n: nat, rid: Ptr)
    requires Tied(store, lv, l) && b < |lv| && n <= |lv[b].ents| && rid !in store
    ensures lv[b].id in store && (b + 1 < |lv| ==> lv[b + 1].id in store)
    ensures var store' := SplitStore(store, lv, l, b, n, rid);
            && store'.Keys == store.Keys + {rid}
            && (forall p :: p in store && store[p].level != l ==> p in store' && store'[p] == store[p])
            && (forall p :: p in store' && store'[p].level != l ==> p in store && store[p].level != l)
            && (forall p :: p in store' ==> p in store || p == rid)
            && (forall p :: p in store' ==> if p in store then store'[p].level == store[p].level else store'[p].level == l)
  {
    assert BlkTied(store, lv, l, b);
    assert b + 1 < |lv| ==> BlkTied(store, lv, l, b + 1);
  }

  /** The blocks of a tree and those on the freelist it draws from and gives to. */
  ghost function Owned(t: Btree): set<Ptr>
    reads t`store, t.fl
  {
    t.store.Keys + Elems(t.fl.queue)
  }

  /** One block came off the freelist and into the tree. */
  lemma DrewOne(store: Store, store': Store, queue: seq<Ptr>)
    requires queue != [] && queue[0] !in store && store'.Keys == store.Keys + {queue[0]}
    ensures store'.Keys + Elems(queue[1..]) == store.Keys + Elems(queue)
    ensures |store'| == |store| + 1
  {
    assert queue == [queue[0]] + queue[1..];
    assert |store'.Keys| == |store'| && |store.Keys| == |store|;
  }

  /** Take the block for a new btree block from the freelist. */
  method AllocBlock(t: Btree) returns (bno: Ptr)
    requires t.Core() && t.fl.queue != []
    modifies t.fl
    ensures t.Core() && bno == old(t.fl.queue)[0] && t.fl.queue == old(t.fl.queue)[1..]
    ensures bno != NULLAGBLOCK && bno !in t.store && bno !in t.fl.queue
    ensures t.fl.btreeblks == old(t.fl.btreeblks) + 1
  {
    ghost var queue := t.fl.queue;
    bno := t.fl.Get(true);
    assert queue[0] in queue && forall p :: p in t.fl.queue ==> p in queue;
  }

  /** Write both halves, and the link back of the block after them. */
  method SplitChain(t: Btree, lptr: Ptr, rptr: Ptr, n: nat, ghost l: nat, ghost b: nat)
    requires t.Core() && l < t.nlevels && b < |t.lv[l]| && lptr == t.lv[l][b].id && n <= |t.lv[l][b].ents|
    requires rptr != NULLAGBLOCK && rptr !in t.store
    modifies t`store
    ensures t.lv[l][b].id in old(t.store) && (b + 1 < |t.lv[l]| ==> t.lv[l][b + 1].id in old(t.store))
    ensures t.store == SplitStore(old(t.store), t.lv[l], l, b, n, rptr)
  {
    hide Flat, Off, FreeList.Valid;
    ghost var store0 := t.store;
    assert BlkTied(store0, t.lv[l], l, b) && (b + 1 < |t.lv[l]| ==> BlkTied(store0, t.lv[l], l, b + 1));
    var left := t.ReadBlock(lptr, l, b);
    t.store := t.store[rptr := Block(left.level, left.ents[n..], lptr, left.right)]
                      [lptr := Block(left.level, left.ents[..n], left.left, rptr)];
    if left.right != NULLAGBLOCK {
      var rr := t.store[left.right];
      t.store := t.store[left.right := rr.(left := rptr)];
    }
  }

  /** Move the entries from the n-th on to the new block rptr, and chain it in. */
  method SplitBlock(t: Btree, lptr: Ptr, rptr: Ptr, n: nat, ghost l: nat, ghost b: nat)
    requires t.Core() && l < t.nlevels && b < |t.lv[l]| && lptr == t.lv[l][b].id && n <= |t.lv[l][b].ents|
    requires rptr != NULLAGBLOCK && rptr !in t.store && rptr !in t.fl.queue
    modifies t`store, t`lv
    ensures t.Core()
    ensures t.lv == old(t.lv)[l := SplitLevel(old(t.lv[l]), b, n, rptr)]
    ensures t.store.Keys == old(t.store).Keys + {rptr}
  {
    hide Flat, Off;
    ghost var store0 := t.store;
    SplitChain(t, lptr, rptr, n, l, b);
    TiedSplit(store0, t.lv[l], l, b, n, rptr);
    SplitOther(store0, t.lv[l], l, b, n, rptr);
    forall m | 0 <= m < t.nlevels && m != l ensures Tied(t.store, t.lv[m], m) {
      TiedOther(store0, t.store, t.lv[m], m, l);
    }
    t.lv := t.lv[l := SplitLevel(t.lv[l], b, n, rptr)];
  }

  /** The number of entries that move right: half, so chosen that both halves come out even. */
  function SplitRight(lrecs: nat, ptr: int): (r: nat)
    ensures lrecs / 2 <= r <= lrecs / 2 + lrecs % 2
  {
    if lrecs % 2 == 1 && ptr <= lrecs / 2 + 1 then lrecs / 2 + 1 else lrecs / 2
  }

  /**
   * With the new entry both halves come out even, but where it goes just after the middle of an odd number: then it goes to
   * the left half, which already has one more.
   */
  lemma SplitEven(lrecs: nat, ptr: int)
    ensures var r := SplitRight(lrecs, ptr);
            var left := lrecs - r;
            var more := if ptr <= left + 1 then left + 1 - r else left - (r + 1);
            if lrecs % 2 == 1 && ptr == lrecs / 2 + 2 then more == 2 else -1 <= more <= 1
  {
  }

  /** Cut the cursor's block in two, drawing a block from the freelist. */
  method Split(t: Btree, cur: Cursor, level: nat) returns (rptr: Ptr, key: Rec, lrecs: nat)
    requires t.Core() && level < t.nlevels && cur.On(t.lv, level)
    requires cur.pos[level] < |t.lv[level]| && |t.lv[level][cur.pos[level]].ents| >= 2
    requires t.fl.queue != []
    modifies t`store, t`lv, t.fl
    ensures t.Core() && rptr != NULLAGBLOCK
    ensures Owned(t) == old(Owned(t)) && |t.fl.queue| == old(|t.fl.queue|) - 1
    ensures |t.store| == old(|t.store|) + 1 && t.fl.btreeblks == old(t.fl.btreeblks) + 1
    ensures var b := cur.pos[level];
            var ents := old(t.lv[level][b].ents);
            && lrecs == |ents| - SplitRight(|ents|, cur.ptrs[level])
            && t.lv == old(t.lv)[level := SplitLevel(old(t.lv[level]), b, lrecs, rptr)]
            && key == ents[lrecs].key
  {
    ghost var b := cur.pos[level];
    assert AtBlk(t.lv, cur.bufs, cur.pos, level);
    var left := t.ReadBlock(cur.bufs[level], level, b);
    ghost var queue0, store0 := t.fl.queue, t.store;
    rptr := AllocBlock(t);
    lrecs := |left.ents| - SplitRight(|left.ents|, cur.ptrs[level]);
    key := left.ents[lrecs].key;
    SplitBlock(t, cur.bufs[level], rptr, lrecs, level, b);
    DrewOne(store0, t.store, queue0);
  }

  /** The two halves of a split root, and which of them the cursor is in. */
  method RootHalves(t: Btree, cur: Cursor) returns (l: Entry, r: Entry, nptr: int)
    requires t.Core() && |t.lv[t.nlevels - 1]| == 2 && NonEmpty(t.lv[t.nlevels - 1])
    requires |cur.bufs| == |cur.pos| == t.nlevels
    requires AtBlk(t.lv, cur.bufs, cur.pos, t.nlevels - 1)
    ensures var top := t.lv[t.nlevels - 1];
            && l == Entry(top[0].ents[0].key, top[0].id)
            && r == Entry(top[1].ents[0].key, top[1].id)
            && nptr == cur.pos[t.nlevels - 1] + 1
  {
    var n := t.nlevels;
    var bp := cur.bufs[n - 1];
    var block := t.ReadBlock(bp, n - 1, cur.pos[n - 1]);
    var lptr, rptr;
    if block.right != NULLAGBLOCK {
      lptr, rptr, nptr := bp, block.right, 1;
    } else {
      lptr, rptr, nptr := block.left, bp, 2;
    }
    var left := t.ReadBlock(lptr, n - 1, 0);
    var right := t.ReadBlock(rptr, n - 1, 1);
    l, r := Entry(left.ents[0].key, lptr), Entry(right.ents[0].key, rptr);
  }

  lemma RootLink(lv: seq<Level>, nbp: Ptr, l: Entry, r: Entry)
    requires lv != [] && |lv[|lv| - 1]| == 2 && NonEmpty(lv[|lv| - 1])
    requires var top := lv[|lv| - 1];
             l == Entry(top[0].ents[0].key, top[0].id) && r == Entry(top[1].ents[0].key, top[1].id)
    ensures LinkAt(lv + [[Blk(nbp, [l, r])]], |lv|)
  {
    FlatAt([Blk(nbp, [l, r])], 0);
  }

  /** Fill in the new root block and make it the root. */
  method PlaceRoot(t: Btree, cur: Cursor, nbp: Ptr) returns (nptr: int)
    requires t.Core() && |t.lv[t.nlevels - 1]| == 2 && NonEmpty(t.lv[t.nlevels - 1])
    requires |cur.bufs| == |cur.pos| == t.nlevels
    requires AtBlk(t.lv, cur.bufs, cur.pos, t.nlevels - 1)
    requires nbp != NULLAGBLOCK && nbp !in t.store && nbp !in t.fl.queue
    modifies t`store, t`lv, t`root, t`nlevels
    ensures t.Core() && t.Rooted()
    ensures t.store.Keys == old(t.store).Keys + {nbp}
    ensures |t.lv| == |old(t.lv)| + 1 && t.lv[..|old(t.lv)|] == old(t.lv)
    ensures LinkAt(t.lv, |old(t.lv)|) && |t.lv[|old(t.lv)|][0].ents| == 2
  {
    var l, r, n := RootHalves(t, cur);
    RootLink(t.lv, nbp, l, r);
    AddLevel(t, nbp, [l, r]);
    nptr := n;
  }

  /** Put a new root above the two blocks a split root left behind. */
  method NewRoot(t: Btree, cur: Cursor)
    requires t.Core() && |t.lv[t.nlevels - 1]| == 2 && NonEmpty(t.lv[t.nlevels - 1])
    requires cur.Fits() && cur.nlevels == t.nlevels
    requires AtBlk(t.lv, cur.bufs, cur.pos, t.nlevels - 1)
    requires t.fl.queue != []
    modifies t`store, t`lv, t`root, t`nlevels, t.fl, cur
    ensures t.Core() && t.Rooted()
    ensures Owned(t) == old(Owned(t)) && |t.fl.queue| == old(|t.fl.queue|) - 1
    ensures |t.store| == old(|t.store|) + 1 && t.fl.btreeblks == old(t.fl.btreeblks) + 1
    ensures |t.lv| == |old(t.lv)| + 1 && t.lv[..|old(t.lv)|] == old(t.lv)
    ensures LinkAt(t.lv, |old(t.lv)|) && |t.lv[|old(t.lv)|][0].ents| == 2
    ensures cur.Fits() && cur.nlevels == t.nlevels
  {
    hide AllTied, Stores, FreeList.Valid, Flat, Off;
    ghost var queue0, store0 := t.fl.queue, t.store;
    var nbp := AllocBlock(t);
    var nptr := PlaceRoot(t, cur, nbp);
    DrewOne(store0, t.store, queue0);
    cur.Grow(nbp, nptr);
  }

  /** A block alone on a new top level. */
  method AddLevel(t: Btree, nbp: Ptr, ents: seq<Entry>)
    requires t.Core() && nbp != NULLAGBLOCK && nbp !in t.store && nbp !in t.fl.queue
    modifies t`store, t`lv, t`root, t`nlevels
    ensures t.Core() && t.Rooted() && t.lv == old(t.lv) + [[Blk(nbp, ents)]]
    ensures t.store.Keys == old(t.store).Keys + {nbp}
  {
    ghost var store0, n := t.store, t.nlevels;
    t.store := t.store[nbp := Block(t.nlevels, ents, NULLAGBLOCK, NULLAGBLOCK)];
    t.root := nbp;
    t.nlevels := t.nlevels + 1;
    forall m | 0 <= m < n ensures Tied(t.store, t.lv[m], m) {
      TiedOther(store0, t.store, t.lv[m], m, n);
    }
    ghost var top := [Blk(nbp, ents)];
    assert top[0].id == nbp && HasBlk(top, nbp);
    assert BlkTied(t.store, top, n, 0);
    assert Tied(t.store, top, n);
    t.lv := t.lv + [top];
  }

  /** The blocks the level above leads to, one of them with new entries. */
  ghost function WithEnts(lo: Level, b: nat, ents: seq<Entry>): Level
    requires b < |lo|
  {
    lo[b := Blk(lo[b].id, ents)]
  }

  /** What lo is to the level above the one an entry is put in: its blocks, perhaps but for one. */
  ghost predicate Above(lv: seq<Level>, cur: Cursor, level: nat, lo: Level, inLo: bool)
    requires level < |lv| == |cur.pos| == |cur.ptrs| && cur.pos[level] < |lv[level]|
    reads cur
  {
    var b := cur.pos[level];
    && LinksFrom(lv, level + 1)
    && (inLo ==> b < |lo| && lo[b] == lv[level][b])
    && (cur.ptrs[level] == 1 ==> inLo)
    && (level + 1 < |lv| ==>
          && Linked(lv[level + 1], lo)
          && cur.On(lv, level + 1)
          && (inLo ==> Points(lv[level + 1], cur.pos[level + 1], cur.ptrs[level + 1], b)))
  }

  /** Make a hole at the cursor, put the entry in, and update the parents' keys if it is the first. */
  method PutEntry(t: Btree, cur: Cursor, level: nat, e: Entry, ghost lo: Level, ghost inLo: bool)
    requires t.Core() && level < t.nlevels == cur.nlevels && cur.Fits()
    requires AtBlk(t.lv, cur.bufs, cur.pos, level)
    requires 1 <= cur.ptrs[level] <= |t.lv[level][cur.pos[level]].ents| + 1
    requires Above(t.lv, cur, level, lo, inLo)
    modifies t`store, t`lv
    ensures t.Core() && t.store.Keys == old(t.store).Keys
    ensures var b := cur.pos[level];
            var ents := Ins(old(t.lv[level][b].ents), cur.ptrs[level] - 1, e);
            && ShapeFrom(old(t.lv)[level := WithEnts(old(t.lv[level]), b, ents)], t.lv, level + 1)
            && (level + 1 < t.nlevels ==> Linked(t.lv[level + 1], if inLo then WithEnts(lo, b, ents) else lo))
    ensures LinksFrom(t.lv, level + 1)
  {
    hide AllTied, Stores, FreeList.Valid, Flat, Off;
    ghost var lv0, b := t.lv, cur.pos[level];
    var block := t.ReadBlock(cur.bufs[level], level, b);
    var ptr := cur.ptrs[level];
    var ents := block.ents[..ptr - 1] + [e] + block.ents[ptr - 1..];
    t.SetEnts(cur.bufs[level], ents, level, b);
    ghost var lo' := if inLo then WithEnts(lo, b, ents) else lo;
    PutAbove(lv0, t.lv, cur, level, lo, inLo, ents);
    if ptr == 1 {
      UpdKey(t, cur, e.key, level + 1, lo', b);
    }
  }

  lemma PutAbove(lv: seq<Level>, lv': seq<Level>, cur: Cursor, level: nat, lo: Level, inLo: bool, ents: seq<Entry>)
    requires level < |lv| == |cur.pos| == |cur.ptrs| == |cur.bufs| == cur.nlevels
    requires cur.pos[level] < |lv[level]| && Above(lv, cur, level, lo, inLo)
    requires ents != []
    requires cur.ptrs[level] != 1 ==> lv[level][cur.pos[level]].ents != [] && ents[0] == lv[level][cur.pos[level]].ents[0]
    requires lv' == lv[level := WithEnts(lv[level], cur.pos[level], ents)]
    ensures ShapeFrom(lv', lv', level + 1) && LinksFrom(lv', level + 1)
    ensures var lo' := if inLo then WithEnts(lo, cur.pos[level], ents) else lo;
            if cur.ptrs[level] == 1 then KeyDue(lv', cur, ents[0].key, level + 1, lo', cur.pos[level])
            else level + 1 < |lv| ==> Linked(lv'[level + 1], lo')
  {
    forall m | level + 1 < m < |lv'| ensures LinkAt(lv', m) {
      assert LinkAt(lv, m);
    }
    if level + 1 < |lv| {
      forall m | level + 1 <= m < |lv| ensures AtBlk(lv', cur.bufs, cur.pos, m) {
        assert AtBlk(lv, cur.bufs, cur.pos, m);
      }
      forall m | level + 1 < m < |lv| ensures AtEntry(lv', cur.ptrs, cur.pos, m) {
        assert AtEntry(lv, cur.ptrs, cur.pos, m);
      }
    }
  }

  /** The cursor is at a place of level p where an entry can be put. */
  ghost predicate Ready(t: Btree, cur: Cursor, p: nat)
    reads t`store, t`root, t`nlevels, t`lv, t.fl, t.fl.slots, cur
  {
    && t.Core() && t.Rooted() && p < t.nlevels
    && cur.On(t.lv, p) && LinksFrom(t.lv, p)
    && cur.pos[p] < |t.lv[p]|
    && 1 <= cur.ptrs[p] <= |t.lv[p][cur.pos[p]].ents| + 1
  }

  /** A block of the level was split: x is the right half, unknown to the level above. */
  ghost predicate SplitDone(lv: seq<Level>, cur: Cursor, ncur: Cursor?, level: nat, nptr: Ptr, nkey: Rec, x: nat)
    requires level < |lv| == |cur.pos| == |cur.ptrs| && cur.pos[level] < |lv[level]|
    reads cur, ncur
  {
    && 0 < x < |lv[level]| && lv[level][x].id == nptr != NULLAGBLOCK
    && lv[level][x].ents != [] && lv[level][x].ents[0].key == nkey
    && NonEmpty(lv[level])
    && (cur.pos[level] == x - 1 || (cur.pos[level] == x && cur.ptrs[level] > 1))
    && Above(lv, cur, level, Del(lv[level], x), cur.pos[level] == x - 1)
    && (if level + 1 < |lv| then
          && ncur != null && ncur.On(lv, level + 1)
          && ncur.pos[level + 1] < |lv[level + 1]|
          && 1 <= ncur.ptrs[level + 1] <= |lv[level + 1][ncur.pos[level + 1]].ents| + 1
          && ncur.At(lv, level + 1) == x
        else ncur == null && |lv[level]| == 2)
  }

  lemma AfterSplit(lv0: seq<Level>, lv: seq<Level>, bufs0: seq<Ptr>, ptrs0: seq<int>, pos0: seq<nat>,
                   cur: Cursor, ncur: Cursor?, level: nat, n: nat, nptr: Ptr)
    requires level < |lv0| && OnPath(lv0, bufs0, ptrs0, pos0, level) && LinksFrom(lv0, level)
    requires |lv0[|lv0| - 1]| == 1 && pos0[level] < |lv0[level]|
    requires 0 < n < |lv0[level][pos0[level]].ents| && 1 <= ptrs0[level] && nptr != NULLAGBLOCK
    requires lv == lv0[level := SplitLevel(lv0[level], pos0[level], n, nptr)]
    requires cur.nlevels == |lv0|
    requires if ptrs0[level] > n + 1 then
               && cur.pos == pos0[level := pos0[level] + 1]
               && cur.bufs == bufs0[level := nptr]
               && cur.ptrs == ptrs0[level := ptrs0[level] - n]
             else cur.pos == pos0 && cur.bufs == bufs0 && cur.ptrs == ptrs0
    requires if level + 1 < cur.nlevels then
               && ncur != null && ncur.nlevels == cur.nlevels
               && ncur.pos == cur.pos && ncur.bufs == cur.bufs
               && ncur.ptrs == cur.ptrs[level + 1 := cur.ptrs[level + 1] + 1]
             else ncur == null
    ensures SplitDone(lv, cur, ncur, level, nptr, lv0[level][pos0[level]].ents[n].key, pos0[level] + 1)
    ensures AtBlk(lv, cur.bufs, cur.pos, level)
  {
    var b := pos0[level];
    assert AtBlk(lv0, bufs0, pos0, level);
    assert Del(lv[level], b + 1) == WithEnts(lv0[level], b, lv0[level][b].ents[..n]);
    forall m | level + 1 < m < |lv| ensures LinkAt(lv, m) {
      assert LinkAt(lv0, m);
    }
    if level + 1 < |lv| {
      assert LinkAt(lv0, level + 1) && AtEntry(lv0, ptrs0, pos0, level + 1) && AtBlk(lv0, bufs0, pos0, level + 1);
      forall m | level + 1 <= m < |lv| ensures AtBlk(lv, cur.bufs, cur.pos, m) && AtBlk(lv, ncur.bufs, ncur.pos, m) {
        assert AtBlk(lv0, bufs0, pos0, m);
      }
      forall m | level + 1 < m < |lv| ensures AtEntry(lv, cur.ptrs, cur.pos, m) && AtEntry(lv, ncur.ptrs, ncur.pos, m) {
        assert AtEntry(lv0, ptrs0, pos0, m);
      }
    }
  }

  /** If the cursor's entry went to the right block, so does the cursor. Past the left one's end it stays. */
  method MoveToRight(cur: Cursor, level: nat, rptr: Ptr, lrecs: nat) returns (ncur: Cursor?)
    requires level < cur.nlevels == |cur.bufs| == |cur.ptrs| == |cur.pos|
    modifies cur
    ensures cur.nlevels == old(cur.nlevels) == |cur.bufs| == |cur.ptrs| == |cur.pos|
    ensures if old(cur.ptrs[level]) > lrecs + 1 then
              && cur.pos == old(cur.pos)[level := old(cur.pos[level]) + 1]
              && cur.bufs == old(cur.bufs)[level := rptr]
              && cur.ptrs == old(cur.ptrs)[level := old(cur.ptrs[level]) - lrecs]
            else cur.pos == old(cur.pos) && cur.bufs == old(cur.bufs) && cur.ptrs == old(cur.ptrs)
    ensures if level + 1 < cur.nlevels then
              && ncur != null && fresh(ncur) && ncur.nlevels == cur.nlevels
              && ncur.pos == cur.pos && ncur.bufs == cur.bufs
              && ncur.ptrs == cur.ptrs[level + 1 := cur.ptrs[level + 1] + 1]
            else ncur == null
  {
    if cur.ptrs[level] > lrecs + 1 {
      cur.bufs, cur.ptrs := cur.bufs[level := rptr], cur.ptrs[level := cur.ptrs[level] - lrecs];
      cur.pos := cur.pos[level := cur.pos[level] + 1];
    }
    ncur := null;
    if level + 1 < cur.nlevels {
      ncur := new Cursor.Dup(cur);
      ncur.ptrs := ncur.ptrs[level + 1 := ncur.ptrs[level + 1] + 1];
    }
  }

  /** What is known of the levels and the cursor when a full block is to be cut. */
  ghost predicate ToCut(lv: seq<Level>, cur: Cursor, level: nat, hi: nat)
    reads cur
  {
    && level < |lv| == cur.nlevels && cur.On(lv, level) && LinksFrom(lv, level)
    && |lv[|lv| - 1]| == 1 && cur.pos[level] < |lv[level]|
    && hi >= 4 && Sized(lv[level], hi / 2, hi) && |lv[level][cur.pos[level]].ents| == hi
    && 1 <= cur.ptrs[level] <= hi + 1
  }

  /** Move the cursor and say where all is after a split. */
  method FollowSplit(cur: Cursor, level: nat, nptr: Ptr, lrecs: nat, nkey: Rec,
                     ghost lv0: seq<Level>, ghost lv: seq<Level>, ghost hi: nat)
    returns (ncur: Cursor?)
    requires ToCut(lv0, cur, level, hi)
    requires lrecs == hi - SplitRight(hi, cur.ptrs[level]) && nptr != NULLAGBLOCK
    requires lv == lv0[level := SplitLevel(lv0[level], cur.pos[level], lrecs, nptr)]
    requires nkey == lv0[level][cur.pos[level]].ents[lrecs].key
    modifies cur
    ensures cur.nlevels == |cur.bufs| == |cur.ptrs| == |cur.pos| == |lv| == |lv0|
    ensures AtBlk(lv, cur.bufs, cur.pos, level)
    ensures SplitDone(lv, cur, ncur, level, nptr, nkey, old(cur.pos[level]) + 1)
    ensures ncur != null ==> fresh(ncur) && Follows(ncur, old(cur.pos), old(cur.ptrs), level + 1)
    ensures Sized(lv[level], hi / 2, hi) && |lv[level][cur.pos[level]].ents| < hi
    ensures 1 <= cur.ptrs[level] <= |lv[level][cur.pos[level]].ents| + 1
    ensures Flat(lv[level]) == Flat(lv0[level]) && cur.At(lv, level) == old(cur.At(lv0, level))
    ensures level + 1 < |lv| ==> |lv[|lv| - 1]| == 1
    ensures ShapeFrom(lv0[level := lv[level]], lv, level + 1)
  {
    hide Flat, Off;
    ghost var bufs0, ptrs0, pos0 := cur.bufs, cur.ptrs, cur.pos;
    SplitRoom(lv0[level], pos0[level], ptrs0[level], lrecs, nptr, hi);
    ncur := MoveToRight(cur, level, nptr, lrecs);
    AfterSplit(lv0, lv, bufs0, ptrs0, pos0, cur, ncur, level, lrecs, nptr);
  }

  /** The cursor's block has space, and the entry goes where it went before. */
  twostate predicate MadeRoom(t: Btree, cur: Cursor, level: nat)
    requires old(level < |t.lv| == |cur.pos| == |cur.ptrs| && cur.pos[level] < |t.lv[level]|)
    reads t`store, t`root, t`nlevels, t`lv, t.fl, t.fl.slots, cur
  {
    && t.Core() && cur.Fits() && cur.nlevels == t.nlevels
    && |t.lv| == |old(t.lv)|
    && AtBlk(t.lv, cur.bufs, cur.pos, level) && Sized(t.lv[level], t.MinRecs(level), t.MaxRecs(level))
    && |t.lv[level][cur.pos[level]].ents| < t.MaxRecs(level)
    && 1 <= cur.ptrs[level] <= |t.lv[level][cur.pos[level]].ents| + 1
    && Flat(t.lv[level]) == Flat(old(t.lv[level])) && cur.At(t.lv, level) == old(cur.At(t.lv, level))
    && ShapeFrom(old(t.lv)[level := t.lv[level]], t.lv, level + 1)
    && Owned(t) == old(Owned(t))
  }

  /** Block b is full, and neither neighbour can take one of its entries when the next is to go to place ptr. */
  ghost predicate Stuck(lv: Level, b: nat, ptr: int, max: nat)
    requires b < |lv|
  {
    && |lv[b].ents| == max
    && !(b + 1 < |lv| && ptr < max && |lv[b + 1].ents| != max)
    && !(b > 0 && ptr > 1 && |lv[b - 1].ents| != max)
  }

  /** Two blocks stand for block b, the others are as they were. */
  ghost predicate Halved(lv: Level, lv': Level, b: nat) {
    b < |lv| && |lv'| == |lv| + 1 && lv'[..b] == lv[..b] && lv'[b + 2..] == lv[b + 1..]
  }

  /**
   * How room is made in block b of a level for an entry at place ptr: an entry goes to the right neighbour, or else to the
   * left one, or else the block is split.
   */
  ghost predicate Eased(lv: Level, lv': Level, b: nat, ptr: int, max: nat, nptr: Ptr) {
    && b < |lv| && |lv[b].ents| == max > 0
    && if b + 1 < |lv| && ptr < max && |lv[b + 1].ents| != max then lv' == ShiftedRight(lv, b)
       else if b > 0 && ptr > 1 && |lv[b - 1].ents| != max then lv' == ShiftedLeft(lv, b - 1)
       else lv' == SplitLevel(lv, b, max - SplitRight(max, ptr), nptr)
  }

  /** From level l up the path is the one given, but one entry further at level l. */
  ghost predicate Follows(cur: Cursor, pos: seq<nat>, ptrs: seq<int>, l: nat)
    reads cur
  {
    && |cur.pos| == |pos| == |cur.ptrs| == |ptrs|
    && forall m :: l <= m < |pos| ==> cur.pos[m] == pos[m] && cur.ptrs[m] == ptrs[m] + if m == l then 1 else 0
  }

  /** A full block at the cursor. */
  ghost predicate Full(t: Btree, cur: Cursor, level: nat)
    reads t`store, t`root, t`nlevels, t`lv, t.fl, t.fl.slots, cur
  {
    && Ready(t, cur, level)
    && Sized(t.lv[level], t.MinRecs(level), t.MaxRecs(level))
    && |t.lv[level][cur.pos[level]].ents| == t.MaxRecs(level)
  }

  method ShiftRightAway(t: Btree, cur: Cursor, level: nat) returns (stat: bool)
    requires Full(t, cur, level)
    modifies t`store, t`lv
    ensures stat == old(CanRshift(t, cur, level))
    ensures stat ==> MadeRoom(t, cur, level) && Ready(t, cur, level)
    ensures stat ==> Eased(old(t.lv[level]), t.lv[level], cur.pos[level], cur.ptrs[level], t.MaxRecs(level), 0)
    ensures !stat ==> t.lv == old(t.lv) && t.store == old(t.store)
    ensures t.store.Keys == old(t.store).Keys
  {
    ghost var lv0, b := t.lv, cur.pos[level];
    assert b + 1 < |lv0[level]| ==> t.MinRecs(level) <= |t.lv[level][b + 1].ents|;
    stat := Rshift(t, cur, level);
    if stat {
      AfterRshift(t, lv0, t.lv, level, b);
      assert AtBlk(t.lv, cur.bufs, cur.pos, level);
    }
  }

  method ShiftLeftAway(t: Btree, cur: Cursor, level: nat) returns (stat: bool)
    requires Full(t, cur, level) && !CanRshift(t, cur, level)
    modifies t`store, t`lv, cur`ptrs
    ensures stat == old(CanLshift(t, cur, level))
    ensures stat ==> MadeRoom(t, cur, level) && Ready(t, cur, level)
    ensures stat ==> Eased(old(t.lv[level]), t.lv[level], old(cur.pos[level]), old(cur.ptrs[level]), t.MaxRecs(level), 0)
    ensures !stat ==> t.lv == old(t.lv) && t.store == old(t.store) && cur.ptrs == old(cur.ptrs)
    ensures t.store.Keys == old(t.store).Keys
  {
    ghost var lv0, b := t.lv, cur.pos[level];
    assert b > 0 ==> t.MinRecs(level) <= |t.lv[level][b - 1].ents|;
    stat := Lshift(t, cur, level);
    if stat {
      AfterLshift(t, lv0, t.lv, level, b - 1);
      assert AtBlk(t.lv, cur.bufs, cur.pos, level);
    }
  }

  /** Both halves of a full block have room, and the entry goes where it went before. */
  lemma SplitRoom(lv: Level, b: nat, ptr: int, n: nat, nptr: Ptr, hi: nat)
    requires b < |lv| && |lv[b].ents| == hi && hi >= 4 && Sized(lv, hi / 2, hi)
    requires 1 <= ptr <= hi + 1 && n == hi - SplitRight(hi, ptr)
    ensures 0 < n < hi
    ensures var lv' := SplitLevel(lv, b, n, nptr);
            var b', ptr' := if ptr > n + 1 then b + 1 else b, if ptr > n + 1 then ptr - n else ptr;
            && Sized(lv', hi / 2, hi) && |lv'[b'].ents| < hi && 1 <= ptr' <= |lv'[b'].ents| + 1
            && Flat(lv') == Flat(lv) && Off(lv', b') + ptr' == Off(lv, b) + ptr
  {
    SplitFlat(lv, b, n, nptr);
  }

  lemma SplitEased(lv: Level, b: nat, ptr: int, max: nat, nptr: Ptr)
    requires b < |lv| && max > 0 && Stuck(lv, b, ptr, max)
    ensures Eased(lv, SplitLevel(lv, b, max - SplitRight(max, ptr), nptr), b, ptr, max, nptr)
  {
  }

  method SplitAway(t: Btree, cur: Cursor, level: nat) returns (nptr: Ptr, nkey: Rec, ncur: Cursor?)
    requires Full(t, cur, level) && t.fl.queue != []
    requires Stuck(t.lv[level], cur.pos[level], cur.ptrs[level], t.MaxRecs(level))
    modifies t`store, t`lv, t.fl, cur
    ensures MadeRoom(t, cur, level) && nptr != NULLAGBLOCK
    ensures Eased(old(t.lv[level]), t.lv[level], old(cur.pos[level]), old(cur.ptrs[level]), t.MaxRecs(level), nptr)
    ensures SplitDone(t.lv, cur, ncur, level, nptr, nkey, old(cur.pos[level]) + 1)
    ensures (ncur != null ==> fresh(ncur) && Follows(ncur, old(cur.pos), old(cur.ptrs), level + 1))
              && |t.fl.queue| == old(|t.fl.queue|) - 1
    ensures |t.store| == old(|t.store|) + 1 && t.fl.btreeblks == old(t.fl.btreeblks) + 1
    ensures level + 1 < t.nlevels ==> t.Rooted()
    ensures Halved(old(t.lv[level]), t.lv[level], old(cur.pos[level]))
  {
    hide Flat, Off, Tied, Linked, AllTied, Stores, FreeList.Valid, Eased, Stuck, Owned;
    ghost var lv0, ptr := t.lv, cur.ptrs[level];
    assert ToCut(lv0, cur, level, t.MaxRecs(level));
    var lrecs;
    nptr, nkey, lrecs := Split(t, cur, level);
    SplitEased(lv0[level], cur.pos[level], ptr, t.MaxRecs(level), nptr);
    ghost var lv := t.lv;
    ncur := FollowSplit(cur, level, nptr, lrecs, nkey, lv0, lv, t.MaxRecs(level));
    assert t.lv == lv && t.Core();
  }

  lemma StuckIs(t: Btree, cur: Cursor, level: nat)
    requires Full(t, cur, level)
    ensures Stuck(t.lv[level], cur.pos[level], cur.ptrs[level], t.MaxRecs(level)) <==>
            !CanRshift(t, cur, level) && !CanLshift(t, cur, level)
  {
  }

  /** Shift right, else left. */
  method ShiftAway(t: Btree, cur: Cursor, level: nat) returns (stat: bool)
    requires Full(t, cur, level)
    modifies t`store, t`lv, cur`ptrs
    ensures stat <==> !old(Stuck(t.lv[level], cur.pos[level], cur.ptrs[level], t.MaxRecs(level)))
    ensures stat ==> MadeRoom(t, cur, level) && Ready(t, cur, level)
    ensures stat ==> Eased(old(t.lv[level]), t.lv[level], old(cur.pos[level]), old(cur.ptrs[level]), t.MaxRecs(level), 0)
    ensures !stat ==> t.lv == old(t.lv) && t.store == old(t.store) && cur.ptrs == old(cur.ptrs)
    ensures t.store.Keys == old(t.store).Keys
  {
    StuckIs(t, cur, level);
    hide Stuck, AllTied, Stores, Tied, Flat, Off, Linked, Eased;
    stat := ShiftRightAway(t, cur, level);
    if !stat {
      stat := ShiftLeftAway(t, cur, level);
    }
  }

  /** Make space at the cursor: shift right, else shift left, else split. A split needs a block from the freelist. */
  method MakeUnfull(t: Btree, cur: Cursor, level: nat) returns (ok: bool, nptr: Ptr, nkey: Rec, ncur: Cursor?)
    requires Full(t, cur, level)
    modifies t`store, t`lv, t.fl, cur
    ensures !ok ==> old(t.fl.queue) == []
    ensures ok && nptr == NULLAGBLOCK <==> !old(Stuck(t.lv[level], cur.pos[level], cur.ptrs[level], t.MaxRecs(level)))
    ensures ok ==> MadeRoom(t, cur, level)
    ensures ok ==> Eased(old(t.lv[level]), t.lv[level], old(cur.pos[level]), old(cur.ptrs[level]), t.MaxRecs(level),
                     if nptr == NULLAGBLOCK then 0 else nptr)
    ensures ok && nptr == NULLAGBLOCK ==>
              && Ready(t, cur, level) && ncur == null && t.fl.queue == old(t.fl.queue)
              && |t.store| == old(|t.store|) && t.fl.btreeblks == old(t.fl.btreeblks)
    ensures ok && nptr != NULLAGBLOCK ==>
              && SplitDone(t.lv, cur, ncur, level, nptr, nkey, old(cur.pos[level]) + 1)
              && (ncur != null ==> fresh(ncur) && Follows(ncur, old(cur.pos), old(cur.ptrs), level + 1))
              && |t.fl.queue| == old(|t.fl.queue|) - 1
              && |t.store| == old(|t.store|) + 1 && t.fl.btreeblks == old(t.fl.btreeblks) + 1
              && (level + 1 < t.nlevels ==> t.Rooted())
              && Halved(old(t.lv[level]), t.lv[level], old(cur.pos[level]))
  {
    hide Stuck, Halved, Eased, AllTied, Stores, Tied, Flat, Off, Linked, SplitDone, Follows, Owned;
    var stat := ShiftAway(t, cur, level);
    if stat {
      SameKeys(old(t.store), t.store);
      ok, nptr, nkey, ncur := true, NULLAGBLOCK, cur.rec, null;
    } else if t.fl.flcount == 0 {
      ok, nptr, nkey, ncur := false, NULLAGBLOCK, cur.rec, null;
    } else {
      ok := true;
      nptr, nkey, ncur := SplitAway(t, cur, level);
    }
  }

  lemma SameKeys(a: Store, b: Store)
    requires a.Keys == b.Keys
    ensures |a| == |b|
  {
    assert |a| == |a.Keys| && |b| == |b.Keys|;
  }

  lemma AfterRshift(t: Btree, lv0: seq<Level>, lv: seq<Level>, level: nat, b: nat)
    requires level < |lv0| && b + 1 < |lv0[level]|
    requires Sized(lv0[level], t.MinRecs(level), t.MaxRecs(level)) && t.MaxRecs(level) >= 4
    requires |lv0[level][b].ents| == t.MaxRecs(level) && |lv0[level][b + 1].ents| < t.MaxRecs(level)
    requires ShapeFrom(lv0[level := ShiftedRight(lv0[level], b)], lv, level + 1)
    ensures lv[level] == ShiftedRight(lv0[level], b)
    ensures Flat(lv[level]) == Flat(lv0[level]) && Off(lv[level], b) == Off(lv0[level], b)
    ensures Sized(lv[level], t.MinRecs(level), t.MaxRecs(level))
  {
    ShapeFromFacts(lv0[level := ShiftedRight(lv0[level], b)], lv, level + 1);
    var l, r := lv0[level][b].ents, lv0[level][b + 1].ents;
    FlatShift(lv0[level], b, l[..|l| - 1], [l[|l| - 1]] + r);
  }

  lemma AfterLshift(t: Btree, lv0: seq<Level>, lv: seq<Level>, level: nat, b: nat)
    requires level < |lv0| && b + 1 < |lv0[level]|
    requires Sized(lv0[level], t.MinRecs(level), t.MaxRecs(level)) && t.MaxRecs(level) >= 4
    requires |lv0[level][b + 1].ents| == t.MaxRecs(level) && |lv0[level][b].ents| < t.MaxRecs(level)
    requires ShapeFrom(lv0[level := ShiftedLeft(lv0[level], b)], lv, level + 1)
    ensures lv[level] == ShiftedLeft(lv0[level], b)
    ensures Flat(lv[level]) == Flat(lv0[level]) && Off(lv[level], b + 1) == Off(lv0[level], b + 1) + 1
    ensures Sized(lv[level], t.MinRecs(level), t.MaxRecs(level))
  {
    ShapeFromFacts(lv0[level := ShiftedLeft(lv0[level], b)], lv, level + 1);
    var l, r := lv0[level][b].ents, lv0[level][b + 1].ents;
    FlatShift(lv0[level], b, l + [r[0]], r[1..]);
    FlatAt(lv0[level], b);
  }

  /** The outcome of putting an entry in at one level: nothing more to do above. */
  ghost predicate LevelDone(t: Btree, cur: Cursor, level: nat)
    reads t`nlevels, t`lv, cur
  {
    && level < t.nlevels == |t.lv| && t.Rooted() && LinksFrom(t.lv, level) && SizedAt(t, t.lv, level)
  }

  /** The outcome after a split: at the next level an entry for the new block is to be put in at ncur. */
  ghost predicate LevelSplit(t: Btree, cur: Cursor, ncur: Cursor?, level: nat, nptr: Ptr, nrec: Rec)
    reads t`nlevels, t`lv, cur, ncur
  {
    && nptr != NULLAGBLOCK && level < t.nlevels == |t.lv|
    && LinksFrom(t.lv, level + 1) && NonEmpty(t.lv[level])
    && Sized(t.lv[level], t.MinRecs(level), t.MaxRecs(level))
    && (if level + 1 < t.nlevels then
          && t.Rooted()
          && ncur != null && ncur.On(t.lv, level + 1)
          && ncur.pos[level + 1] < |t.lv[level + 1]|
          && 1 <= ncur.ptrs[level + 1] <= |t.lv[level + 1][ncur.pos[level + 1]].ents| + 1
          && 0 <= ncur.At(t.lv, level + 1) <= |Flat(t.lv[level + 1])|
          && HeadsBut(Ins(Flat(t.lv[level + 1]), ncur.At(t.lv, level + 1), Entry(nrec, nptr)), t.lv[level], -1)
        else
          && ncur == null && |t.lv[level]| == 2
          && cur.Fits() && cur.nlevels == t.nlevels
          && AtBlk(t.lv, cur.bufs, cur.pos, level))
  }

  lemma AtInRange(lv: Level, b: nat, ptr: int)
    requires b < |lv| && 1 <= ptr <= |lv[b].ents| + 1
    ensures 0 <= Off(lv, b) + ptr - 1 <= |Flat(lv)|
  {
    FlatAt(lv, b);
  }

  /** Put the entry in where there is room, no block having been split. */
  method PutInRoom(t: Btree, cur: Cursor, level: nat, e: Entry)
    requires Ready(t, cur, level) && |t.lv[level][cur.pos[level]].ents| < t.MaxRecs(level)
    requires SizedAt(t, t.lv, level) && 0 <= cur.At(t.lv, level) <= |Flat(t.lv[level])|
    modifies t`store, t`lv
    ensures t.Core() && t.store.Keys == old(t.store).Keys && |t.lv| == |old(t.lv)|
    ensures AtBlk(t.lv, cur.bufs, cur.pos, level) && cur.At(t.lv, level) == old(cur.At(t.lv, level))
    ensures cur.ptrs[level] <= |t.lv[level][cur.pos[level]].ents|
    ensures LevelDone(t, cur, level) && |t.lv| == |old(t.lv)|
    ensures ShapeFrom(old(t.lv)[level := t.lv[level]], t.lv, level + 1)
    ensures Flat(t.lv[level]) == Ins(Flat(old(t.lv[level])), old(cur.At(t.lv, level)), e)
  {
    hide Flat, Off;
    ghost var lv0, b, ptr := t.lv, cur.pos[level], cur.ptrs[level];
    assert AtBlk(lv0, cur.bufs, cur.pos, level);
    AboveAll(lv0, cur, level);
    FlatIns(lv0[level], b, ptr - 1, e);
    PutEntry(t, cur, level, e, lv0[level], true);
    AfterPut(t, lv0, t.lv, level, b, Ins(lv0[level][b].ents, ptr - 1, e));
    assert level + 1 < |t.lv| ==> LinkAt(t.lv, level + 1);
  }

  lemma AboveAll(lv: seq<Level>, cur: Cursor, level: nat)
    requires level < |lv| == cur.nlevels && cur.On(lv, level) && LinksFrom(lv, level) && cur.pos[level] < |lv[level]|
    ensures Above(lv, cur, level, lv[level], true)
  {
    if level + 1 < |lv| {
      assert LinkAt(lv, level + 1) && AtEntry(lv, cur.ptrs, cur.pos, level + 1);
      PathUp(lv, cur.bufs, cur.ptrs, cur.pos, level, level + 1);
    }
  }

  lemma AfterPut(t: Btree, lv0: seq<Level>, lv: seq<Level>, level: nat, b: nat, ents: seq<Entry>)
    requires level < |lv0| && b < |lv0[level]|
    requires ShapeFrom(lv0[level := WithEnts(lv0[level], b, ents)], lv, level + 1)
    ensures lv[level] == WithEnts(lv0[level], b, ents)
    ensures ShapeFrom(lv0[level := lv[level]], lv, level + 1)
    ensures |lv[|lv| - 1]| == |lv0[|lv0| - 1]|
    ensures lv[..level] == lv0[..level]
    ensures Off(lv[level], b) == Off(lv0[level], b)
    ensures SizedAt(t, lv0, level) && |lv0[level][b].ents| < |ents| <= t.MaxRecs(level) ==> SizedAt(t, lv, level)
    ensures Sized(lv0[level], t.MinRecs(level), t.MaxRecs(level)) && |lv0[level][b].ents| < |ents| <= t.MaxRecs(level)
            ==> Sized(lv[level], t.MinRecs(level), t.MaxRecs(level))
  {
    var lv1 := lv0[level := WithEnts(lv0[level], b, ents)];
    ShapeFromFacts(lv1, lv, level + 1);
    FlatReplace(lv0[level], b, ents);
    assert SameShape(lv1[|lv| - 1], lv[|lv| - 1]);
    assert lv[..level] == lv[..level + 1][..level] == lv1[..level + 1][..level];
  }

  /** Putting an entry into one half leaves the other, and the first key of the right half. */
  lemma DelWith(lv: Level, b: nat, x: nat, ptr: nat, e: Entry)
    requires x < |lv| && (b + 1 == x || (b == x && ptr > 1)) && 1 <= ptr <= |lv[b].ents| + 1 && lv[x].ents != []
    ensures var ents := Ins(lv[b].ents, ptr - 1, e);
            var lv' := WithEnts(lv, b, ents);
            && Del(lv', x) == (if b + 1 == x then WithEnts(Del(lv, x), b, ents) else Del(lv, x))
            && lv'[x].id == lv[x].id && lv'[x].ents != [] && lv'[x].ents[0] == lv[x].ents[0]
            && |lv'| == |lv|
  {
  }

  /** Put the entry in after a split. */
  method PutAfterSplit(t: Btree, cur: Cursor, ncur: Cursor?, level: nat, e: Entry, nptr: Ptr, nkey: Rec, ghost x: nat)
    requires t.Core() && level < t.nlevels == cur.nlevels && cur.Fits()
    requires AtBlk(t.lv, cur.bufs, cur.pos, level) && Sized(t.lv[level], t.MinRecs(level), t.MaxRecs(level))
    requires |t.lv[level][cur.pos[level]].ents| < t.MaxRecs(level)
    requires 1 <= cur.ptrs[level] <= |t.lv[level][cur.pos[level]].ents| + 1
    requires 0 <= cur.At(t.lv, level) <= |Flat(t.lv[level])|
    requires SplitDone(t.lv, cur, ncur, level, nptr, nkey, x)
    requires level + 1 < t.nlevels ==> t.Rooted()
    modifies t`store, t`lv
    ensures t.Core() && t.store.Keys == old(t.store).Keys && |t.lv| == |old(t.lv)|
    ensures AtBlk(t.lv, cur.bufs, cur.pos, level) && cur.At(t.lv, level) == old(cur.At(t.lv, level))
    ensures cur.ptrs[level] <= |t.lv[level][cur.pos[level]].ents|
    ensures LevelSplit(t, cur, ncur, level, nptr, nkey) && |t.lv| == |old(t.lv)|
    ensures |t.lv[level]| == |old(t.lv[level])| && t.lv[level] == old(t.lv[level])[cur.pos[level] := t.lv[level][cur.pos[level]]]
    ensures ShapeFrom(old(t.lv)[level := t.lv[level]], t.lv, level + 1)
    ensures Flat(t.lv[level]) == Ins(Flat(old(t.lv[level])), old(cur.At(t.lv, level)), e)
  {
    hide Flat, Off, Tied, LinkAt, Linked, AllTied, Stores, FreeList.Valid, NonEmpty;
    ghost var lv0, b, ptr := t.lv, cur.pos[level], cur.ptrs[level];
    ghost var lo := Del(lv0[level], x);
    FlatIns(lv0[level], b, ptr - 1, e);
    PutEntry(t, cur, level, e, lo, b == x - 1);
    ghost var ents := Ins(lv0[level][b].ents, ptr - 1, e);
    AfterPut(t, lv0, t.lv, level, b, ents);
    DelWith(lv0[level], b, x, ptr, e);
    assert AtBlk(t.lv, cur.bufs, cur.pos, level);
    SplitPutDone(t, lv0, cur, ncur, level, nptr, nkey, x);
  }

  lemma SplitPutDone(t: Btree, lv0: seq<Level>, cur: Cursor, ncur: Cursor?, level: nat, nptr: Ptr, nkey: Rec, x: nat)
    requires level < |lv0| == |t.lv| == t.nlevels && ShapeFrom(lv0[level := t.lv[level]], t.lv, level + 1)
    requires 0 < x < |t.lv[level]| && t.lv[level][x].id == nptr != NULLAGBLOCK
    requires t.lv[level][x].ents != [] && t.lv[level][x].ents[0].key == nkey
    requires LinksFrom(t.lv, level + 1) && t.MinRecs(level) > 0
    requires Sized(t.lv[level], t.MinRecs(level), t.MaxRecs(level))
    requires if level + 1 < |t.lv| then
               && t.Rooted()
               && Linked(t.lv[level + 1], Del(t.lv[level], x))
               && ncur != null && ncur.On(lv0, level + 1)
               && ncur.pos[level + 1] < |lv0[level + 1]|
               && 1 <= ncur.ptrs[level + 1] <= |lv0[level + 1][ncur.pos[level + 1]].ents| + 1
               && ncur.At(lv0, level + 1) == x
             else
               && ncur == null && |t.lv[level]| == 2
               && cur.Fits() && cur.nlevels == t.nlevels
               && AtBlk(t.lv, cur.bufs, cur.pos, level)
    ensures LevelSplit(t, cur, ncur, level, nptr, nkey)
  {
    var lv := t.lv;
    assert forall i :: 0 <= i < |t.lv[level]| ==> t.MinRecs(level) <= |t.lv[level][i].ents|;
    if level + 1 < |lv| {
      var b := ncur.pos[level + 1];
      var lv1 := lv0[level := lv[level]];
      ShapeFromFacts(lv1, lv, level + 1);
      assert SameShape(lv1[level + 1], lv[level + 1]) && SameBlk(lv1[level + 1][b], lv[level + 1][b]);
      SameShapeOff(lv0[level + 1], lv[level + 1], b);
      forall m | level + 1 <= m < |lv0| ensures AtBlk(lv1, ncur.bufs, ncur.pos, m) {
        assert AtBlk(lv0, ncur.bufs, ncur.pos, m);
      }
      forall m | level + 1 < m < |lv0| ensures AtEntry(lv1, ncur.ptrs, ncur.pos, m) {
        assert AtEntry(lv0, ncur.ptrs, ncur.pos, m);
      }
      OnPathShape(lv1, lv, ncur.bufs, ncur.ptrs, ncur.pos, level + 1);
      PendingIns(Flat(lv[level + 1]), lv[level], x);
    }
  }

  lemma ShapeCompose(lv0: seq<Level>, lv1: seq<Level>, lv2: seq<Level>, level: nat)
    requires level < |lv0| == |lv1| == |lv2|
    requires ShapeFrom(lv0[level := lv1[level]], lv1, level + 1) && ShapeFrom(lv1[level := lv2[level]], lv2, level + 1)
    ensures ShapeFrom(lv0[level := lv2[level]], lv2, level + 1)
  {
    var a, b := lv0[level := lv1[level]], lv1[level := lv2[level]];
    var c := lv0[level := lv2[level]];
    ShapeFromFacts(a, lv1, level + 1);
    ShapeFromFacts(b, lv2, level + 1);
    forall m | level + 1 <= m < |c| ensures SameShape(c[m], lv2[m]) {
      assert SameShape(a[m], lv1[m]) && SameShape(b[m], lv2[m]);
      SameShapeTrans(lv0[m], lv1[m], lv2[m]);
    }
    forall m | 0 <= m < level + 1 ensures c[m] == lv2[m] {
    }
    assert c[..level + 1] == lv2[..level + 1];
  }

  /** Insert an entry into a full block. */
  method InsrecFull(t: Btree, cur: Cursor, level: nat, e: Entry) returns (ok: bool, nptr: Ptr, nrec: Rec, ncur: Cursor?)
    requires Full(t, cur, level) && SizedAt(t, t.lv, level)
    requires 0 <= cur.At(t.lv, level) <= |Flat(t.lv[level])|
    modifies t`store, t`lv, t.fl, cur
    ensures !ok ==> old(t.fl.queue) == []
    ensures ok && nptr == NULLAGBLOCK <==> !old(Stuck(t.lv[level], cur.pos[level], cur.ptrs[level], t.MaxRecs(level)))
    ensures ok ==> t.Core() && |t.lv| == |old(t.lv)| && Owned(t) == old(Owned(t))
    ensures ok ==> cur.Fits() && cur.nlevels == t.nlevels
    ensures ok ==> AtBlk(t.lv, cur.bufs, cur.pos, level) && cur.At(t.lv, level) == old(cur.At(t.lv, level))
    ensures ok ==> 1 <= cur.ptrs[level] <= |t.lv[level][cur.pos[level]].ents|
    ensures ok ==> Flat(t.lv[level]) == Ins(Flat(old(t.lv[level])), old(cur.At(t.lv, level)), e)
    ensures ok ==> ShapeFrom(old(t.lv)[level := t.lv[level]], t.lv, level + 1)
    ensures ok && nptr != NULLAGBLOCK ==> Halved(old(t.lv[level]), t.lv[level], old(cur.pos[level]))
    ensures ok && ncur != null ==> fresh(ncur) && Follows(ncur, old(cur.pos), old(cur.ptrs), level + 1)
    ensures ok ==> |t.store| - |old(t.store)| == old(|t.fl.queue|) - |t.fl.queue| == t.fl.btreeblks - old(t.fl.btreeblks)
    ensures ok && nptr == NULLAGBLOCK ==> LevelDone(t, cur, level) && ncur == null && |t.fl.queue| == old(|t.fl.queue|)
    ensures ok && nptr != NULLAGBLOCK ==> LevelSplit(t, cur, ncur, level, nptr, nrec) && |t.fl.queue| == old(|t.fl.queue|) - 1
  {
    hide Stuck, Flat, Off, AllTied, Stores, FreeList.Valid;
    ghost var lv0, x := t.lv, cur.pos[level] + 1;
    ok, nptr, nrec, ncur := MakeUnfull(t, cur, level);
    if !ok {
      return;
    }
    ghost var lv1, store1 := t.lv, t.store;
    AtInRange(lv1[level], cur.pos[level], cur.ptrs[level]);
    if nptr != NULLAGBLOCK {
      PutAfterSplit(t, cur, ncur, level, e, nptr, nrec, x);
    } else {
      assert SizedAt(t, lv1, level);
      PutInRoom(t, cur, level, e);
    }
    ShapeCompose(lv0, lv1, t.lv, level);
    SameKeys(store1, t.store);
  }

  /** Insert one entry at one level; what is left to do above is returned. */
  method Insrec(t: Btree, cur: Cursor, level: nat, e: Entry) returns (ok: bool, nptr: Ptr, nrec: Rec, ncur: Cursor?)
    requires Ready(t, cur, level) && SizedAt(t, t.lv, level)
    requires 0 <= cur.At(t.lv, level) <= |Flat(t.lv[level])|
    modifies t`store, t`lv, t.fl, cur
    ensures !ok ==> old(t.fl.queue) == []
    ensures ok && nptr == NULLAGBLOCK <==> !old(Stuck(t.lv[level], cur.pos[level], cur.ptrs[level], t.MaxRecs(level)))
    ensures ok ==> t.Core() && |t.lv| == |old(t.lv)| && Owned(t) == old(Owned(t))
    ensures ok ==> cur.Fits() && cur.nlevels == t.nlevels
    ensures ok ==> AtBlk(t.lv, cur.bufs, cur.pos, level) && cur.At(t.lv, level) == old(cur.At(t.lv, level))
    ensures ok ==> 1 <= cur.ptrs[level] <= |t.lv[level][cur.pos[level]].ents|
    ensures ok ==> Flat(t.lv[level]) == Ins(Flat(old(t.lv[level])), old(cur.At(t.lv, level)), e)
    ensures ok ==> ShapeFrom(old(t.lv)[level := t.lv[level]], t.lv, level + 1)
    ensures ok && nptr != NULLAGBLOCK ==> Halved(old(t.lv[level]), t.lv[level], old(cur.pos[level]))
    ensures ok && ncur != null ==> fresh(ncur) && Follows(ncur, old(cur.pos), old(cur.ptrs), level + 1)
    ensures ok ==> |t.store| - |old(t.store)| == old(|t.fl.queue|) - |t.fl.queue| == t.fl.btreeblks - old(t.fl.btreeblks)
    ensures ok && nptr == NULLAGBLOCK ==> LevelDone(t, cur, level) && ncur == null && |t.fl.queue| == old(|t.fl.queue|)
    ensures ok && nptr != NULLAGBLOCK ==> LevelSplit(t, cur, ncur, level, nptr, nrec) && |t.fl.queue| == old(|t.fl.queue|) - 1
  {
    assert AtBlk(t.lv, cur.bufs, cur.pos, level);
    var block := t.ReadBlock(cur.bufs[level], level, cur.pos[level]);
    if |block.ents| == t.MaxRecs(level) {
      RootFull(t, t.lv, level, cur.pos[level]);
      ok, nptr, nrec, ncur := InsrecFull(t, cur, level, e);
    } else {
      ok, nptr, nrec, ncur := true, NULLAGBLOCK, e.key, null;
      PutInRoom(t, cur, level, e);
      SameKeys(old(t.store), t.store);
    }
  }

  /** A full root has more than the least number of entries of a block that is not the root. */
  lemma RootFull(t: Btree, lv: seq<Level>, level: nat, b: nat)
    requires level < |lv| && SizedAt(t, lv, level) && b < |lv[level]| && |lv[level][b].ents| == t.MaxRecs(level)
    requires |lv[|lv| - 1]| == 1
    ensures Sized(lv[level], t.MinRecs(level), t.MaxRecs(level))
  {
  }

  /** Whether the leaf at the cursor is the last. If not, what was put in there did not become the last record. */
  method IsLastrec(t: Btree, cur: Cursor) returns (last: bool)
    requires t.Core() && |cur.bufs| == |cur.ptrs| == |cur.pos| == t.nlevels
    requires AtBlk(t.lv, cur.bufs, cur.pos, 0) && cur.ptrs[0] <= |t.lv[0][cur.pos[0]].ents|
    requires cur.pos[0] + 1 < |t.lv[0]| ==> NonEmpty(t.lv[0])
    ensures !last ==> cur.At(t.lv, 0) + 1 < |Flat(t.lv[0])|
  {
    var block := t.ReadBlock(cur.bufs[0], 0, cur.pos[0]);
    last := block.right == NULLAGBLOCK;
    if !last {
      FlatPair(t.lv[0], cur.pos[0]);
    }
  }

  /** The by-size tree's longest extent after the insertion of a record; last tells whether into the last leaf. */
  method UpdateLastrecInsert(t: Btree, last: bool, rec: Rec, ghost before: seq<Rec>, ghost k: nat)
    requires k <= |before| && (last || k < |before|)
    modifies t`longest
    ensures t.kind == Cnt && Sorted(Cnt, Ins(before, k, rec)) && old(t.longest) == LastCount(before) ==>
              t.longest == LastCount(Ins(before, k, rec))
    ensures t.kind == Bno ==> t.longest == old(t.longest)
  {
    ghost var after := Ins(before, k, rec);
    assert k < |before| ==> after[|before|] == before[|before| - 1] && after[k] == rec;
    if t.kind == Cnt && Sorted(Cnt, after) && k < |before| {
      assert Before(Cnt, after[k], after[|before|]);
    }
    if t.kind == Cnt && Sorted(Cnt, after) && k == |before| > 0 {
      assert after[k - 1] == before[k - 1];
      assert Before(Cnt, after[k - 1], after[k]);
    }
    if t.kind == Cnt && last && rec.count > t.longest {
      t.longest := rec.count;
    }
  }

  lemma KeysIns(es: seq<Entry>, k: nat, e: Entry)
    requires k <= |es|
    ensures Keys(Ins(es, k, e)) == Ins(Keys(es), k, e.key)
  {
  }

  /** Where an insertion stands when level p is next: the entry e is still to be put in there. */
  ghost predicate Inserting(t: Btree, cur: Cursor, p: nat, e: Entry)
    reads t`store, t`root, t`nlevels, t`lv, t.fl, t.fl.slots, cur
  {
    && t.Core() && p <= t.nlevels
    && (forall m {:trigger LinkAt(t.lv, m)} :: 0 < m < p ==> LinkAt(t.lv, m))
    && (forall m :: 0 <= m < p ==> Sized(t.lv[m], t.MinRecs(m), t.MaxRecs(m)))
    && (if p < t.nlevels then
          && Ready(t, cur, p) && SizesFrom(t, t.lv, p)
          && 0 <= cur.At(t.lv, p) <= |Flat(t.lv[p])|
          && (p > 0 ==> HeadsBut(Ins(Flat(t.lv[p]), cur.At(t.lv, p), e), t.lv[p - 1], -1))
        else
          && |t.lv[p - 1]| == 2 && NonEmpty(t.lv[p - 1])
          && cur.Fits() && cur.nlevels == t.nlevels
          && AtBlk(t.lv, cur.bufs, cur.pos, p - 1))
  }

  /** With level p done, its links to the level below are in order. */
  lemma StepLinks(lv0: seq<Level>, lv: seq<Level>, p: nat, at: nat, e: Entry)
    requires p < |lv0| == |lv| && ShapeFrom(lv0[p := lv[p]], lv, p + 1) && at <= |Flat(lv0[p])|
    requires forall m {:trigger LinkAt(lv0, m)} :: 0 < m < p ==> LinkAt(lv0, m)
    requires p > 0 ==> HeadsBut(Ins(Flat(lv0[p]), at, e), lv0[p - 1], -1)
    requires Flat(lv[p]) == Ins(Flat(lv0[p]), at, e)
    ensures forall m {:trigger LinkAt(lv, m)} :: 0 < m <= p ==> LinkAt(lv, m)
    ensures forall m :: 0 <= m < p ==> lv[m] == lv0[m]
  {
    ShapeFromFacts(lv0[p := lv[p]], lv, p + 1);
    forall m | 0 < m <= p ensures LinkAt(lv, m) {
      assert m < p ==> LinkAt(lv0, m);
    }
  }

  lemma LevelDoneAll(t: Btree, lv0: seq<Level>, cur: Cursor, p: nat)
    requires t.Core() && LevelDone(t, cur, p) && |lv0| == |t.lv| && SizesFrom(t, lv0, p)
    requires ShapeFrom(lv0[p := t.lv[p]], t.lv, p + 1)
    requires forall m {:trigger LinkAt(t.lv, m)} :: 0 < m <= p ==> LinkAt(t.lv, m)
    requires forall m :: 0 <= m < p ==> Sized(t.lv[m], t.MinRecs(m), t.MaxRecs(m))
    ensures t.Valid()
  {
    ShapeFromFacts(lv0[p := t.lv[p]], t.lv, p + 1);
    forall l | 0 <= l < |t.lv| ensures SizedAt(t, t.lv, l) {
      if l > p {
        assert SizedAt(t, lv0, l) && SameShape(lv0[p := t.lv[p]][l], t.lv[l]);
        SizedShape(lv0[l], t.lv[l], t.Least(|t.lv|, l), t.MaxRecs(l));
      }
    }
  }

  lemma LevelSplitNext(t: Btree, lv0: seq<Level>, cur: Cursor, ncur: Cursor?, p: nat, nptr: Ptr, nrec: Rec)
    requires t.Core() && LevelSplit(t, cur, ncur, p, nptr, nrec) && |lv0| == |t.lv| && SizesFrom(t, lv0, p)
    requires ShapeFrom(lv0[p := t.lv[p]], t.lv, p + 1)
    requires cur.Fits() && cur.nlevels == t.nlevels && AtBlk(t.lv, cur.bufs, cur.pos, p)
    requires forall m {:trigger LinkAt(t.lv, m)} :: 0 < m <= p ==> LinkAt(t.lv, m)
    requires forall m :: 0 <= m < p ==> Sized(t.lv[m], t.MinRecs(m), t.MaxRecs(m))
    ensures Inserting(t, if ncur == null then cur else ncur, p + 1, Entry(nrec, nptr))
  {
    ShapeFromFacts(lv0[p := t.lv[p]], t.lv, p + 1);
    forall l | p < l < |t.lv| ensures SizedAt(t, t.lv, l) {
      assert SizedAt(t, lv0, l) && SameShape(lv0[p := t.lv[p]][l], t.lv[l]);
      SizedShape(lv0[l], t.lv[l], t.Least(|t.lv|, l), t.MaxRecs(l));
    }
  }

  /** A new root completes the tree. */
  lemma RootDone(t: Btree, lv0: seq<Level>)
    requires t.Core() && t.Rooted() && |lv0| > 0 && |t.lv| == |lv0| + 1 && t.lv[..|lv0|] == lv0
    requires forall m {:trigger LinkAt(lv0, m)} :: 0 < m < |lv0| ==> LinkAt(lv0, m)
    requires LinkAt(t.lv, |lv0|) && |t.lv[|lv0|][0].ents| == 2
    requires forall m :: 0 <= m < |lv0| ==> Sized(lv0[m], t.MinRecs(m), t.MaxRecs(m))
    ensures t.Valid() && t.lv[0] == lv0[0]
  {
    assert forall m :: 0 <= m < |lv0| ==> t.lv[m] == t.lv[..|lv0|][m];
    forall m | 0 < m < |t.lv| ensures LinkAt(t.lv, m) {
      assert m < |lv0| ==> LinkAt(lv0, m);
    }
    forall l | 0 <= l < |t.lv| ensures SizedAt(t, t.lv, l) {
    }
  }

  /**
   * The blocks an insertion draws from level l up, where its entry goes to place ptr of the path's block: one for every
   * block split, up to the first that need not be, and one for a new root if all are.
   */
  ghost function Draws(t: Btree, lv: seq<Level>, pos: seq<nat>, ptrs: seq<int>, l: nat, ptr: int): nat
    decreases |lv| - l
  {
    if l >= |lv| then 1
    else if l < |pos| && pos[l] < |lv[l]| && Stuck(lv[l], pos[l], ptr, t.MaxRecs(l)) then
      1 + Draws(t, lv, pos, ptrs, l + 1, PlaceAt(ptrs, l + 1) + 1)
    else 0
  }

  ghost function PlaceAt(ptrs: seq<int>, l: nat): int {
    if l < |ptrs| then ptrs[l] else 1
  }

  /** What an insertion at the cursor draws. */
  ghost function Due(t: Btree, cur: Cursor, l: nat): nat
    reads t`lv, cur
  {
    Draws(t, t.lv, cur.pos, cur.ptrs, l, PlaceAt(cur.ptrs, l))
  }

  /** Only block sizes matter, and only from level l up. */
  lemma {:induction false} DrawsSame(t: Btree, lv: seq<Level>, lv': seq<Level>, pos: seq<nat>, pos': seq<nat>,
                                     ptrs: seq<int>, ptrs': seq<int>, l: nat, ptr: int)
    requires |lv| == |lv'| == |pos| == |pos'| == |ptrs| == |ptrs'|
    requires forall m :: l <= m < |lv| ==> SameShape(lv[m], lv'[m]) && pos[m] == pos'[m]
    requires forall m :: l < m < |lv| ==> ptrs[m] == ptrs'[m]
    ensures Draws(t, lv, pos, ptrs, l, ptr) == Draws(t, lv', pos', ptrs', l, ptr)
    decreases |lv| - l
  {
    if l < |lv| {
      assert SameShape(lv[l], lv'[l]);
      assert pos[l] < |lv[l]| ==> SameBlk(lv[l][pos[l]], lv'[l][pos[l]]);
      assert pos[l] + 1 < |lv[l]| ==> SameBlk(lv[l][pos[l] + 1], lv'[l][pos[l] + 1]);
      assert 0 < pos[l] <= |lv[l]| ==> SameBlk(lv[l][pos[l] - 1], lv'[l][pos[l] - 1]);
      DrawsSame(t, lv, lv', pos, pos', ptrs, ptrs', l + 1, PlaceAt(ptrs, l + 1) + 1);
    }
  }

  lemma {:induction false} DrawsMost(t: Btree, lv: seq<Level>, pos: seq<nat>, ptrs: seq<int>, l: nat, ptr: int)
    requires l <= |lv|
    ensures Draws(t, lv, pos, ptrs, l, ptr) <= |lv| - l + 1
    decreases |lv| - l
  {
    if l < |lv| {
      DrawsMost(t, lv, pos, ptrs, l + 1, PlaceAt(ptrs, l + 1) + 1);
    }
  }

  lemma DueMost(t: Btree, cur: Cursor)
    requires |t.lv| > 0
    ensures Due(t, cur, 0) <= |t.lv| + 1
  {
    DrawsMost(t, t.lv, cur.pos, cur.ptrs, 0, PlaceAt(cur.ptrs, 0));
  }

  /** After a split at level l, what is due above is one less than was due. */
  lemma DueNext(t: Btree, lv0: seq<Level>, pos0: seq<nat>, ptrs0: seq<int>, next: Cursor, l: nat)
    requires l < |lv0| == |t.lv| == |pos0| == |ptrs0| && pos0[l] < |lv0[l]|
    requires Stuck(lv0[l], pos0[l], ptrs0[l], t.MaxRecs(l))
    requires ShapeFrom(lv0[l := t.lv[l]], t.lv, l + 1)
    requires l + 1 < |lv0| ==> Follows(next, pos0, ptrs0, l + 1)
    ensures Draws(t, lv0, pos0, ptrs0, l, ptrs0[l]) == 1 + Due(t, next, l + 1)
  {
    hide Stuck, SameShape;
    if l + 1 < |lv0| {
      var lv1 := lv0[l := t.lv[l]];
      forall m | l + 1 <= m < |lv0| ensures SameShape(lv0[m], t.lv[m]) {
        assert SameShape(lv1[m], t.lv[m]);
      }
      DrawsSame(t, lv0, t.lv, pos0, next.pos, ptrs0, next.ptrs, l + 1, ptrs0[l + 1] + 1);
    }
  }

  /** One round of the loop of Insert: one level, or the new root on top. */
  method InsertStep(t: Btree, cur: Cursor, level: nat, e: Entry) returns (ok: bool, nptr: Ptr, nrec: Rec, next: Cursor)
    requires Inserting(t, cur, level, e)
    modifies t`store, t`lv, t`root, t`nlevels, t.fl, cur
    ensures !ok ==> old(t.fl.queue) == [] && old(Due(t, cur, level)) > 0
    ensures ok ==> old(|t.fl.queue|) + (if nptr == NULLAGBLOCK then 0 else Due(t, next, level + 1))
                   == |t.fl.queue| + old(Due(t, cur, level))
    ensures ok ==> Owned(t) == old(Owned(t))
    ensures ok ==> |t.store| - |old(t.store)| == old(|t.fl.queue|) - |t.fl.queue| == t.fl.btreeblks - old(t.fl.btreeblks)
    ensures ok ==> |t.fl.queue| >= old(|t.fl.queue|) - 1
    ensures ok ==> next == cur || fresh(next)
    ensures ok ==> cur.Fits() && cur.nlevels == t.nlevels
    ensures ok && nptr == NULLAGBLOCK ==> t.Valid()
    ensures ok && nptr != NULLAGBLOCK ==>
              && t.nlevels == old(t.nlevels)
              && Inserting(t, next, level + 1, Entry(nrec, nptr))
    ensures ok ==> t.nlevels == old(t.nlevels) + if level < old(t.nlevels) then 0 else 1
    ensures ok && level == 0 && nptr != NULLAGBLOCK ==> Halved(old(t.lv[0]), t.lv[0], old(cur.pos[0]))
    ensures level == 0 && level < old(t.nlevels) ==>
              (ok && nptr == NULLAGBLOCK <==> !old(Stuck(t.lv[0], cur.pos[0], cur.ptrs[0], t.MaxRecs(0))))
    ensures ok ==> t.nlevels > 0 && (level > 0 ==> t.lv[0] == old(t.lv)[0])
    ensures ok && level == 0 ==>
              && t.Core()
              && Flat(t.lv[0]) == Ins(Flat(old(t.lv[0])), old(cur.At(t.lv, 0)), e)
              && AtBlk(t.lv, cur.bufs, cur.pos, 0) && cur.At(t.lv, 0) == old(cur.At(t.lv, 0))
              && 1 <= cur.ptrs[0] <= |t.lv[0][cur.pos[0]].ents|
              && (cur.pos[0] + 1 < |t.lv[0]| ==> NonEmpty(t.lv[0]))
  {
    ghost var lv0, pos0, ptrs0 := t.lv, cur.pos, cur.ptrs;
    next := cur;
    if level >= t.nlevels {
      if t.fl.flcount == 0 {
        return false, NULLAGBLOCK, e.key, cur;
      }
      ok := true;
      NewRoot(t, cur);
      RootDone(t, lv0);
      nptr, nrec := NULLAGBLOCK, e.key;
    } else {
      ghost var at := cur.At(t.lv, level);
      assert SizedAt(t, lv0, level);
      var ncur;
      ok, nptr, nrec, ncur := Insrec(t, cur, level, e);
      if !ok {
        return;
      }
      StepLinks(lv0, t.lv, level, at, e);
      if nptr == NULLAGBLOCK {
        LevelDoneAll(t, lv0, cur, level);
      } else {
        LevelSplitNext(t, lv0, cur, ncur, level, nptr, nrec);
        if ncur != null {
          next := ncur;
        }
        DueNext(t, lv0, pos0, ptrs0, next, level);
      }
    }
  }

  /** Blocks in the tree, on the freelist, and counted as tree blocks: what no insertion or deletion changes. */
  ghost predicate Balance(t: Btree, own: set<Ptr>, total: int, counted: int)
    reads t`store, t.fl
  {
    && Owned(t) == own
    && |t.store| + |t.fl.queue| == total
    && t.fl.btreeblks + |t.fl.queue| == counted
  }

  /** The first round: the record goes into its leaf. */
  method InsertLeaf(t: Btree, cur: Cursor) returns (ok: bool, nptr: Ptr, nrec: Rec, next: Cursor, last: bool)
    requires t.Valid() && cur.On(t.lv, 0) && cur.pos[0] < |t.lv[0]|
    requires 1 <= cur.ptrs[0] <= |t.lv[0][cur.pos[0]].ents| + 1
    modifies t`store, t`lv, t`root, t`nlevels, t.fl, cur
    ensures !ok ==> old(t.fl.queue) == [] && old(Due(t, cur, 0)) > 0
    ensures ok ==> old(|t.fl.queue|) + (if nptr == NULLAGBLOCK then 0 else Due(t, next, 1)) == |t.fl.queue| + old(Due(t, cur, 0))
    ensures ok ==> cur.Fits() && cur.nlevels == t.nlevels == old(t.nlevels) > 0
    ensures ok ==> next == cur || fresh(next)
    ensures ok ==> |t.lv| > 0 && 0 <= old(cur.At(t.lv, 0)) <= old(|t.Recs()|)
    ensures ok ==> t.Recs() == Ins(old(t.Recs()), old(cur.At(t.lv, 0)), old(cur.rec))
    ensures ok && !last ==> old(cur.At(t.lv, 0)) < old(|t.Recs()|)
    ensures ok ==> Balance(t, old(Owned(t)), |old(t.store)| + old(|t.fl.queue|), old(t.fl.btreeblks) + old(|t.fl.queue|))
    ensures ok ==> |t.fl.queue| >= old(|t.fl.queue|) - 1
    ensures ok && old(Stuck(t.lv[0], cur.pos[0], cur.ptrs[0], t.MaxRecs(0))) ==> Halved(old(t.lv[0]), t.lv[0], old(cur.pos[0]))
    ensures ok && nptr == NULLAGBLOCK ==> t.Valid()
    ensures ok && nptr != NULLAGBLOCK ==> Inserting(t, next, 1, Entry(nrec, nptr))
  {
    hide Tied, Draws, Flat, Off, AllTied, Stores, FreeList.Valid, Inserting;
    ghost var at := cur.At(t.lv, 0);
    AtInRange(t.lv[0], cur.pos[0], cur.ptrs[0]);
    var e := Entry(cur.rec, NULLAGBLOCK);
    KeysIns(Flat(t.lv[0]), at, e);
    ok, nptr, nrec, next := InsertStep(t, cur, 0, e);
    last := false;
    if !ok {
      return;
    }
    last := IsLastrec(t, cur);
  }

  /** The rounds above the leaf, with the cursor first that the leaf's round left. */
  method InsertAbove(t: Btree, cur: Cursor, first: Cursor, nptr0: Ptr, nrec0: Rec) returns (ok: bool)
    requires cur.Fits() && cur.nlevels == t.nlevels
    requires nptr0 == NULLAGBLOCK ==> t.Valid()
    requires nptr0 != NULLAGBLOCK ==> Inserting(t, first, 1, Entry(nrec0, nptr0))
    modifies t`store, t`lv, t`root, t`nlevels, t.fl, first, cur
    ensures ok <==> old(if nptr0 == NULLAGBLOCK then 0 else Due(t, first, 1)) <= old(|t.fl.queue|)
    ensures ok ==> old(|t.fl.queue|) == |t.fl.queue| + old(if nptr0 == NULLAGBLOCK then 0 else Due(t, first, 1))
    ensures ok ==> t.Valid() && old(|t.lv|) > 0 && t.lv[0] == old(t.lv)[0]
    ensures ok ==> cur.Fits() && cur.nlevels == t.nlevels
    ensures ok ==> Balance(t, old(Owned(t)), |old(t.store)| + old(|t.fl.queue|), old(t.fl.btreeblks) + old(|t.fl.queue|))
    ensures ok ==> old(t.nlevels) <= t.nlevels <= old(t.nlevels) + 1
    ensures ok ==> |t.fl.queue| + old(t.nlevels) >= old(|t.fl.queue|)
  {
    hide AllTied, Stores, FreeList.Valid, Flat, Off;
    ghost var q, n, leaves := |t.fl.queue|, t.nlevels, t.lv[0];
    ghost var due := if nptr0 == NULLAGBLOCK then 0 else Due(t, first, 1);
    ghost var own, total, counted := Owned(t), |t.store| + |t.fl.queue|, t.fl.btreeblks + |t.fl.queue|;
    var level := 1;
    var nptr, nrec, pcur := nptr0, nrec0, first;
    while nptr != NULLAGBLOCK
      invariant 1 <= level <= n + 1 && n <= t.nlevels <= n + 1
      invariant nptr != NULLAGBLOCK ==> t.nlevels == n && level <= n
      invariant |t.fl.queue| + level - 1 >= q
      invariant q + (if nptr == NULLAGBLOCK then 0 else Due(t, pcur, level)) == |t.fl.queue| + due
      invariant Balance(t, own, total, counted)
      invariant pcur == cur || pcur == first || fresh(pcur)
      invariant cur.Fits() && cur.nlevels <= t.nlevels
      invariant nptr == NULLAGBLOCK ==> t.Valid()
      invariant nptr != NULLAGBLOCK ==> Inserting(t, pcur, level, Entry(nrec, nptr))
      invariant |t.lv| > 0 && t.lv[0] == leaves
      decreases nptr != NULLAGBLOCK, n + 1 - level
    {
      ok, nptr, nrec, pcur := InsertStep(t, pcur, level, Entry(nrec, nptr));
      if !ok {
        return;
      }
      level := level + 1;
    }
    cur.Resize(t.nlevels);
    ok := true;
  }

  /** Insert the record, all levels; last tells whether it went into the last leaf. */
  method InsertLevels(t: Btree, cur: Cursor) returns (ok: bool, last: bool)
    requires t.Valid() && cur.On(t.lv, 0) && cur.pos[0] < |t.lv[0]|
    requires 1 <= cur.ptrs[0] <= |t.lv[0][cur.pos[0]].ents| + 1
    modifies t`store, t`lv, t`root, t`nlevels, t.fl, cur
    ensures ok <==> old(Due(t, cur, 0)) <= old(|t.fl.queue|)
    ensures ok ==> old(|t.fl.queue|) == |t.fl.queue| + old(Due(t, cur, 0))
    ensures ok ==> t.Valid() && cur.Fits() && cur.nlevels == t.nlevels
    ensures ok && old(Stuck(t.lv[0], cur.pos[0], cur.ptrs[0], t.MaxRecs(0))) ==> Halved(old(t.lv[0]), t.lv[0], old(cur.pos[0]))
    ensures ok ==> 0 <= old(cur.At(t.lv, 0)) <= old(|t.Recs()|)
    ensures ok ==> t.Recs() == Ins(old(t.Recs()), old(cur.At(t.lv, 0)), old(cur.rec))
    ensures ok && !last ==> old(cur.At(t.lv, 0)) < old(|t.Recs()|)
    ensures ok ==> Balance(t, old(Owned(t)), |old(t.store)| + old(|t.fl.queue|), old(t.fl.btreeblks) + old(|t.fl.queue|))
    ensures ok ==> old(t.nlevels) <= t.nlevels <= old(t.nlevels) + 1 && |t.fl.queue| + old(t.nlevels) + 1 >= old(|t.fl.queue|)
  {
    var nptr, nrec, pcur;
    ok, nptr, nrec, pcur, last := InsertLeaf(t, cur);
    if ok {
      ok := InsertAbove(t, cur, pcur, nptr, nrec);
    }
  }

  /**
   * Insert the cursor's record at the cursor. False if the cursor is off the left edge, or if the freelist
   * runs out, when the tree is left half changed; a block for every level and one for a new root do.
   */
  method Insert(t: Btree, cur: Cursor) returns (stat: bool)
    requires t.Valid() && cur.On(t.lv, 0) && cur.pos[0] < |t.lv[0]|
    requires 0 <= cur.ptrs[0] <= |t.lv[0][cur.pos[0]].ents| + 1
    modifies t`store, t`lv, t`root, t`nlevels, t`longest, t.fl, cur
    ensures stat <==> old(cur.ptrs[0] > 0 && Due(t, cur, 0) <= |t.fl.queue|)
    ensures stat ==> old(|t.fl.queue|) == |t.fl.queue| + old(Due(t, cur, 0))
    ensures old(Due(t, cur, 0)) <= old(t.nlevels) + 1
    ensures old(cur.ptrs[0]) == 0 ==> !stat && t.Valid() && t.Recs() == old(t.Recs()) && t.longest == old(t.longest)
    ensures stat ==> t.Valid() && cur.Fits() && cur.nlevels == t.nlevels
    ensures stat && old(Stuck(t.lv[0], cur.pos[0], cur.ptrs[0], t.MaxRecs(0))) ==> Halved(old(t.lv[0]), t.lv[0], old(cur.pos[0]))
    ensures stat ==> old(cur.ptrs[0]) > 0 && 0 <= old(cur.At(t.lv, 0)) <= old(|t.Recs()|)
                     && t.Recs() == Ins(old(t.Recs()), old(cur.At(t.lv, 0)), old(cur.rec))
    ensures stat ==> Balance(t, old(Owned(t)), |old(t.store)| + old(|t.fl.queue|), old(t.fl.btreeblks) + old(|t.fl.queue|))
    ensures stat ==> old(t.nlevels) <= t.nlevels <= old(t.nlevels) + 1
    ensures stat ==> |t.fl.queue| + old(t.nlevels) + 1 >= old(|t.fl.queue|)
    ensures stat && t.kind == Cnt && Sorted(Cnt, t.Recs()) && old(t.longest == LastCount(t.Recs())) ==>
              t.longest == LastCount(t.Recs())
    ensures t.kind == Bno ==> t.longest == old(t.longest)
  {
    DueMost(t, cur);
    if cur.ptrs[0] == 0 {
      return false;
    }
    ghost var recs, at := t.Recs(), cur.At(t.lv, 0);
    var rec := cur.rec;
    var last;
    stat, last := InsertLevels(t, cur);
    if stat {
      UpdateLastrecInsert(t, last, rec, recs, at);
    }
  }
}
