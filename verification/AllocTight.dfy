/** A group whose freelist has its least length and runs out all the same. */
module AllocTight {
  import opened Records
  import opened Extents
  import opened Levels
  import opened FreeLists
  import opened Btrees
  import opened BtreeFull
  import opened AllocTree
  import opened AllocGroup
  import opened AllocFixup
  import opened AllocFreelist

  /** Twenty free extents, each longer than the one before it. */
  function Nth(i: nat): Rec { Rec(100 + 300 * i, 10 * (i + 1)) }

  ghost function Row(n: nat): seq<Rec> { seq(n, i requires 0 <= i < n => Nth(i)) }

  /** Their entries, four to a leaf. */
  function LeafOf(b: nat): seq<Entry> {
    [Entry(Nth(4 * b), NULLAGBLOCK), Entry(Nth(4 * b + 1), NULLAGBLOCK),
     Entry(Nth(4 * b + 2), NULLAGBLOCK), Entry(Nth(4 * b + 3), NULLAGBLOCK)]
  }

  /** The entries of a root above five leaves, in the blocks from base on. */
  function RootOf(base: nat): seq<Entry> {
    seq(5, b requires 0 <= b < 5 => Entry(Nth(4 * b), base + b))
  }

  /** Block b of a tree of full blocks, the root being block 5. */
  function BlockOf(base: nat, b: nat): Block {
    if b == 5 then Block(1, RootOf(base), NULLAGBLOCK, NULLAGBLOCK)
    else Block(0, LeafOf(b), if b == 0 then NULLAGBLOCK else base + b - 1, if b == 4 then NULLAGBLOCK else base + b + 1)
  }

  function FullStore(base: nat): Store {
    map p | p in Blocks(Rec(base, 6)) :: BlockOf(base, p - base)
  }

  ghost function Leaves(base: nat, n: nat): (lv: Level)
    ensures |lv| == n && forall i :: 0 <= i < n ==> lv[i] == Blk(base + i, LeafOf(i))
  {
    if n == 0 then [] else Leaves(base, n - 1) + [Blk(base + n - 1, LeafOf(n - 1))]
  }

  ghost function RootLevel(base: nat): Level { [Blk(base + 5, RootOf(base))] }

  ghost function FullTree(base: nat): seq<Level> { [Leaves(base, 5), RootLevel(base)] }

  lemma FlatSnoc(lv: Level, b: Blk)
    ensures Flat(lv + [b]) == Flat(lv) + b.ents
  {
    assert (lv + [b])[..|lv|] == lv;
  }

  lemma {:induction false} FlatLeaves(base: nat, n: nat)
    ensures Keys(Flat(Leaves(base, n))) == Row(4 * n)
  {
    if n > 0 {
      FlatLeaves(base, n - 1);
      FlatSnoc(Leaves(base, n - 1), Blk(base + n - 1, LeafOf(n - 1)));
      LeafRow(Flat(Leaves(base, n - 1)), n - 1);
    }
  }

  lemma LeafRow(es: seq<Entry>, b: nat)
    requires Keys(es) == Row(4 * b)
    ensures Keys(es + LeafOf(b)) == Row(4 * (b + 1))
  {
    var ks := Keys(es + LeafOf(b));
    forall i | 0 <= i < 4 * (b + 1) ensures ks[i] == Nth(i) {
      if i < 4 * b {
        assert |Keys(es)| == 4 * b && Keys(es)[i] == Nth(i);
      }
    }
  }

  lemma LeafOff(base: nat, b: nat)
    requires b <= 5
    ensures Off(Leaves(base, 5), b) == 4 * b
  {
    FlatLeaves(base, b);
    assert Leaves(base, 5)[..b] == Leaves(base, b);
    assert |Keys(Flat(Leaves(base, b)))| == 4 * b;
  }

  /** The extents are in both orders, and apart. */
  lemma RowFacts()
    ensures Sorted(Bno, Row(20)) && Sorted(Cnt, Row(20)) && Apart(Elems(Row(20))) && LastCount(Row(20)) == 200
    ensures Nth(19) in Elems(Row(20)) && forall f :: f in Elems(Row(20)) ==> 100 <= f.start && f.start + f.count <= 6000
  {
    assert Row(20)[19] == Nth(19);
  }

  lemma {:induction false} RowSum(i: nat)
    requires i <= 20
    ensures SumOf(Row(20)[i..]) == 2100 - 5 * i * (i + 1)
    decreases 20 - i
  {
    if i < 20 {
      RowSum(i + 1);
      assert Row(20)[i..][1..] == Row(20)[i + 1..];
    }
  }

  lemma StoreIs(base: nat)
    ensures forall p :: p in FullStore(base) <==> base <= p <= base + 5
    ensures forall p :: base <= p <= base + 5 ==> FullStore(base)[p] == BlockOf(base, p - base)
    ensures |FullStore(base)| == 6
  {
    hide BlockOf;
    var store, r := FullStore(base), Rec(base, 6);
    assert forall p: nat :: Covers(r, p) <==> base <= p <= base + 5;
    assert store.Keys == Blocks(r);
    BlocksSize(r);
  }

  lemma LeavesTied(base: nat)
    ensures Tied(FullStore(base), Leaves(base, 5), 0)
  {
    var store, lo := FullStore(base), Leaves(base, 5);
    StoreIs(base);
    hide FullStore, Leaves, LeafOf;
    forall p | p in store && store[p].level == 0 ensures HasBlk(lo, p) {
      assert p - base < 5;
      assert lo[p - base].id == p;
    }
    forall i | 0 <= i < 5 ensures BlkTied(store, lo, 0, i) {
      assert store[base + i] == BlockOf(base, i);
    }
  }

  lemma RootTied(base: nat)
    ensures Tied(FullStore(base), RootLevel(base), 1)
  {
    var store, up := FullStore(base), RootLevel(base);
    StoreIs(base);
    hide FullStore, RootOf, LeafOf;
    assert up[0].id == base + 5 && store[base + 5] == BlockOf(base, 5);
    assert BlkTied(store, up, 1, 0);
    forall p | p in store && store[p].level == 1 ensures HasBlk(up, p) {
      assert p == base + 5;
      assert up[0].id == p;
    }
  }

  lemma FullLinks(base: nat)
    ensures LinksFrom(FullTree(base), 0)
  {
    FlatSnoc([], Blk(base + 5, RootOf(base)));
    assert [] + [Blk(base + 5, RootOf(base))] == RootLevel(base);
    HeadsRoot(base);
    hide Leaves, RootOf, HeadsBut;
    assert LinkAt(FullTree(base), 1);
  }

  lemma HeadsRoot(base: nat)
    ensures HeadsBut(RootOf(base), Leaves(base, 5), -1)
  {
  }

  lemma FullSizes(t: Btree, base: nat)
    requires t.mxr == 4 && t.mxn == 5
    ensures SizesFrom(t, FullTree(base), 0) && AllFull(t, FullTree(base))
  {
    var lv: seq<Level> := FullTree(base);
    assert forall i :: 0 <= i < 5 ==> |lv[0][i].ents| == 4;
    assert |lv[1][0].ents| == 5;
    hide LeafOf, RootOf, Leaves, RootLevel;
    forall l | 0 <= l < 2 ensures SizedAt(t, lv, l) && FullLevel(lv[l], t.MaxRecs(l)) {
    }
  }

  lemma FullStores(base: nat, queue: seq<Ptr>)
    requires base + 5 < NULLAGBLOCK && forall p :: base <= p <= base + 5 ==> p !in queue
    ensures Stores(FullStore(base), queue, 2)
  {
    StoreIs(base);
    hide FullStore, LeafOf, RootOf;
  }

  /** A tree of these blocks is well formed, and all of them are full. */
  lemma FullGood(t: Btree, base: nat)
    requires t.mxr == 4 && t.mxn == 5 && t.fl.Valid() && base + 5 < NULLAGBLOCK
    requires t.store == FullStore(base) && t.lv == FullTree(base) && t.root == base + 5 && t.nlevels == 2 && t.longest == 200
    requires forall p :: base <= p <= base + 5 ==> p !in t.fl.queue
    ensures Good(t) && t.Recs() == Row(20) && AllFull(t, t.lv)
  {
    FullStores(base, t.fl.queue);
    LeavesTied(base);
    RootTied(base);
    FullLinks(base);
    FullSizes(t, base);
    FlatLeaves(base, 5);
    RowFacts();
    hide FullStore, Stores, Tied, LinksFrom, SizesFrom, AllFull, Flat, LeafOf, RootOf, Leaves, Row, Sorted, Apart,
      LastCount, FreeList.Valid;
    assert |t.lv| == 2 && t.lv[0] == Leaves(base, 5) && t.lv[1] == RootLevel(base);
    assert AllTied(t.store, t.lv);
    assert t.Core();
  }

  /** The last extent, and the part to be taken out of it. */
  const LAST := Rec(5800, 200)

  const PART := Rec(5815, 80)

  lemma LastSqueezed(t: Btree, base: nat)
    requires t.kind == Cnt && t.mxr == 4 && t.mxn == 5
    ensures PartOf(PART, LAST) && Remains(LAST, PART) == (Rec(5800, 15), Rec(5895, 105))
    ensures Squeezed(t, FullTree(base), LAST, Rec(5800, 15), Rec(5895, 105))
  {
    FullSizes(t, base);
    FlatLeaves(base, 5);
    LeafOff(base, 0);
    LeafOff(base, 2);
    var lv := Leaves(base, 5);
    assert forall i :: 0 <= i < 5 ==> |lv[i].ents| == 4;
    assert lv[4].ents[3].key == LAST;
    assert InLeaf(lv, 4, LAST);
    hide Leaves, LeafOf, Flat, Off;
    assert Between(Cnt, Row(20), 1, Rec(5800, 15)) && Between(Cnt, Row(20), 10, Rec(5895, 105));
    assert LeftPlaces(t, lv, Row(20), LAST, Rec(5800, 15), Rec(5895, 105), 1, 0, 10, 2, 4);
  }

  /** Put six blocks on the freelist. */
  method FillList(fl: FreeList)
    requires fl.Valid() && fl.queue == [] && fl.slots.Length == 32
    modifies fl, fl.slots
    ensures fl.Valid() && fl.btreeblks == 10 && |fl.queue| == 6 && forall p :: p in fl.queue ==> 21 <= p <= 26
  {
    var i := 0;
    while i < 6
      invariant 0 <= i <= 6 && fl.Valid() && |fl.queue| == i && fl.slots.Length == 32
      invariant forall p :: p in fl.queue ==> 21 <= p < 21 + i
    {
      fl.Put(21 + i, false);
      i := i + 1;
    }
    fl.btreeblks := 10;
  }

  method FillTree(t: Btree, base: nat)
    modifies t
    ensures t.store == FullStore(base) && t.lv == FullTree(base) && t.root == base + 5 && t.nlevels == 2 && t.longest == 200
  {
    t.store, t.root, t.nlevels, t.longest := FullStore(base), base + 5, 2, 200;
    t.lv := FullTree(base);
  }

  /** The trees are in blocks 1 to 6 and 11 to 16, the freelist in 21 to 26, below all extents. */
  ghost predicate Filled(ag: Ag)
    reads ag, ag.cnt, ag.bno, ag.cnt.fl, ag.cnt.fl.slots, ag.bno.fl, ag.bno.fl.slots
  {
    && ag.cnt != ag.bno && ag.cnt.fl == ag.bno.fl == ag.fl && ag.cnt.kind == Cnt && ag.bno.kind == Bno
    && ag.cnt.mxr == ag.bno.mxr == 4 && ag.cnt.mxn == ag.bno.mxn == 5
    && ag.length == 6200 && ag.freeblks == 2100
    && ag.fl.Valid() && ag.fl.btreeblks == 10 && |ag.fl.queue| == 6 && (forall p :: p in ag.fl.queue ==> 21 <= p <= 26)
    && ag.cnt.store == FullStore(1) && ag.cnt.lv == FullTree(1) && ag.cnt.root == 6 && ag.cnt.nlevels == 2
        && ag.cnt.longest == 200
    && ag.bno.store == FullStore(11) && ag.bno.lv == FullTree(11) && ag.bno.root == 16 && ag.bno.nlevels == 2
        && ag.bno.longest == 200
  }

  lemma FilledFormed(ag: Ag)
    requires Filled(ag)
    ensures ag.Formed() && ag.Extents() == Elems(Row(20)) == Held(ag.cnt) && AllFull(ag.cnt, ag.cnt.lv)
              && AllFull(ag.bno, ag.bno.lv)
  {
    hide FullStore, FullTree, Row, Good, AllFull, FreeList.Valid;
    FullGood(ag.cnt, 1);
    FullGood(ag.bno, 11);
    StoreIs(1);
    StoreIs(11);
    assert |ag.cnt.lv| == 2 && |ag.bno.lv| == 2 by {
      TreeHigh(1);
      TreeHigh(11);
    }
  }

  lemma TreeHigh(base: nat)
    ensures |FullTree(base)| == 2
  {
  }

  lemma RowPlaced(res: set<nat>)
    requires forall b :: b in res ==> b < 100
    ensures Placed(Elems(Row(20)), res, 6200)
  {
    RowFacts();
    hide Row, Apart;
    forall b | b in Free(Elems(Row(20))) ensures 100 <= b < 6000 {
      var q :| q in Elems(Row(20)) && Covers(q, b);
    }
  }

  lemma FilledPlaced(ag: Ag)
    requires Filled(ag)
    ensures Placed(Elems(Row(20)), Reserve(ag.cnt, ag.bno), 6200)
  {
    hide FullStore, FullTree, Row, Placed, FreeList.Valid;
    StoreIs(1);
    StoreIs(11);
    RowPlaced(Reserve(ag.cnt, ag.bno));
  }

  lemma FilledSum()
    ensures |Free(Elems(Row(20)))| == 2100
  {
    RowFacts();
    RowSum(0);
    hide Row, SumOf, Sorted, Apart, Free;
    assert Row(20)[0..] == Row(20);
    SumIsSize(Row(20));
  }

  /** A well formed group with all that the source asks of a freelist, from which the part cannot be taken. */
  method TightGroup() returns (ag: Ag)
    ensures ag.Valid() && Trim(ag) && LAST in ag.Extents() && PartOf(PART, LAST) && RunsOut(ag, LAST, PART)
  {
    hide FullStore, FullTree, Placed, Reserve, Good, FreeList.Valid;
    ag := new Ag(6200, 8, 4, 5, 32, 1, 11);
    FreelistValid(ag);
    FillList(ag.fl);
    FillTree(ag.cnt, 1);
    FillTree(ag.bno, 11);
    ag.freeblks := 2100;
    FilledTight(ag);
  }

  lemma FilledTight(ag: Ag)
    requires Filled(ag) && ag.maxlevels == 8 && ag.fl.slots.Length == 32
    ensures ag.Valid() && Trim(ag) && LAST in ag.Extents() && PartOf(PART, LAST) && RunsOut(ag, LAST, PART)
  {
    hide FullStore, FullTree, Placed, Reserve, Row, Squeezed, AllFull, Free, Ag.Formed;
    FilledFormed(ag);
    FilledPlaced(ag);
    FilledSum();
    RowFacts();
    LastSqueezed(ag.cnt, 1);
  }
}
