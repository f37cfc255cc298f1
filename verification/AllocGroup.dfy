/** An allocation group: its two free-space trees, its freelist and its count of free blocks. */
module AllocGroup {
  import opened Records
  import opened Extents
  import opened Levels
  import opened FreeLists
  import opened Btrees
  import opened AllocTree

  lemma EmptyPair(t: Btree, o: Btree)
    requires t != o && t.fl == o.fl && t.Valid() && o.Valid() && t.Recs() == [] == o.Recs()
    requires t.longest == o.longest == 0 && t.store.Keys == {t.root} && o.store.Keys == {o.root} && t.root != o.root
    requires t.fl.queue == [] && t.fl.btreeblks == 0
    ensures Pair(t, o) && Held(t) == Held(o) == {} && Reserve(t, o) == {t.root, o.root}
  {
    assert |t.store| == |t.store.Keys| == 1 && |o.store| == |o.store.Keys| == 1;
  }

  /** Free extents apart from one another and from the blocks in reserve, all of them inside the group. */
  ghost predicate Placed(s: set<Rec>, res: set<nat>, length: nat) {
    && Apart(s)
    && Free(s) !! res
    && length <= MaxAgBlocks
    && forall b :: b in Free(s) + res ==> b < length
  }

  /** A number of tree levels; no group has room for a tree of more. */
  type LevelCount = n: nat | n <= 32

  lemma EmptyPlaced(length: nat, b: Ptr, c: Ptr)
    requires b < length && c < length <= MaxAgBlocks
    ensures Placed({}, {b, c}, length) && Free({}) == {}
  {
  }

  class Ag {
    const length: nat
    const maxlevels: LevelCount
    const fl: FreeList
    const bno: Btree
    const cnt: Btree
    var freeblks: nat

    /** A group all of whose space is in use, but for the two blocks of its empty trees. */
    constructor (length: nat, maxlevels: LevelCount, mxr: nat, mxn: nat, slots: nat, bnoroot: Ptr, cntroot: Ptr)
      requires mxr >= 4 && mxn >= 4 && slots > 0
      requires bnoroot != cntroot && bnoroot < length && cntroot < length <= MaxAgBlocks
      ensures Valid() && Held(bno) == {} && Reserve(cnt, bno) == {bnoroot, cntroot}
      ensures this.length == length && this.maxlevels == maxlevels && fl.slots.Length == slots && fl.queue == []
      ensures bno.mxr == cnt.mxr == mxr && bno.mxn == cnt.mxn == mxn
      ensures fresh(fl) && fresh(fl.slots) && fresh(bno) && fresh(cnt)
    {
      hide Pair, Held, Reserve, Placed, Free, Tied;
      this.length, this.maxlevels := length, maxlevels;
      var fl := new FreeList(slots);
      var b := new Btree(Bno, mxr, mxn, fl, bnoroot);
      var c := new Btree(Cnt, mxr, mxn, fl, cntroot);
      this.fl, bno, cnt, freeblks := fl, b, c, 0;
      new;
      EmptyPair(c, b);
      EmptyPlaced(length, bnoroot, cntroot);
      assert Reserve(cnt, bno) == {bnoroot, cntroot};
    }

    /** Both trees are well formed. */
    ghost predicate Formed()
      reads cnt`store, cnt`root, cnt`nlevels, cnt`lv, cnt`longest
      reads bno`store, bno`root, bno`nlevels, bno`lv, bno`longest
      reads cnt.fl, cnt.fl.slots, bno.fl, bno.fl.slots
    {
      && Pair(cnt, bno) && cnt.kind == Cnt && bno.kind == Bno && cnt.fl == bno.fl == fl
      && cnt.nlevels == |cnt.lv| > 0 && bno.nlevels == |bno.lv| > 0
    }

    /** Both trees hold just these extents. */
    ghost predicate Holds(s: set<Rec>)
      reads cnt`store, cnt`root, cnt`nlevels, cnt`lv, cnt`longest
      reads bno`store, bno`root, bno`nlevels, bno`lv, bno`longest
      reads cnt.fl, cnt.fl.slots, bno.fl, bno.fl.slots
    {
      Formed() && Held(cnt) == s && Held(bno) == s
    }

    /** The free extents. */
    ghost function Extents(): set<Rec>
      reads bno`lv
    {
      Held(bno)
    }

    /** The blocks that are free, in the trees or on the freelist. */
    ghost function Blocks(): set<nat>
      reads bno`lv, cnt`store, bno`store, cnt.fl
    {
      Free(Extents()) + Reserve(cnt, bno)
    }

    /** All is well but perhaps the count of free blocks: each free block in one extent, or in reserve. */
    ghost predicate Sound()
      reads cnt`store, cnt`root, cnt`nlevels, cnt`lv, cnt`longest
      reads bno`store, bno`root, bno`nlevels, bno`lv, bno`longest
      reads cnt.fl, cnt.fl.slots, bno.fl, bno.fl.slots
    {
      Formed() && Holds(Extents()) && Placed(Extents(), Reserve(cnt, bno), length)
    }

    ghost predicate Valid()
      reads this`freeblks
      reads cnt`store, cnt`root, cnt`nlevels, cnt`lv, cnt`longest
      reads bno`store, bno`root, bno`nlevels, bno`lv, bno`longest
      reads cnt.fl, cnt.fl.slots, bno.fl, bno.fl.slots
    {
      Sound() && freeblks == |Free(Extents())|
    }
  }

  lemma {:induction false} ElemsSize<T>(queue: seq<T>)
    requires forall i, j :: 0 <= i < j < |queue| ==> queue[i] != queue[j]
    ensures |Elems(queue)| == |queue|
  {
    if queue != [] {
      ElemsSize(queue[1..]);
      assert queue == [queue[0]] + queue[1..];
      assert Elems(queue) == {queue[0]} + Elems(queue[1..]);
    }
  }

  lemma {:induction false} BelowSize(s: set<nat>, n: nat)
    requires forall b :: b in s ==> b < n
    ensures |s| <= n
  {
    if n > 0 {
      BelowSize(s - {n - 1}, n - 1);
    } else {
      assert s == {};
    }
  }

  /** The freelist holds its blocks once, and not the root of a tree. */
  lemma FreelistFacts(t: Btree)
    requires Good(t)
    ensures t.fl.flcount == |t.fl.queue| == |Elems(t.fl.queue)|
    ensures t.root in t.store && t.root !in t.fl.queue
  {
    ElemsSize(t.fl.queue);
    assert BlkTied(t.store, t.lv[t.nlevels - 1], t.nlevels - 1, 0);
  }

  /** A group has fewer free blocks, in its extents and on its freelist, than blocks. */
  lemma FreeBelow(ag: Ag)
    requires ag.Sound()
    ensures |Free(ag.Extents())| + ag.fl.flcount < ag.length <= MaxAgBlocks
  {
    hide Good;
    var s, q, root := Free(ag.Extents()), Elems(ag.fl.queue), ag.bno.root;
    FreelistFacts(ag.bno);
    forall b | b in s + (q + {root}) ensures b < ag.length {
      assert b in s + Reserve(ag.cnt, ag.bno);
    }
    BelowSize(s + (q + {root}), ag.length);
    assert |s + (q + {root})| == |s| + |q + {root}|;
  }

  /** With a block more or less on the freelist, none of the trees' blocks, the trees are still well formed. */
  twostate lemma StillFormed(ag: Ag)
    requires old(ag.Formed())
    requires ag.fl.Valid() && ag.fl.btreeblks == old(ag.fl.btreeblks)
    requires forall p :: p in ag.cnt.store || p in ag.bno.store ==> p in ag.fl.queue ==> p in old(ag.fl.queue)
    requires unchanged(ag.cnt) && unchanged(ag.bno)
    ensures ag.Formed()
  {
    OtherStays(ag.cnt);
    OtherStays(ag.bno);
  }

  lemma FreelistValid(ag: Ag)
    requires ag.Formed()
    ensures ag.fl.Valid()
  {
  }

  lemma ReserveGot(t: Btree, o: Btree, queue: seq<Ptr>)
    requires Pair(t, o) && queue != [] && t.fl.queue == queue[1..] && queue[0] !in queue[1..]
    requires queue[0] !in t.store && queue[0] !in o.store
    ensures Reserve(t, o) == t.store.Keys + o.store.Keys + Elems(queue) - {queue[0]}
  {
    hide Pair;
    assert queue == [queue[0]] + queue[1..];
  }

  /** Take a block off the freelist, not for a tree. */
  method GetFree(ag: Ag) returns (bno: Ptr)
    requires ag.Sound() && ag.fl.queue != []
    modifies ag.fl
    ensures ag.Sound() && bno == old(ag.fl.queue)[0] && ag.fl.queue == old(ag.fl.queue)[1..]
    ensures bno in old(Reserve(ag.cnt, ag.bno)) && Reserve(ag.cnt, ag.bno) == old(Reserve(ag.cnt, ag.bno)) - {bno}
    ensures ag.fl.btreeblks == old(ag.fl.btreeblks)
  {
    hide Placed;
    ghost var queue, s, res := ag.fl.queue, ag.Extents(), Reserve(ag.cnt, ag.bno);
    bno := ag.fl.Get(false);
    StillFormed(ag);
    ReserveGot(ag.cnt, ag.bno, queue);
    PlacedLess(s, res, res - {bno}, ag.length);
  }

  lemma PlacedLess(s: set<Rec>, res: set<nat>, res': set<nat>, length: nat)
    requires Placed(s, res, length) && res' <= res
    ensures Placed(s, res', length)
  {
    forall b | b in Free(s) + res' ensures b < length {
      assert b in Free(s) + res;
    }
  }
}
