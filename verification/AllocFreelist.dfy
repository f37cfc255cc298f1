/** Keeping the freelist at its proper length, and whole allocations and frees in a group. */
module AllocFreelist {
  import opened Records
  import opened Extents
  import opened Levels
  import opened FreeLists
  import opened Btrees
  import opened AllocTree
  import opened AllocGroup
  import opened AllocMath
  import opened AllocArgs
  import opened AllocSize
  import opened Alloc
  import opened AllocNear
  import opened AllocVextent
  import opened AllocFree
  import opened AllocRoom

  /** The group is well formed and has the blocks and the total it had. */
  ghost predicate Same(ag: Ag, blocks: set<nat>, total: int)
    reads ag, ag.cnt, ag.bno, ag.cnt.fl, ag.cnt.fl.slots, ag.bno.fl, ag.bno.fl.slots, ag.fl
  {
    ag.Valid() && ag.Blocks() == blocks && Total(ag) == total
  }

  lemma QueueBlock(ag: Ag, b: nat)
    requires ag.Valid() && b in ag.fl.queue
    ensures b in ag.Blocks() && b !in Free(ag.Extents()) && b < ag.length
  {
    hide Pair;
    assert b in Free(ag.Extents()) + Reserve(ag.cnt, ag.bno);
  }

  lemma Moved(free: set<nat>, res: set<nat>, b: nat)
    requires b in res && b !in free
    ensures free + (res - {b}) + Blocks(Rec(b, 1)) == free + res
    ensures Blocks(Rec(b, 1)) !! res - {b} && Blocks(Rec(b, 1)) !! free
  {
    ServedGone({}, res, b);
  }

  /** Move the oldest block of the freelist back to the free extents. */
  method ShrinkOne(ag: Ag) returns (ok: bool)
    requires ag.Valid() && ag.fl.queue != []
    modifies ag.cnt`store, ag.cnt`lv, ag.cnt`root, ag.cnt`nlevels, ag.cnt`longest
    modifies ag.bno`store, ag.bno`lv, ag.bno`root, ag.bno`nlevels, ag.bno`longest
    modifies ag.fl, ag.fl.slots, ag`freeblks
    ensures ok ==> Same(ag, old(ag.Blocks()), old(Total(ag))) && ag.freeblks == old(ag.freeblks) + 1
    ensures old(|ag.fl.queue|) > (old(ag.bno.nlevels) + 1) + (old(ag.cnt.nlevels) + 1)
            && old(|ag.fl.queue| + 2 * ag.cnt.nlevels + ag.bno.nlevels) <= ag.fl.slots.Length
            ==> ok
  {
    hide Pair, Placed, Reserve, Blocks, Free;
    ghost var free, res := Free(ag.Extents()), Reserve(ag.cnt, ag.bno);
    QueueBlock(ag, ag.fl.queue[0]);
    var bno := GetFree(ag);
    Moved(free, res, bno);
    ok := FreeAgExtent(ag, Rec(bno, 1));
  }

  lemma TotalBound(ag: Ag)
    requires ag.Valid()
    ensures ag.freeblks <= Total(ag) && ag.fl.flcount == |ag.fl.queue| && ag.fl.btreeblks >= 0
  {
    FreelistFacts(ag.cnt);
    FreelistFacts(ag.bno);
    assert |ag.cnt.store.Keys - {ag.cnt.root}| == |ag.cnt.store.Keys| - 1;
    assert |ag.bno.store.Keys - {ag.bno.root}| == |ag.bno.store.Keys| - 1;
  }

  /** Nothing of the group has changed. */
  twostate predicate Untouched(ag: Ag)
    reads ag, ag.cnt, ag.bno, ag.fl, ag.fl.slots
  {
    unchanged(ag) && unchanged(ag.cnt) && unchanged(ag.bno) && unchanged(ag.fl) && unchanged(ag.fl.slots)
  }

  /** Make the freelist shorter if it is too long. */
  method Shrink(ag: Ag, need: nat) returns (ok: bool)
    requires ag.Valid()
    modifies ag.cnt`store, ag.cnt`lv, ag.cnt`root, ag.cnt`nlevels, ag.cnt`longest
    modifies ag.bno`store, ag.bno`lv, ag.bno`root, ag.bno`nlevels, ag.bno`longest
    modifies ag.fl, ag.fl.slots, ag`freeblks
    ensures ok ==> Same(ag, old(ag.Blocks()), old(Total(ag))) && |ag.fl.queue| <= need && ag.freeblks >= old(ag.freeblks)
    ensures old(|ag.fl.queue|) <= need ==> ok && Untouched(ag)
  {
    hide Pair, Placed, Reserve, Blocks, Free;
    ghost var blocks, total := ag.Blocks(), Total(ag);
    TotalBound(ag);
    ok := true;
    while ag.fl.flcount > need
      invariant Same(ag, blocks, total) && ag.fl.flcount == |ag.fl.queue|
      invariant old(ag.freeblks) <= ag.freeblks <= total
      invariant old(|ag.fl.queue|) <= need ==> Untouched(ag)
      decreases total - ag.freeblks
    {
      ok := ShrinkOne(ag);
      if !ok {
        return;
      }
      TotalBound(ag);
    }
    ok := true;
  }

  lemma ReservePut(t: Btree, o: Btree, queue: seq<Ptr>, b: Ptr)
    requires t.fl.queue == queue + [b]
    ensures Reserve(t, o) == t.store.Keys + o.store.Keys + Elems(queue) + {b}
  {
  }

  lemma ReserveIs(t: Btree, o: Btree)
    ensures Reserve(t, o) == t.store.Keys + o.store.Keys + Elems(t.fl.queue)
  {
  }

  /** A block that is nowhere in a group. */
  lemma Nowhere(ag: Ag, b: Ptr)
    requires ag.Valid() && b < ag.length && b !in ag.Blocks()
    ensures b != NULLAGBLOCK && b !in ag.fl.queue && b !in ag.cnt.store && b !in ag.bno.store
    ensures b !in Free(ag.Extents()) + Reserve(ag.cnt, ag.bno)
    ensures ag.Formed() && ag.fl.Valid() && Placed(ag.Extents(), Reserve(ag.cnt, ag.bno), ag.length)
    ensures Held(ag.cnt) == Held(ag.bno) == ag.Extents() && ag.freeblks == |Free(ag.Extents())|
    ensures ag.fl.flcount == |ag.fl.queue| && ag.cnt.fl == ag.bno.fl == ag.fl
    ensures ag.Blocks() == Free(ag.Extents()) + Reserve(ag.cnt, ag.bno)
  {
    hide Good, Free;
    FreelistValid(ag);
  }

  lemma PlacedMore(s: set<Rec>, res: set<nat>, b: nat, length: nat)
    requires Placed(s, res, length) && b < length && b !in Free(s) + res
    ensures Placed(s, res + {b}, length)
  {
    forall x | x in Free(s) + (res + {b}) ensures x < length {
      assert x == b || x in Free(s) + res;
    }
  }

  /** Put a block that no tree has at the end of the freelist. */
  method AppendFree(ag: Ag, b: Ptr)
    requires ag.Formed() && ag.fl.Valid() && ag.fl.flcount < ag.fl.slots.Length
    requires b != NULLAGBLOCK && b !in ag.fl.queue && b !in ag.cnt.store && b !in ag.bno.store
    modifies ag.fl, ag.fl.slots
    ensures ag.Formed() && ag.fl.queue == old(ag.fl.queue) + [b] && ag.fl.btreeblks == old(ag.fl.btreeblks)
  {
    hide Pair;
    ag.fl.Put(b, false);
    StillFormed(ag);
  }

  /** Put a block that is nowhere in the group on its freelist. */
  method PutFree(ag: Ag, b: Ptr) returns (ok: bool)
    requires ag.Valid() && b < ag.length && b !in ag.Blocks()
    modifies ag.fl, ag.fl.slots
    ensures ok == old(|ag.fl.queue| < ag.fl.slots.Length)
    ensures ok ==> Same(ag, old(ag.Blocks()) + {b}, old(Total(ag)) + 1) && |ag.fl.queue| == old(|ag.fl.queue|) + 1
  {
    hide Pair, Free, Placed, Reserve, Elems, Held, Ag.Formed, Ag.Sound, Ag.Valid, Ag.Holds, Ag.Blocks;
    Nowhere(ag, b);
    ghost var queue, s, res := ag.fl.queue, ag.Extents(), Reserve(ag.cnt, ag.bno);
    ReserveIs(ag.cnt, ag.bno);
    ok := ag.fl.flcount < ag.fl.slots.Length;
    if !ok {
      return;
    }
    PlacedMore(s, res, b, ag.length);
    AppendFree(ag, b);
    ReservePut(ag.cnt, ag.bno, queue, b);
    SameMore(ag, s, res, b);
  }

  lemma SameMore(ag: Ag, s: set<Rec>, res: set<nat>, b: nat)
    requires ag.Formed() && Held(ag.cnt) == Held(ag.bno) == s && Reserve(ag.cnt, ag.bno) == res + {b}
    requires Placed(s, res + {b}, ag.length) && ag.freeblks == |Free(s)|
    ensures ag.Valid() && ag.Blocks() == Free(s) + res + {b}
  {
    hide Pair, Free, Placed, Reserve, Held;
  }

  /** Put each block of an extent that has gone from the group on its freelist. */
  method PutAll(ag: Ag, r: Rec, ghost blocks: set<nat>, ghost total: int) returns (ok: bool)
    requires Gone(ag, blocks, total, r) && r.start + r.count <= ag.length
    modifies ag.fl, ag.fl.slots
    ensures ok == (old(|ag.fl.queue|) + r.count <= ag.fl.slots.Length)
    ensures ok ==> Same(ag, blocks, total) && |ag.fl.queue| == old(|ag.fl.queue|) + r.count
  {
    hide Pair, Placed, Reserve, Free, Blocks, Ag.Blocks, Ag.Sound;
    ghost var before, n := ag.Blocks(), |ag.fl.queue|;
    var i := 0;
    ok := true;
    NoBlocks(before, r);
    FreelistRoom(ag);
    while i < r.count
      invariant i <= r.count && n + i <= ag.fl.slots.Length
      invariant Same(ag, before + Blocks(Rec(r.start, i)), total - r.count + i)
      invariant |ag.fl.queue| == n + i
    {
      NextBlockOf(before, r, i);
      ok := PutFree(ag, r.start + i);
      if !ok {
        return;
      }
      i := i + 1;
    }
  }

  lemma FreelistRoom(ag: Ag)
    requires ag.Valid()
    ensures |ag.fl.queue| <= ag.fl.slots.Length
  {
  }

  lemma NoBlocks(blocks: set<nat>, r: Rec)
    ensures blocks + Blocks(Rec(r.start, 0)) == blocks
  {
    BlocksSize(Rec(r.start, 0));
  }

  lemma NextBlockOf(blocks: set<nat>, r: Rec, i: nat)
    requires i < r.count && Blocks(r) !! blocks
    ensures blocks + Blocks(Rec(r.start, i + 1)) == blocks + Blocks(Rec(r.start, i)) + {r.start + i}
    ensures r.start + i !in blocks + Blocks(Rec(r.start, i))
  {
    BlocksJoin(Rec(r.start, i), Rec(r.start + i, 1));
    BlocksJoin(Rec(r.start, i + 1), Rec(r.start + i + 1, r.count - i - 1));
    ServedGone({}, {r.start + i}, r.start + i);
  }

  lemma NoneLeft(s: set<Rec>)
    requires Apart(s) && NoRoom(s, 1, 1)
    ensures s == {}
  {
    forall f | f in s ensures false {
      assert FitsAt(f, 1, f.start, 1);
    }
  }

  lemma BlocksInside(ag: Ag)
    requires ag.Valid()
    ensures forall b :: b in ag.Blocks() ==> b < ag.length
    ensures Apart(ag.Extents())
  {
    hide Pair;
    assert ag.Blocks() == Free(ag.Extents()) + Reserve(ag.cnt, ag.bno);
  }

  lemma InsideLength(r: Rec, blocks: set<nat>, length: nat)
    requires Blocks(r) <= blocks && r.count > 0 && forall b :: b in blocks ==> b < length
    ensures r.start + r.count <= length
  {
    assert Covers(r, r.start + r.count - 1) && r.start + r.count - 1 in Blocks(r);
  }

  method GrowRequest(want: nat) returns (targs: Args)
    requires 0 < want <= 0x8000_0000
    ensures fresh(targs) && targs.Proper() && targs.Small() && targs.kind == ThisAg && targs.isfl
    ensures targs.Asked() == Ask(1, want, 1, 0, 1, 0) && targs.agbno == 0
  {
    targs := new Args();
    targs.mod, targs.minleft, targs.minalignslop := 0, 0, 0;
    targs.alignment, targs.minlen, targs.prod, targs.isfl := 1, 1, 1, true;
    targs.kind, targs.agbno, targs.maxlen := ThisAg, 0, want;
  }

  lemma ChosenLong(s: set<Rec>, want: nat, have: int, bno: nat, r: Rec)
    requires want > 0 && have >= 0 && Chosen(s, ThisAg, Ask(1, want, 1, 0, 1, 0), have, bno, r)
    ensures NoBetter(s, 1, want, r.count)
  {
    hide Picked, NoBetter;
  }

  /** Allocate as many blocks as possible at once, up to want, for the freelist; got is false if there are none. */
  method GrowOnce(ag: Ag, want: nat) returns (ok: bool, got: bool)
    requires ag.Valid() && 0 < want <= 0x8000_0000
    modifies ag.cnt`store, ag.cnt`lv, ag.cnt`root, ag.cnt`nlevels, ag.cnt`longest
    modifies ag.bno`store, ag.bno`lv, ag.bno`root, ag.bno`nlevels, ag.bno`longest
    modifies ag.fl, ag.fl.slots, ag`freeblks
    ensures ok ==> Same(ag, old(ag.Blocks()), old(Total(ag)))
    ensures ok ==> if got then ag.freeblks < old(ag.freeblks) else ag.freeblks == old(ag.freeblks)
    ensures ok && !got ==> ag.Extents() == {} && ag.fl.queue == old(ag.fl.queue)
    ensures ok && got ==>
              && NoBetter(old(ag.Extents()), 1, want, old(ag.freeblks) - ag.freeblks)
              && |ag.fl.queue| <= old(|ag.fl.queue|) + want + ag.cnt.nlevels + ag.bno.nlevels + 2
  {
    hide Pair, Placed, Reserve, Free, Blocks, NoRoom, Held, Apart, NoBetter, Multiple, Gone, Chosen;
    ghost var blocks, total, s, have := ag.Blocks(), Total(ag), ag.Extents(), ag.freeblks + ag.fl.flcount;
    var targs := GrowRequest(want);
    BlocksInside(ag);
    ok := AgVextent(ag, targs);
    got := ok && targs.agbno != NULLAGBLOCK;
    if !got {
      if ok {
        NoneLeft(ag.Extents());
      }
      return;
    }
    ChosenLong(s, want, have, 0, Rec(targs.agbno, targs.len));
    InsideLength(Rec(targs.agbno, targs.len), blocks, ag.length);
    ok := PutAll(ag, Rec(targs.agbno, targs.len), blocks, total);
  }

  /** Make the freelist longer if it is too short; got is false if there are no free blocks left for that. */
  method Grow(ag: Ag, need: nat) returns (ok: bool, got: bool)
    requires ag.Valid() && need <= 64
    modifies ag.cnt`store, ag.cnt`lv, ag.cnt`root, ag.cnt`nlevels, ag.cnt`longest
    modifies ag.bno`store, ag.bno`lv, ag.bno`root, ag.bno`nlevels, ag.bno`longest
    modifies ag.fl, ag.fl.slots, ag`freeblks
    ensures ok ==> Same(ag, old(ag.Blocks()), old(Total(ag))) && ag.freeblks <= old(ag.freeblks)
    ensures ok ==> if got then |ag.fl.queue| >= need else ag.Extents() == {} && |ag.fl.queue| < need
    ensures ok && old(|ag.fl.queue|) <= need ==> |ag.fl.queue| <= need + ag.cnt.nlevels + ag.bno.nlevels + 2
    ensures old(|ag.fl.queue|) >= need ==> ok && got && Untouched(ag)
  {
    hide Pair, Placed, Reserve, Blocks, Free;
    ghost var blocks, total := ag.Blocks(), Total(ag);
    TotalBound(ag);
    while ag.fl.flcount < need
      invariant Same(ag, blocks, total) && ag.fl.flcount == |ag.fl.queue|
      invariant ag.freeblks <= old(ag.freeblks)
      invariant old(|ag.fl.queue|) >= need ==> Untouched(ag)
      invariant old(|ag.fl.queue|) <= need ==> |ag.fl.queue| <= need + ag.cnt.nlevels + ag.bno.nlevels + 2
      decreases ag.freeblks
    {
      ok, got := GrowOnce(ag, need - ag.fl.flcount);
      if !ok || !got {
        return;
      }
      TotalBound(ag);
    }
    ok, got := true, true;
  }

  /** Whether the group looks as if it could meet the request and keep a proper freelist. */
  predicate Promising(ag: Ag, args: Args, need: nat)
    reads ag, ag.cnt, ag.fl, args
  {
    Hopeful(ag, args.minlen, args.alignment, args.minalignslop, args.total, args.minleft, need)
  }

  /** So it looks with the least length of its freelist. */
  predicate Likely(ag: Ag, args: Args)
    reads ag, ag.cnt, ag.bno, ag.fl, args
  {
    Promising(ag, args, MinFreelist(ag.bno.nlevels, ag.cnt.nlevels, ag.maxlevels))
  }

  /** So it looks when nothing has to be left. */
  predicate Looks(ag: Ag, args: Args)
    reads ag, ag.cnt, ag.bno, ag.fl, args
  {
    Hopeful(ag, args.minlen, args.alignment, args.minalignslop, args.total, 0,
        MinFreelist(ag.bno.nlevels, ag.cnt.nlevels, ag.maxlevels))
  }

  /** No place in the group, or not the one asked for, has minlen blocks, or they would not leave enough. */
  ghost predicate Exhausted(ag: Ag, kind: AllocType, bno: nat, minlen: nat, alignment: nat, minleft: nat)
    reads ag`freeblks, ag.bno`lv, ag.fl`flcount
  {
    || (minleft > 0 && ag.freeblks + ag.fl.flcount < minlen + minleft)
    || if kind == ThisBno then !(Blocks(Rec(bno, minlen)) <= Free(ag.Extents()))
       else alignment > 0 && NoRoom(ag.Extents(), alignment, minlen)
  }

  /** What the test of a group looks at in the request does not wrap round. */
  predicate Tame(args: Args)
    reads args
  {
    Modest(args.minlen, args.alignment, args.minalignslop, args.total, args.minleft)
  }

  lemma RoomyTotal(ag: Ag, minlen: nat, alignment: nat, slop: nat, total: nat, minleft: nat)
    requires ag.Valid()
    ensures Roomy(ag, minlen, alignment, slop, total, minleft) ==>
              Total(ag) >= MinFreelist(ag.bno.nlevels, ag.cnt.nlevels, ag.maxlevels)
  {
    hide Ag.Valid;
    TotalBound(ag);
  }

  /** There are free extents, or the freelist may not serve the request. */
  ghost predicate Unserved(ag: Ag, args: Args)
    reads ag.bno`lv, ag.fl`flcount, args
  {
    args.kind == ThisBno || ag.Extents() != {} || !FromFreelist(args, ag.fl.flcount)
  }

  /**
   * Decide whether to use this group for an allocation, and give its freelist the proper length. The group's header is
   * busy if it is locked and the caller would not wait.
   */
  method FixFreelist(ag: Ag, args: Args, freeing: bool, busy: bool) returns (ok: bool, fit: bool)
    requires ag.Valid() && (freeing ==> !busy)
    modifies ag.cnt`store, ag.cnt`lv, ag.cnt`root, ag.cnt`nlevels, ag.cnt`longest
    modifies ag.bno`store, ag.bno`lv, ag.bno`root, ag.bno`nlevels, ag.bno`longest
    modifies ag.fl, ag.fl.slots, ag`freeblks
    ensures ok ==> Same(ag, old(ag.Blocks()), old(Total(ag)))
    ensures ok && fit ==> |ag.fl.queue| >= MinFreelist(old(ag.bno.nlevels), old(ag.cnt.nlevels), ag.maxlevels)
                          || (freeing && ag.Extents() == {})
    ensures ok && (fit || freeing) ==>
              |ag.fl.queue| <= MinFreelist(old(ag.bno.nlevels), old(ag.cnt.nlevels), ag.maxlevels)
                               + ag.cnt.nlevels + ag.bno.nlevels + 2
    ensures ok && freeing ==> fit
    ensures old(|ag.fl.queue| == MinFreelist(ag.bno.nlevels, ag.cnt.nlevels, ag.maxlevels)) ==> ok && Untouched(ag)
    ensures ok && !busy && !fit && old(Likely(ag, args)) ==> ag.Extents() == {}
    ensures ok && !busy && !freeing && old(!Likely(ag, args)) ==> !fit
    ensures ok && !busy && !freeing && Tame(args) ==>
              (fit <==> old(Roomy(ag, args.minlen, args.alignment, args.minalignslop, args.total, args.minleft)))
  {
    hide Pair, Placed, Reserve, Blocks, Free, Hopeful, Roomy, Ag.Extents, Ag.Blocks;
    ghost var total := Total(ag);
    if Tame(args) {
      HopefulIs(ag, args.minlen, args.alignment, args.minalignslop, args.total, args.minleft);
      RoomyTotal(ag, args.minlen, args.alignment, args.minalignslop, args.total, args.minleft);
    }
    var need := MinFreelist(ag.bno.nlevels, ag.cnt.nlevels, ag.maxlevels);
    if busy || (!freeing && !Promising(ag, args, need)) {
      return true, false;
    }
    ok := Shrink(ag, need);
    fit := ok;
    if ok {
      ok, fit := Grow(ag, need);
      if ok && !fit {
        OnlyFreelist(ag);
        assert Total(ag) == |ag.fl.queue| < need;
      }
      if freeing {
        fit := true;
      }
    }
  }

  lemma NoneNoRoom(kind: AllocType, bno: nat, minlen: nat, alignment: nat)
    requires alignment > 0 && minlen > 0
    ensures if kind == ThisBno then !(Blocks(Rec(bno, minlen)) <= Free({})) else NoRoom({}, alignment, minlen)
  {
    assert Covers(Rec(bno, minlen), bno) && bno in Blocks(Rec(bno, minlen));
  }

  /** With the blocks of r put back, they are what the request gets of the group. */
  ghost predicate BestChoice(ag: Ag, kind: AllocType, a: Ask, have: int, bno: nat, r: Rec)
    reads ag.bno`lv
  {
    forall s :: Apart(s) && Free(s) == Free(ag.Extents()) + Blocks(r) ==> Chosen(s, kind, a, have, bno, r)
  }

  lemma BestThere(ag: Ag, kind: AllocType, a: Ask, have: int, bno: nat, r: Rec, s: set<Rec>)
    requires Apart(s) && Free(s) == Free(ag.Extents()) + Blocks(r) && Chosen(s, kind, a, have, bno, r)
    ensures BestChoice(ag, kind, a, have, bno, r)
  {
    hide Apart, Blocks, Free, Chosen;
    forall t | Apart(t) && Free(t) == Free(ag.Extents()) + Blocks(r) ensures t == s {
      Canonical(t, s);
    }
  }

  /** A block off the freelist is all that there is. */
  lemma ServedThere(ag: Ag, kind: AllocType, a: Ask, have: int, bno: nat, b: nat)
    requires ag.Extents() == {} && kind != ThisBno && a.Proper() && a.minlen == 1 && a.alignment == 1 && have > a.minleft
    ensures BestChoice(ag, kind, a, have, bno, Rec(b, 1))
  {
    var r := Rec(b, 1);
    ServedBest(a, have, bno, b);
    assert Free({}) == {};
    assert forall x :: x in Free({r}) <==> Covers(r, x);
    assert Free({r}) == Blocks(r);
    BestThere(ag, kind, a, have, bno, r, {r});
  }

  lemma ServedBest(a: Ask, have: int, bno: nat, b: nat)
    requires a.Proper() && a.minlen == 1 && a.alignment == 1 && have > a.minleft
    ensures BestIn({Rec(b, 1)}, a, have, Rec(b, 1))
    ensures NearIn({Rec(b, 1)}, Want(bno, a.minlen, a.maxlen, a.alignment), a, have, Rec(b, 1))
  {
    var r, s := Rec(b, 1), {Rec(b, 1)};
    LenFixedRange(1, a.minlen, a.maxlen, a.mod, a.prod);
    hide LenFixed;
    assert Yields(a, 1, have) == 1 && Usable(r, a.maxlen, 1, 1) == r;
    assert Settles(s, a.maxlen, 1, 1, r) && PickedOf(s, a, have, r, r);
    IsNear(s, Want(bno, a.minlen, a.maxlen, a.alignment), a, have, r, 1, b, 1);
  }

  /** The freelist has just the least length, the trees may still grow, and there are slots for the blocks they may give up. */
  ghost predicate Trim(ag: Ag)
    reads ag.cnt`nlevels, ag.bno`nlevels, ag.fl
  {
    && |ag.fl.queue| == MinFreelist(ag.bno.nlevels, ag.cnt.nlevels, ag.maxlevels)
    && ag.bno.nlevels < ag.maxlevels && ag.cnt.nlevels < ag.maxlevels
    && |ag.fl.queue| + 2 * ag.cnt.nlevels + ag.bno.nlevels <= ag.fl.slots.Length
  }

  /** Allocate in a group whose freelist has been seen to. */
  method AllocFixed(ag: Ag, args: Args, ghost blocks: set<nat>, ghost total: int) returns (ok: bool)
    requires Same(ag, blocks, total) && args.Proper() && args.Small() && (args.kind == ThisBno ==> args.alignment == 1)
    modifies ag.cnt`store, ag.cnt`lv, ag.cnt`root, ag.cnt`nlevels, ag.cnt`longest
    modifies ag.bno`store, ag.bno`lv, ag.bno`root, ag.bno`nlevels, ag.bno`longest
    modifies ag.fl, ag.fl.slots, ag`freeblks, args`len, args`agbno, args`wasfromfl
    ensures ok && args.agbno == NULLAGBLOCK ==> Same(ag, blocks, total)
    ensures ok && args.agbno == NULLAGBLOCK ==>
              Exhausted(ag, args.kind, old(args.agbno), args.minlen, args.alignment, args.minleft) && Unserved(ag, args)
    ensures ok && args.agbno != NULLAGBLOCK ==> args.minlen <= args.len <= args.maxlen && Multiple(args.agbno, args.alignment)
    ensures ok && args.agbno != NULLAGBLOCK ==> Gone(ag, blocks, total, Rec(args.agbno, args.len))
    ensures ok && args.agbno != NULLAGBLOCK && args.kind == ThisBno ==> args.agbno == old(args.agbno)
    ensures ok && args.agbno != NULLAGBLOCK ==>
              BestChoice(ag, args.kind, args.Asked(), old(ag.freeblks + ag.fl.flcount), old(args.agbno),
                  Rec(args.agbno, args.len))
    ensures old(Ready(ag, args, Draw(ag, args))) ==> ok
  {
    hide Pair, Placed, Reserve, Blocks, Free, Multiple, NoRoom, Chosen, Gone, BestChoice, Apart;
    ghost var s, have, bno := ag.Extents(), ag.freeblks + ag.fl.flcount, args.agbno;
    BlocksInside(ag);
    ok := AgVextent(ag, args);
    if ok && args.agbno != NULLAGBLOCK {
      if args.wasfromfl {
        ServedThere(ag, args.kind, args.Asked(), have, bno, args.agbno);
      } else {
        BestThere(ag, args.kind, args.Asked(), have, bno, Rec(args.agbno, args.len), s);
      }
    }
  }

  /**
   * Allocate in one group: the request is for any place in it, or near or at the block bno. When the blocks are chosen,
   * the group has so many in all.
   */
  method AllocExtent(ag: Ag, args: Args, bno: nat) returns (ok: bool, ghost have: int)
    requires ag.Valid() && args.Proper() && args.Small() && (args.kind == ThisBno ==> args.alignment == 1)
    modifies ag.cnt`store, ag.cnt`lv, ag.cnt`root, ag.cnt`nlevels, ag.cnt`longest
    modifies ag.bno`store, ag.bno`lv, ag.bno`root, ag.bno`nlevels, ag.bno`longest
    modifies ag.fl, ag.fl.slots, ag`freeblks, args`len, args`agbno, args`wasfromfl, args`minleft
    ensures args.minleft == old(args.minleft)
    ensures ok && args.agbno == NULLAGBLOCK ==> Same(ag, old(ag.Blocks()), old(Total(ag)))
    ensures ok && args.agbno == NULLAGBLOCK && old(Looks(ag, args)) ==>
              Exhausted(ag, args.kind, bno, args.minlen, args.alignment, args.minleft)
    ensures ok && Modest(args.minlen, args.alignment, args.minalignslop, args.total, 0) ==>
              if old(Roomy(ag, args.minlen, args.alignment, args.minalignslop, args.total, 0)) then
                args.agbno == NULLAGBLOCK ==>
                  Exhausted(ag, args.kind, bno, args.minlen, args.alignment, args.minleft) && Unserved(ag, args)
              else
                args.agbno == NULLAGBLOCK
    ensures ok && args.agbno != NULLAGBLOCK ==> args.minlen <= args.len <= args.maxlen && Multiple(args.agbno, args.alignment)
    ensures ok && args.agbno != NULLAGBLOCK ==> Gone(ag, old(ag.Blocks()), old(Total(ag)), Rec(args.agbno, args.len))
    ensures ok && args.agbno != NULLAGBLOCK && args.kind == ThisBno ==> args.agbno == bno
    ensures ok && args.agbno != NULLAGBLOCK ==>
              BestChoice(ag, args.kind, args.Asked(), have, bno, Rec(args.agbno, args.len))
    ensures ok ==> have <= old(Total(ag)) && (old(Trim(ag)) ==> have == old(ag.freeblks + ag.fl.flcount))
    ensures old(Trim(ag)) && args.kind == ThisAg && args.alignment == 1 && args.minleft <= old(ag.freeblks + ag.fl.flcount) ==> ok
  {
    hide Pair, Placed, Reserve, Blocks, Free, Multiple, NoRoom, Gone, BestChoice, Roomy, Hopeful;
    NoneNoRoom(args.kind, bno, args.minlen, args.alignment);
    ghost var blocks, total := ag.Blocks(), Total(ag);
    var minleft := args.minleft;
    args.agbno, args.minleft := NULLAGBLOCK, 0;
    var fit;
    ok, fit := FixFreelist(ag, args, false, false);
    args.minleft := minleft;
    have := ag.freeblks + ag.fl.flcount;
    if ok {
      TotalBound(ag);
    }
    if ok && fit {
      args.agbno := bno;
      ok := AllocFixed(ag, args, blocks, total);
    }
  }

  /** Give back an extent that is in use. */
  method FreeExtent(ag: Ag, r: Rec) returns (ok: bool)
    requires ag.Valid() && r.count > 0 && r.start + r.count <= ag.length && Blocks(r) !! ag.Blocks()
    modifies ag.cnt`store, ag.cnt`lv, ag.cnt`root, ag.cnt`nlevels, ag.cnt`longest
    modifies ag.bno`store, ag.bno`lv, ag.bno`root, ag.bno`nlevels, ag.bno`longest
    modifies ag.fl, ag.fl.slots, ag`freeblks
    ensures ok ==> Come(ag, old(ag.Blocks()), old(Total(ag)), r)
    ensures old(Trim(ag)) ==> ok
  {
    hide Pair, Placed, Reserve, Blocks, Free;
    var args := new Args();
    var fit;
    ok, fit := FixFreelist(ag, args, true, false);
    if ok {
      assert fit;
      ok := FreeAgExtent(ag, r);
    }
  }

  /** What the users of a group may do: ask for an extent, or give one back. */
  datatype Op = Take(kind: AllocType, bno: nat, minlen: nat, maxlen: nat, alignment: nat, slop: nat, mod: nat, prod: nat,
                     minleft: nat, total: nat)
              | Give(r: Rec)

  /** What the allocator asserts of a request; its fields are 32 bits wide. */
  predicate Asks(op: Op) {
    && op.Take? && 0 < op.minlen <= op.maxlen && op.mod < op.prod && op.alignment > 0
    && op.maxlen < U32 && op.minleft < U32 && (op.kind == ThisBno ==> op.alignment == 1)
  }

  /** An extent that answers a request. */
  ghost predicate Meets(op: Op, r: Rec) {
    && Asks(op) && op.minlen <= r.count <= op.maxlen && Multiple(r.start, op.alignment)
    && (op.kind == ThisBno ==> r.start == op.bno)
  }

  /** The group looks as if it could meet a request. */
  predicate Welcome(ag: Ag, op: Op)
    reads ag`freeblks, ag.cnt`longest, ag.cnt`nlevels, ag.bno`nlevels, ag.fl`flcount
  {
    && Asks(op)
    && Hopeful(ag, op.minlen, op.alignment, op.slop, op.total, 0,
        MinFreelist(ag.bno.nlevels, ag.cnt.nlevels, ag.maxlevels))
  }

  /** It cannot. */
  ghost predicate Denied(ag: Ag, op: Op)
    reads ag`freeblks, ag.bno`lv, ag.fl`flcount
  {
    Asks(op) && Exhausted(ag, op.kind, op.bno, op.minlen, op.alignment, op.minleft)
  }

  /** The group has room for the request, or has not; the numbers do not wrap round. */
  ghost predicate HasRoom(ag: Ag, op: Op, has: bool)
    reads ag`freeblks, ag.bno`lv, ag.bno`nlevels, ag.cnt`nlevels, ag.fl
  {
    && Asks(op) && Modest(op.minlen, op.alignment, op.slop, op.total, 0)
    && Roomy(ag, op.minlen, op.alignment, op.slop, op.total, 0) == has
  }

  /** The blocks are what the request gets of the group when it has so many in all. */
  ghost predicate Best(ag: Ag, op: Op, have: int, r: Rec)
    reads ag.bno`lv
  {
    op.Take? && BestChoice(ag, op.kind, Ask(op.minlen, op.maxlen, op.alignment, op.mod, op.prod, op.minleft), have, op.bno, r)
  }

  /** What an operation may do to the blocks in use, when blocks are free in the group. */
  ghost predicate Moves(op: Op, used0: set<nat>, blocks: set<nat>, used: set<nat>) {
    match op
    case Give(r) => used == if r.count > 0 && Blocks(r) <= used0 then used0 - Blocks(r) else used0
    case Take(_, _, _, _, _, _, _, _, _, _) =>
      used == used0 || exists r :: Meets(op, r) && Blocks(r) <= blocks && used == used0 + Blocks(r)
  }

  /** An operation that a freelist of the least length suffices for: all but allocations that may leave two extents behind. */
  predicate Easy(ag: Ag, op: Op)
    reads ag`freeblks, ag.fl`flcount
  {
    op.Take? ==> op.kind == ThisAg && op.alignment == 1 && op.minleft <= ag.freeblks + ag.fl.flcount
  }

  method Request(op: Op) returns (args: Args)
    requires Asks(op)
    ensures fresh(args) && args.Proper() && args.Small()
    ensures args.kind == op.kind && args.minlen == op.minlen && args.maxlen == op.maxlen && args.alignment == op.alignment
    ensures args.mod == op.mod && args.prod == op.prod && args.minleft == op.minleft && args.total == op.total
    ensures args.minalignslop == op.slop && !args.isfl
  {
    args := new Args();
    args.kind, args.minlen, args.maxlen, args.alignment := op.kind, op.minlen, op.maxlen, op.alignment;
    args.mod, args.prod, args.minleft, args.total, args.isfl := op.mod, op.prod, op.minleft, op.total, false;
    args.minalignslop := op.slop;
  }

  /** Set up the request and allocate. */
  method DoTake(ag: Ag, op: Op) returns (ok: bool, r: Rec, ghost have: int)
    requires ag.Valid() && op.Take?
    modifies ag.cnt`store, ag.cnt`lv, ag.cnt`root, ag.cnt`nlevels, ag.cnt`longest
    modifies ag.bno`store, ag.bno`lv, ag.bno`root, ag.bno`nlevels, ag.bno`longest
    modifies ag.fl, ag.fl.slots, ag`freeblks
    ensures ok ==> if r.count == 0 then Same(ag, old(ag.Blocks()), old(Total(ag)))
              else Gone(ag, old(ag.Blocks()), old(Total(ag)), r)
    ensures ok && r.count > 0 ==> Meets(op, r) && Best(ag, op, have, r) && !old(HasRoom(ag, op, false))
    ensures ok && r.count == 0 && old(Welcome(ag, op) || HasRoom(ag, op, true)) ==> Denied(ag, op)
    ensures old(Trim(ag) && Easy(ag, op)) ==> ok
  {
    hide Pair, Placed, Reserve, Free, Blocks, Gone, Multiple, Exhausted, BestChoice, Hopeful, Roomy, Ag.Valid, Ag.Sound,
      Ag.Formed, Ag.Holds, Ag.Blocks;
    r, have := Rec(0, 0), 0;
    ok := true;
    if Asks(op) {
      var args := Request(op);
      ok, have := AllocExtent(ag, args, op.bno);
      if ok && args.agbno != NULLAGBLOCK {
        r := Rec(args.agbno, args.len);
      }
    }
  }

  /** Every block the users have is in the group, and none of them is free. */
  ghost predicate InUse(ag: Ag, used: set<nat>)
    reads ag, ag.cnt, ag.bno, ag.cnt.fl, ag.cnt.fl.slots, ag.bno.fl, ag.bno.fl.slots, ag.fl
  {
    ag.Valid() && used !! ag.Blocks() && forall b :: b in used ==> b < ag.length
  }

  lemma UseMore(used: set<nat>, blocks: set<nat>, r: Rec, length: nat)
    requires used !! blocks && Blocks(r) <= blocks && forall b :: b in used + blocks ==> b < length
    ensures used + Blocks(r) !! blocks - Blocks(r)
    ensures (used + Blocks(r)) + (blocks - Blocks(r)) == used + blocks
    ensures |used + Blocks(r)| == |used| + r.count
    ensures forall b :: b in used + Blocks(r) ==> b < length
  {
    BlocksSize(r);
    forall b | b in used + Blocks(r) ensures b < length {
      assert b in used + blocks;
    }
  }

  lemma UseLess(used: set<nat>, blocks: set<nat>, r: Rec, length: nat)
    requires used !! blocks && Blocks(r) <= used && r.count > 0 && forall b :: b in used ==> b < length
    ensures used - Blocks(r) !! blocks + Blocks(r) && Blocks(r) !! blocks
    ensures (used - Blocks(r)) + (blocks + Blocks(r)) == used + blocks
    ensures |used - Blocks(r)| == |used| - r.count
    ensures r.start + r.count <= length
  {
    BlocksSize(r);
    InsideLength(r, used, length);
  }

  lemma MovesNone(op: Op, used: set<nat>, blocks: set<nat>)
    requires op.Take?
    ensures Moves(op, used, blocks, used)
  {
  }

  lemma MovesMore(op: Op, used: set<nat>, blocks: set<nat>, r: Rec)
    requires op.Take? && Meets(op, r) && Blocks(r) <= blocks && used !! blocks
    ensures Moves(op, used, blocks, used + Blocks(r)) && used + Blocks(r) != used
  {
    hide Multiple;
    assert Covers(r, r.start) && r.start in Blocks(r);
  }

  lemma NoneIn(r: Rec)
    ensures r.count == 0 ==> Blocks(r) == {}
  {
  }

  /** Give out what a request asks for. */
  method StepTake(ag: Ag, op: Op, used0: set<nat>) returns (ok: bool, used: set<nat>, ghost got: Rec, ghost have: int)
    requires InUse(ag, used0) && op.Take?
    modifies ag.cnt`store, ag.cnt`lv, ag.cnt`root, ag.cnt`nlevels, ag.cnt`longest
    modifies ag.bno`store, ag.bno`lv, ag.bno`root, ag.bno`nlevels, ag.bno`longest
    modifies ag.fl, ag.fl.slots, ag`freeblks
    ensures ok ==> InUse(ag, used) && used + ag.Blocks() == used0 + old(ag.Blocks())
    ensures ok ==> Total(ag) + |used| == old(Total(ag)) + |used0|
    ensures ok ==> Moves(op, used0, old(ag.Blocks()), used)
    ensures ok ==> used == used0 + Blocks(got) && (got.count == 0 <==> used == used0)
    ensures ok && got.count > 0 ==> Meets(op, got) && Best(ag, op, have, got)
    ensures ok && got.count > 0 ==> !old(HasRoom(ag, op, false))
    ensures ok && got.count == 0 && old(Welcome(ag, op) || HasRoom(ag, op, true)) ==> Denied(ag, op)
    ensures old(Trim(ag) && Easy(ag, op)) ==> ok
  {
    hide Free, Meets, Moves, Denied, Welcome, Trim, Easy, Ag.Valid, Ag.Blocks, Blocks, HasRoom, Best;
    ghost var blocks := ag.Blocks();
    BlocksInside(ag);
    var r;
    ok, r, have := DoTake(ag, op);
    got := r;
    NoneIn(r);
    used := used0;
    if ok {
      if r.count > 0 {
        UseMore(used0, blocks, r, ag.length);
        MovesMore(op, used0, blocks, r);
        used := used0 + Blocks(r);
      } else {
        MovesNone(op, used0, blocks);
      }
    }
  }

  /** Take back an extent, if it is in use. */
  method StepGive(ag: Ag, op: Op, used0: set<nat>) returns (ok: bool, used: set<nat>)
    requires InUse(ag, used0) && op.Give?
    modifies ag.cnt`store, ag.cnt`lv, ag.cnt`root, ag.cnt`nlevels, ag.cnt`longest
    modifies ag.bno`store, ag.bno`lv, ag.bno`root, ag.bno`nlevels, ag.bno`longest
    modifies ag.fl, ag.fl.slots, ag`freeblks
    ensures ok ==> InUse(ag, used) && used + ag.Blocks() == used0 + old(ag.Blocks())
    ensures ok ==> Total(ag) + |used| == old(Total(ag)) + |used0|
    ensures ok ==> Moves(op, used0, old(ag.Blocks()), used)
    ensures old(Trim(ag)) ==> ok
  {
    hide Free, Trim, Ag.Valid, Ag.Blocks, Blocks;
    ghost var blocks := ag.Blocks();
    BlocksInside(ag);
    ok, used := true, used0;
    if op.r.count > 0 && Blocks(op.r) <= used0 {
      UseLess(used0, blocks, op.r, ag.length);
      ok := FreeExtent(ag, op.r);
      used := used0 - Blocks(op.r);
    }
  }

  /** One operation, if it is allowed: only blocks in use are given back. */
  method Step(ag: Ag, op: Op, used0: set<nat>) returns (ok: bool, used: set<nat>, ghost got: Rec, ghost have: int)
    requires InUse(ag, used0)
    modifies ag.cnt`store, ag.cnt`lv, ag.cnt`root, ag.cnt`nlevels, ag.cnt`longest
    modifies ag.bno`store, ag.bno`lv, ag.bno`root, ag.bno`nlevels, ag.bno`longest
    modifies ag.fl, ag.fl.slots, ag`freeblks
    ensures ok ==> InUse(ag, used) && used + ag.Blocks() == used0 + old(ag.Blocks())
    ensures ok ==> Total(ag) + |used| == old(Total(ag)) + |used0|
    ensures ok ==> Moves(op, used0, old(ag.Blocks()), used)
    ensures ok && op.Take? ==> used == used0 + Blocks(got) && (got.count == 0 <==> used == used0)
    ensures ok && op.Take? && got.count > 0 ==> Meets(op, got) && Best(ag, op, have, got)
    ensures ok && op.Take? && got.count > 0 ==> !old(HasRoom(ag, op, false))
    ensures ok && op.Take? && got.count == 0 && old(Welcome(ag, op) || HasRoom(ag, op, true)) ==> Denied(ag, op)
    ensures old(Trim(ag) && Easy(ag, op)) ==> ok
  {
    hide InUse, Moves, Meets, Denied, Welcome, Trim, Easy, Ag.Valid, Ag.Blocks, HasRoom, Best, Blocks;
    got, have := Rec(0, 0), 0;
    if op.Take? {
      ok, used, got, have := StepTake(ag, op, used0);
    } else {
      ok, used := StepGive(ag, op, used0);
    }
  }

  /** The blocks in use between operations: all that are not in use are free in the group, and each operation moves its own. */
  ghost predicate Trace(ops: seq<Op>, all: set<nat>, uses: seq<set<nat>>) {
    && |uses| == |ops| + 1
    && forall i :: 0 <= i < |ops| ==> Goes(ops, all, uses, i)
  }

  /** The i'th operation moves its own. */
  ghost predicate Goes(ops: seq<Op>, all: set<nat>, uses: seq<set<nat>>, i: int) {
    0 <= i < |ops| && |uses| > |ops| && Moves(ops[i], uses[i], all - uses[i], uses[i + 1])
  }

  lemma TraceMore(ops: seq<Op>, i: nat, all: set<nat>, uses: seq<set<nat>>, used: set<nat>)
    requires i < |ops| && Trace(ops[..i], all, uses) && Moves(ops[i], uses[i], all - uses[i], used)
    ensures Trace(ops[..i + 1], all, uses + [used])
  {
    hide Moves;
    var us, os := uses + [used], ops[..i + 1];
    forall k | 0 <= k < |os| ensures Goes(os, all, us, k) {
      assert k < i ==> Goes(ops[..i], all, uses, k);
    }
  }

  /**
   * Any run of allocations and frees: each operation takes or gives back just its own blocks, nothing is lost, and the
   * counters add up. The blocks in use are those the users were given and have not given back.
   */
  method Run(ag: Ag, ops: seq<Op>, used0: set<nat>) returns (ok: bool, used: set<nat>, ghost uses: seq<set<nat>>)
    requires InUse(ag, used0)
    modifies ag.cnt`store, ag.cnt`lv, ag.cnt`root, ag.cnt`nlevels, ag.cnt`longest
    modifies ag.bno`store, ag.bno`lv, ag.bno`root, ag.bno`nlevels, ag.bno`longest
    modifies ag.fl, ag.fl.slots, ag`freeblks
    ensures ok ==> InUse(ag, used) && used + ag.Blocks() == used0 + old(ag.Blocks())
    ensures ok ==> Total(ag) + |used| == old(Total(ag)) + |used0|
    ensures ok ==> Trace(ops, used0 + old(ag.Blocks()), uses) && uses[0] == used0 && uses[|ops|] == used
    ensures |ops| == 0 || (|ops| == 1 && old(Trim(ag) && Easy(ag, ops[0]))) ==> ok
  {
    hide Trace, Moves, Ag.Blocks, Ag.Valid, Trim, Easy;
    ghost var all := used0 + ag.Blocks();
    used, uses := used0, [used0];
    TraceNone(all, used0);
    assert ops[..0] == [];
    var i := 0;
    ok := true;
    while i < |ops|
      invariant 0 <= i <= |ops| && InUse(ag, used) && used + ag.Blocks() == all
      invariant Total(ag) + |used| == old(Total(ag)) + |used0|
      invariant ok && (i == 0 ==> unchanged(ag) && unchanged(ag.cnt) && unchanged(ag.bno) && unchanged(ag.fl))
      invariant |uses| == i + 1 && Trace(ops[..i], all, uses) && uses[0] == used0 && uses[i] == used
    {
      assert ag.Blocks() == all - used;
      ghost var was := used;
      ghost var got, have;
      ok, used, got, have := Step(ag, ops[i], used);
      if !ok {
        return;
      }
      TraceMore(ops, i, all, uses, used);
      uses := uses + [used];
      i := i + 1;
    }
    assert ops[..i] == ops;
  }

  lemma TraceNone(all: set<nat>, used: set<nat>)
    ensures Trace([], all, [used])
  {
  }

  /** A block that is in use at one moment of a run and not at a later one was given back in between. */
  lemma {:induction false} GivenBack(ops: seq<Op>, all: set<nat>, uses: seq<set<nat>>, i: nat, j: nat, b: nat)
    requires Trace(ops, all, uses) && i <= j <= |ops| && b in uses[i] && b !in uses[j]
    ensures exists k :: i <= k < j && ops[k].Give? && b in Blocks(ops[k].r)
    decreases j
  {
    hide Blocks, Meets;
    assert Goes(ops, all, uses, j - 1);
    if b !in uses[j - 1] {
      GivenBack(ops, all, uses, i, j - 1, b);
    } else {
      assert ops[j - 1].Give? && b in Blocks(ops[j - 1].r);
    }
  }

  /** A block that is not in use at one moment and is at a later one was given out in between, by a request it answers. */
  lemma {:induction false} GivenOut(ops: seq<Op>, all: set<nat>, uses: seq<set<nat>>, i: nat, j: nat, b: nat)
    requires Trace(ops, all, uses) && i <= j <= |ops| && b !in uses[i] && b in uses[j]
    ensures exists k, r :: i <= k < j && Meets(ops[k], r) && b in Blocks(r) && Blocks(r) !! uses[k]
    decreases j
  {
    hide Blocks, Meets;
    assert Goes(ops, all, uses, j - 1);
    if b in uses[j - 1] {
      GivenOut(ops, all, uses, i, j - 1, b);
    }
  }

  /** No block is given out twice unless it was given back in between. */
  lemma NeverTwice(ops: seq<Op>, all: set<nat>, uses: seq<set<nat>>, i: nat, j: nat, b: nat)
    requires Trace(ops, all, uses) && i < j < |ops|
    requires b in uses[i + 1] - uses[i] && b in uses[j + 1] - uses[j]
    ensures exists k :: i < k < j && ops[k].Give? && b in Blocks(ops[k].r)
  {
    hide Blocks, Moves;
    GivenBack(ops, all, uses, i + 1, j, b);
  }

  /**
   * What holds at any moment of a run: both trees hold the same extents, each in its order; these are neither empty
   * nor do they overlap or touch; the counters tell the sum of their lengths and the longest.
   */
  lemma Indexes(ag: Ag)
    requires ag.Valid()
    ensures Held(ag.cnt) == Held(ag.bno) == ag.Extents() && Apart(ag.Extents())
    ensures Sorted(Bno, ag.bno.Recs()) && Sorted(Cnt, ag.cnt.Recs()) && |ag.bno.Recs()| == |ag.cnt.Recs()|
    ensures ag.freeblks == SumOf(ag.bno.Recs()) == |Free(ag.Extents())|
    ensures forall f :: f in ag.Extents() ==> f.count <= ag.cnt.longest
    ensures ag.Extents() != {} ==> exists f :: f in ag.Extents() && f.count == ag.cnt.longest
    ensures ag.fl.btreeblks == |ag.cnt.store| + |ag.bno.store| - 2 && ag.fl.flcount == |ag.fl.queue|
  {
    var bs, cs := ag.bno.Recs(), ag.cnt.Recs();
    assert Elems(bs) == Elems(cs);
    SumIsSize(bs);
    SameLength(bs, cs);
    LastIsLongest(cs);
    if cs != [] {
      assert cs[|cs| - 1] in Elems(cs);
    }
  }

  ghost function SumOf(recs: seq<Rec>): nat {
    if recs == [] then 0 else recs[0].count + SumOf(recs[1..])
  }

  lemma {:induction false} SumIsSize(recs: seq<Rec>)
    requires Sorted(Bno, recs) && Apart(Elems(recs))
    ensures SumOf(recs) == |Free(Elems(recs))|
  {
    if recs == [] {
      assert Free(Elems(recs)) == {};
    } else {
      var s := Elems(recs);
      Distinct(Bno, recs, 0);
      assert recs == [recs[0]] + recs[1..];
      assert Elems(recs[1..]) == s - {recs[0]};
      FreeMinus(s, recs[0]);
      SumIsSize(recs[1..]);
      BlocksSize(recs[0]);
    }
  }

  lemma SameLength(bs: seq<Rec>, cs: seq<Rec>)
    requires Sorted(Bno, bs) && Sorted(Cnt, cs) && Elems(bs) == Elems(cs)
    ensures |bs| == |cs|
  {
    SortedDistinct(Bno, bs);
    SortedDistinct(Cnt, cs);
    ElemsSize(bs);
    ElemsSize(cs);
  }

  lemma SortedDistinct(kind: Kind, recs: seq<Rec>)
    requires Sorted(kind, recs)
    ensures forall i, j :: 0 <= i < j < |recs| ==> recs[i] != recs[j]
  {
    forall i, j | 0 <= i < j < |recs| ensures recs[i] != recs[j] {
      assert Before(kind, recs[i], recs[j]);
    }
  }
}
