/** Allocating in one group by the type of the request, and the group's count of what it has. */
module AllocVextent {
  import opened Records
  import opened Extents
  import opened Levels
  import opened AllocTree
  import opened AllocGroup
  import opened AllocFixup
  import opened AllocMath
  import opened AllocArgs
  import opened AllocSize
  import opened Alloc
  import opened AllocNear

  /**
   * The group's count of what it has: free blocks in the extents, on the freelist, and in the trees beyond their
   * first blocks.
   */
  ghost function Total(ag: Ag): int
    reads ag`freeblks, ag.fl
  {
    ag.freeblks + |ag.fl.queue| + ag.fl.btreeblks
  }

  /** The blocks of r have gone from the group, from its extents or its freelist, and nothing else has. */
  ghost predicate Gone(ag: Ag, blocks: set<nat>, total: int, r: Rec)
    reads ag, ag.cnt, ag.bno, ag.cnt.fl, ag.cnt.fl.slots, ag.bno.fl, ag.bno.fl.slots, ag.fl
  {
    && ag.Valid() && r.count > 0
    && Blocks(r) <= blocks && ag.Blocks() == blocks - Blocks(r)
    && Total(ag) == total - r.count
  }

  lemma TookGone(s: set<Rec>, s': set<Rec>, res: set<nat>, r: Rec)
    requires Free(s') == Free(s) - Blocks(r) && Blocks(r) <= Free(s) && Free(s) !! res
    ensures Free(s') + res == Free(s) + res - Blocks(r)
    ensures |Free(s')| == |Free(s)| - r.count
  {
    BlocksSize(r);
    assert Free(s) == Free(s') + Blocks(r) && Free(s') !! Blocks(r);
  }

  /** The blocks of the freelist that suffice for a request. */
  function Draw(ag: Ag, args: Args): nat
    reads ag.cnt`nlevels, ag.bno`nlevels, args`kind, args`alignment
  {
    if args.kind == ThisAg then BySize(ag, args) else TwoSides(ag)
  }

  lemma TookLess(ag: Ag, s: set<Rec>, res: set<Ptr>, counted: int, queued: int, r: Rec)
    requires Took(ag, s, res, counted, queued, r) && Free(s) !! res
    ensures r.count <= |Free(s)|
  {
    hide Pair, Placed, Reserve, Blocks, Free;
    TookGone(s, ag.Extents(), res, r);
  }

  /** An extent taken out of the trees and counted off has gone from the group. */
  lemma TookAll(ag: Ag, s: set<Rec>, res: set<Ptr>, counted: int, queued: int, r: Rec)
    requires Took(ag, s, res, counted, queued, r) && Free(s) !! res && ag.cnt.fl == ag.fl && ag.freeblks == |Free(s)| - r.count
    ensures Gone(ag, Free(s) + res, |Free(s)| + counted, r)
    ensures Blocks(r) <= Free(s) && Free(ag.Extents()) == Free(s) - Blocks(r)
    ensures |ag.fl.queue| <= queued + ag.cnt.nlevels + ag.bno.nlevels + 2
  {
    hide Pair, Placed, Reserve, Blocks, Free;
    TookGone(s, ag.Extents(), res, r);
  }

  /** And so has a block of the freelist, when there was no extent. */
  lemma ServedAll(ag: Ag, res: set<Ptr>, counted: int, b: Ptr)
    requires ag.Sound() && ag.Extents() == {} && ag.freeblks == 0 && b in res && Reserve(ag.cnt, ag.bno) == res - {b}
    requires ag.fl.btreeblks + |ag.fl.queue| == counted - 1
    ensures Gone(ag, res, counted, Rec(b, 1))
  {
    hide Pair, Placed, Reserve;
    ServedGone({}, res, b);
  }

  /** The blocks chosen are those that a request of its kind gets, where such extents are free and have blocks in all. */
  ghost predicate Chosen(s: set<Rec>, kind: AllocType, a: Ask, have: int, bno: nat, r: Rec) {
    match kind
    case ThisAg => BestIn(s, a, have, r)
    case NearBno => NearIn(s, Want(bno, a.minlen, a.maxlen, a.alignment), a, have, r)
    case ThisBno => r.start == bno && RunAt(s, a, have, bno, r.count)
  }

  /** Take an extent out of the trees, or a block off the freelist, by the kind of the request. */
  method TakeExtent(ag: Ag, args: Args) returns (ok: bool)
    requires ag.Valid() && args.Proper() && args.Small() && (args.kind == ThisBno ==> args.alignment == 1)
    modifies ag.cnt`store, ag.cnt`lv, ag.cnt`root, ag.cnt`nlevels, ag.cnt`longest
    modifies ag.bno`store, ag.bno`lv, ag.bno`root, ag.bno`nlevels, ag.bno`longest
    modifies ag.fl, ag.fl.slots, args`len, args`agbno, args`wasfromfl
    ensures ok && args.agbno == NULLAGBLOCK ==> Refused(ag, args)
    ensures ok && args.agbno == NULLAGBLOCK && args.kind != ThisBno ==>
              NoRoom(old(ag.Extents()), args.alignment, args.minlen) || args.Lacks(old(ag.freeblks + ag.fl.flcount))
    ensures ok && args.agbno == NULLAGBLOCK && args.kind != ThisBno ==>
              !old(ag.Extents() == {} && FromFreelist(args, ag.fl.flcount))
    ensures ok && args.agbno == NULLAGBLOCK && args.kind == ThisBno ==>
              || !(Blocks(Rec(old(args.agbno), args.minlen)) <= Free(old(ag.Extents())))
              || args.Lacks(old(ag.freeblks + ag.fl.flcount))
    ensures ok && args.agbno != NULLAGBLOCK ==> args.Leaves(old(ag.freeblks + ag.fl.flcount))
    ensures ok && args.agbno != NULLAGBLOCK && args.kind == ThisBno ==> args.agbno == old(args.agbno)
    ensures ok && args.agbno != NULLAGBLOCK && !args.wasfromfl ==>
              Chosen(old(ag.Extents()), args.kind, args.Asked(), old(ag.freeblks + ag.fl.flcount), old(args.agbno),
                  Rec(args.agbno, args.len))
    ensures ok && args.agbno != NULLAGBLOCK ==> args.minlen <= args.len <= args.maxlen && Multiple(args.agbno, args.alignment)
    ensures ok && args.agbno != NULLAGBLOCK && !args.wasfromfl ==>
              Took(ag, old(ag.Extents()), old(Reserve(ag.cnt, ag.bno)), old(ag.fl.btreeblks + |ag.fl.queue|),
                  old(|ag.fl.queue|), Rec(args.agbno, args.len))
    ensures ok && args.agbno != NULLAGBLOCK && args.wasfromfl ==> Served(ag, args) && args.kind != ThisBno
    ensures old(Ready(ag, args, Draw(ag, args))) ==> ok
  {
    hide Pair, Placed, Reserve, Blocks, Free, BestIn, NearIn, RunAt, NoRoom, Took, Multiple;
    MultipleOne(args.agbno);
    args.wasfromfl := false;
    match args.kind {
      case ThisAg => ok := VextentSize(ag, args);
      case NearBno => ok := VextentNear(ag, args);
      case ThisBno => ok := VextentExact(ag, args);
    }
    MultipleOne(args.agbno);
  }

  /** Allocate in this group, of a size or at a block, and count the blocks off. */
  method AgVextent(ag: Ag, args: Args) returns (ok: bool)
    requires ag.Valid() && args.Proper() && args.Small() && (args.kind == ThisBno ==> args.alignment == 1)
    modifies ag.cnt`store, ag.cnt`lv, ag.cnt`root, ag.cnt`nlevels, ag.cnt`longest
    modifies ag.bno`store, ag.bno`lv, ag.bno`root, ag.bno`nlevels, ag.bno`longest
    modifies ag.fl, ag.fl.slots, ag`freeblks, args`len, args`agbno, args`wasfromfl
    ensures ok && args.agbno == NULLAGBLOCK ==> ag.Valid() && Refused(ag, args) && ag.freeblks == old(ag.freeblks)
    ensures ok && args.agbno == NULLAGBLOCK && args.kind != ThisBno ==>
              NoRoom(old(ag.Extents()), args.alignment, args.minlen) || args.Lacks(old(ag.freeblks + ag.fl.flcount))
    ensures ok && args.agbno == NULLAGBLOCK && args.kind != ThisBno ==>
              !old(ag.Extents() == {} && FromFreelist(args, ag.fl.flcount))
    ensures ok && args.agbno == NULLAGBLOCK && args.kind == ThisBno ==>
              || !(Blocks(Rec(old(args.agbno), args.minlen)) <= Free(old(ag.Extents())))
              || args.Lacks(old(ag.freeblks + ag.fl.flcount))
    ensures ok && args.agbno != NULLAGBLOCK ==> args.Leaves(old(ag.freeblks + ag.fl.flcount))
    ensures ok && args.agbno != NULLAGBLOCK && args.kind == ThisBno ==> args.agbno == old(args.agbno)
    ensures ok && args.agbno != NULLAGBLOCK && !args.wasfromfl ==>
              Chosen(old(ag.Extents()), args.kind, args.Asked(), old(ag.freeblks + ag.fl.flcount), old(args.agbno),
                  Rec(args.agbno, args.len))
    ensures ok && args.agbno != NULLAGBLOCK ==> args.minlen <= args.len <= args.maxlen && Multiple(args.agbno, args.alignment)
    ensures ok && args.agbno != NULLAGBLOCK ==> Gone(ag, old(ag.Blocks()), old(Total(ag)), Rec(args.agbno, args.len))
    ensures ok && args.agbno != NULLAGBLOCK && !args.wasfromfl ==>
              var r := Rec(args.agbno, args.len);
              Blocks(r) <= old(Free(ag.Extents())) && Free(ag.Extents()) == old(Free(ag.Extents())) - Blocks(r)
    ensures ok && args.agbno != NULLAGBLOCK ==> |ag.fl.queue| <= old(|ag.fl.queue|) + ag.cnt.nlevels + ag.bno.nlevels + 2
    ensures ok && args.agbno != NULLAGBLOCK ==> ag.freeblks == old(ag.freeblks) - if args.wasfromfl then 0 else args.len
    ensures ok && args.agbno != NULLAGBLOCK && args.wasfromfl ==>
              args.kind != ThisBno && args.len == 1 && ag.Extents() == {} && old(FromFreelist(args, ag.fl.flcount))
    ensures old(Ready(ag, args, Draw(ag, args))) ==> ok
  {
    hide Pair, Placed, Reserve, FromFreelist, Blocks, Free, Multiple, Took, Gone, NoRoom, Chosen, Args.Lacks, Args.Leaves;
    ghost var s, res, counted, queued := ag.Extents(), Reserve(ag.cnt, ag.bno), ag.fl.btreeblks + |ag.fl.queue|, |ag.fl.queue|;
    SoundApart(ag);
    ok := TakeExtent(ag, args);
    if !ok || args.agbno == NULLAGBLOCK {
      return;
    }
    if !args.wasfromfl {
      TookLess(ag, s, res, counted, queued, Rec(args.agbno, args.len));
      ag.freeblks := ag.freeblks - args.len;
      TookAll(ag, s, res, counted, queued, Rec(args.agbno, args.len));
    } else {
      ServedAll(ag, res, counted, args.agbno);
    }
  }

  lemma SoundApart(ag: Ag)
    requires ag.Sound()
    ensures Free(ag.Extents()) !! Reserve(ag.cnt, ag.bno) && ag.cnt.fl == ag.fl
    ensures ag.Extents() == {} ==> Free(ag.Extents()) == {}
    ensures ag.Blocks() == Free(ag.Extents()) + Reserve(ag.cnt, ag.bno)
  {
  }

  lemma MultipleOne(b: nat)
    ensures Multiple(b, 1)
  {
  }

  lemma ServedGone(s: set<Rec>, res: set<nat>, b: nat)
    requires Free(s) !! res && b in res
    ensures Blocks(Rec(b, 1)) == {b}
    ensures Free(s) + (res - {b}) == Free(s) + res - {b}
  {
    assert forall x :: x in Blocks(Rec(b, 1)) ==> x == b;
    assert Covers(Rec(b, 1), b);
  }
}
