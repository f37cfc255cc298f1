/** Allocating an extent in a group. */
module Alloc {
  import opened Arith
  import opened Records
  import opened Extents
  import opened Levels
  import opened FreeLists
  import opened Btrees
  import opened BtreeLookup
  import opened AllocTree
  import opened AllocGroup
  import opened AllocFixup
  import opened AllocMath
  import opened AllocArgs
  import opened AllocSize

  /**
   * Extents s of the group have lost just the blocks of r; its reserve has the blocks it had, and its freelist got no more
   * of them than the trees can have given up.
   */
  ghost predicate Took(ag: Ag, s: set<Rec>, res: set<Ptr>, counted: int, queued: int, r: Rec)
    reads ag.cnt`store, ag.cnt`root, ag.cnt`nlevels, ag.cnt`lv, ag.cnt`longest
    reads ag.bno`store, ag.bno`root, ag.bno`nlevels, ag.bno`lv, ag.bno`longest
    reads ag.cnt.fl, ag.cnt.fl.slots, ag.bno.fl, ag.bno.fl.slots
  {
    && ag.Sound()
    && r.count > 0 && Blocks(r) <= Free(s)
    && Free(ag.Extents()) == Free(s) - Blocks(r)
    && Reserve(ag.cnt, ag.bno) == res
    && ag.cnt.fl.btreeblks + |ag.cnt.fl.queue| == counted
    && |ag.cnt.fl.queue| <= queued + ag.cnt.nlevels + ag.bno.nlevels + 2
  }

  lemma LessPlaced(s: set<Rec>, f: Rec, r: Rec, res: set<Ptr>, length: nat)
    requires Placed(s, res, length) && f in s && PartOf(r, f)
    ensures Placed(Less(s, f, r), res, length)
    ensures Free(Less(s, f, r)) == Free(s) - Blocks(r) && Blocks(r) <= Free(s) && r.count > 0
  {
    Taken(s, f, r);
    forall b | b in Free(Less(s, f, r)) + res ensures b < length {
      assert b in Free(s) + res;
    }
  }

  /** Free extents lie within the group. */
  lemma InGroup(s: set<Rec>, res: set<Ptr>, length: nat, f: Rec)
    requires Placed(s, res, length) && f in s
    ensures f.count > 0 && f.start + f.count <= length <= MaxAgBlocks && Apart(s)
  {
    InFree(s, f, f.start + f.count - 1);
    assert f.start + f.count - 1 in Free(s) + res;
  }

  /** Nothing stands in the way: there is as much as has to be left, and the freelist has enough blocks. */
  ghost predicate Ready(ag: Ag, args: Args, n: nat)
    reads ag`freeblks, ag.cnt`nlevels, ag.bno`nlevels, ag.fl, args`minleft
  {
    args.minleft <= ag.freeblks + ag.fl.flcount && Supplied(ag, n)
  }

  /** The blocks that suffice by size: aligned extents may leave something over on both sides. */
  function BySize(ag: Ag, args: Args): nat
    reads ag.cnt`nlevels, ag.bno`nlevels, args`alignment
  {
    if args.alignment == 1 then OneSide(ag) else TwoSides(ag)
  }

  /** Take r out of f, in both trees, and set the request to it. */
  method TakePart(ag: Ag, args: Args, ccur: Cursor, bcur: Cursor, f: Rec, r: Rec, cntOk: bool, bnoOk: bool) returns (ok: bool)
    requires ag.Sound() && f in ag.Extents() && PartOf(r, f)
    requires ccur != bcur && ccur.Fits() && ccur.nlevels == ag.cnt.nlevels && bcur.Fits() && bcur.nlevels == ag.bno.nlevels
    requires cntOk ==> AtRec(ag.cnt, ccur, f)
    requires bnoOk ==> AtRec(ag.bno, bcur, f)
    modifies ag.cnt`store, ag.cnt`lv, ag.cnt`root, ag.cnt`nlevels, ag.cnt`longest
    modifies ag.bno`store, ag.bno`lv, ag.bno`root, ag.bno`nlevels, ag.bno`longest
    modifies ag.fl, ag.fl.slots, ccur, bcur, args`len, args`agbno
    ensures ok ==> Took(ag, old(ag.Extents()), old(Reserve(ag.cnt, ag.bno)), old(ag.fl.btreeblks + |ag.fl.queue|),
                     old(|ag.fl.queue|), r)
    ensures ok ==> args.len == r.count && args.agbno == r.start
    ensures old(Supplied(ag, Needs(ag, f, r))) ==> ok
  {
    hide Pair, Apart, AtRec, PartOf, Less, Placed, Reserve;
    ghost var s, res := ag.Extents(), Reserve(ag.cnt, ag.bno);
    InGroup(s, res, ag.length, f);
    LessPlaced(s, f, r, res, ag.length);
    ok := FixupTrees(ag, ccur, bcur, f, r, cntOk, bnoOk, s);
    args.len, args.agbno := r.count, r.start;
  }

  /** The request is answered: no room. Nothing has changed. */
  twostate predicate Refused(ag: Ag, args: Args)
    reads ag.cnt, ag.bno, ag.fl, ag.fl.slots, args
  {
    args.agbno == NULLAGBLOCK && unchanged(ag.cnt) && unchanged(ag.bno) && unchanged(ag.fl) && unchanged(ag.fl.slots)
  }

  /** No extent has an aligned place for more blocks than the request got. */
  ghost predicate NoBetter(s: set<Rec>, alignment: nat, maxlen: nat, len: nat)
    requires alignment > 0
  {
    forall n: nat {:trigger NoRoom(s, alignment, n)} :: len < n <= maxlen ==> NoRoom(s, alignment, n)
  }

  lemma UsablePart(f: Rec, maxlen: nat, alignment: nat, minlen: nat, len: nat)
    requires alignment > 0 && 0 < minlen <= len <= Usable(f, maxlen, alignment, minlen).count
    ensures PartOf(Rec(Usable(f, maxlen, alignment, minlen).start, len), f)
    ensures Usable(f, maxlen, alignment, minlen).start < f.start + f.count
    ensures Multiple(Usable(f, maxlen, alignment, minlen).start, alignment)
  {
    AlignedBest(f, alignment, minlen);
  }

  lemma UsableStart(f: Rec, maxlen: nat, alignment: nat, minlen: nat)
    ensures alignment <= 1 ==> Usable(f, maxlen, alignment, minlen).start == f.start
    ensures Usable(f, maxlen, alignment, minlen).count <= f.count
  {
  }

  lemma UsableMost(f: Rec, maxlen: nat, alignment: nat, minlen: nat)
    ensures Usable(f, maxlen, alignment, minlen).count <= maxlen
  {
  }

  lemma BestIsNoBetter(recs: seq<Rec>, maxlen: nat, alignment: nat, minlen: nat, best: nat)
    requires alignment > 0 && BestFrom(recs, 0, maxlen, alignment, minlen, best)
    ensures NoBetter(Elems(recs), alignment, maxlen, best)
  {
    forall n: nat | best < n <= maxlen ensures NoRoom(Elems(recs), alignment, n) {
      BestIsBest(recs, maxlen, alignment, minlen, best, n);
    }
  }

  /** The blocks are the first of those usable in the extent that the search by size settles on, none having more. */
  ghost predicate Picked(s: set<Rec>, a: Ask, have: int, r: Rec) {
    && a.Proper()
    && exists f: Rec :: Settles(s, a.maxlen, a.alignment, a.minlen, f) && PickedOf(s, a, have, r, f)
  }

  ghost predicate PickedOf(s: set<Rec>, a: Ask, have: int, r: Rec, f: Rec)
    requires a.Proper()
  {
    var u := Usable(f, a.maxlen, a.alignment, a.minlen);
    && a.minlen <= u.count <= have && NoBetter(s, a.alignment, a.maxlen, u.count)
    && r.start == u.start && r.count == Yields(a, u.count, have)
  }

  /**
   * And where any length will do, no aligned place that minleft allows is longer. Nothing is said of more than there is to
   * be left.
   */
  ghost predicate BestIn(s: set<Rec>, a: Ask, have: int, r: Rec) {
    a.minleft <= have ==> Picked(s, a, have, r) && (a.prod <= 1 ==> NoBetter(s, a.alignment, a.Most(have), r.count))
  }

  lemma NoneBest(s: set<Rec>, a: Ask, have: int, r: Rec)
    ensures a.minleft > have ==> BestIn(s, a, have, r)
  {
  }

  lemma BestIsPicked(t: Btree, f: Rec, a: Ask, have: int, r: Rec)
    requires a.Proper() && Picks(t, f, a.maxlen, a.alignment, a.minlen)
    requires var u := Usable(f, a.maxlen, a.alignment, a.minlen);
             a.minlen <= u.count <= have && r.start == u.start && r.count == Yields(a, u.count, have)
    ensures BestIn(Held(t), a, have, r)
  {
    hide Settles, NoRoom, BestFrom;
    var u := Usable(f, a.maxlen, a.alignment, a.minlen);
    UsableMost(f, a.maxlen, a.alignment, a.minlen);
    BestIsNoBetter(t.Recs(), a.maxlen, a.alignment, a.minlen, u.count);
    assert PickedOf(Held(t), a, have, r, f);
  }

  /** Trim the length found; false if the request can not be met. A length that wrapped round is more than there is. */
  method TrimLen(args: Args, rlen: nat, freeblks: nat, flcount: nat) returns (go: bool)
    requires args.Proper() && args.Small() && rlen <= args.maxlen && rlen <= freeblks + flcount < 0x8000_0000
    modifies args`len, args`agbno, args`wasfromfl
    ensures !go ==> args.agbno == NULLAGBLOCK && (rlen < args.minlen || args.Lacks(freeblks + flcount))
    ensures go ==> !args.wasfromfl && args.agbno == old(args.agbno) && args.minlen <= args.len
    ensures go ==> args.len <= rlen || args.len > freeblks + flcount
    ensures go && args.minleft <= freeblks + flcount ==> args.len <= rlen
    ensures go ==> args.Leaves(freeblks + flcount) || args.len > freeblks + flcount
    ensures go && args.minleft <= freeblks + flcount ==> args.len == Yields(args.Asked(), rlen, freeblks + flcount)
  {
    hide LenFixed, LenLeft, Cut, WantedForm, Int32;
    args.wasfromfl := false;
    args.len := rlen;
    args.FixLen();
    LenFixedRange(rlen, args.minlen, args.maxlen, args.mod, args.prod);
    if rlen < args.minlen {
      args.agbno := NULLAGBLOCK;
      return false;
    }
    go := args.FixMinleft(freeblks, flcount);
  }

  /** Allocate the part r of extent f found to be best, or what can be had of it. */
  method TakeBest(ag: Ag, args: Args, ccur: Cursor, f: Rec, r: Rec) returns (ok: bool)
    requires ag.Valid() && args.Proper() && args.Small()
    requires AtRec(ag.cnt, ccur, f) && r == Usable(f, args.maxlen, args.alignment, args.minlen)
    requires Picks(ag.cnt, f, args.maxlen, args.alignment, args.minlen)
    modifies ag.cnt`store, ag.cnt`lv, ag.cnt`root, ag.cnt`nlevels, ag.cnt`longest
    modifies ag.bno`store, ag.bno`lv, ag.bno`root, ag.bno`nlevels, ag.bno`longest
    modifies ag.fl, ag.fl.slots, ccur, args`len, args`agbno, args`wasfromfl
    ensures ok && args.agbno == NULLAGBLOCK ==> Refused(ag, args)
    ensures ok && args.agbno == NULLAGBLOCK ==>
              NoRoom(old(ag.Extents()), args.alignment, args.minlen) || args.Lacks(old(ag.freeblks + ag.fl.flcount))
    ensures ok && args.agbno != NULLAGBLOCK ==> args.Leaves(old(ag.freeblks + ag.fl.flcount))
    ensures ok && args.agbno != NULLAGBLOCK ==>
              && !args.wasfromfl && args.minlen <= args.len <= args.maxlen && Multiple(args.agbno, args.alignment)
              && Took(ag, old(ag.Extents()), old(Reserve(ag.cnt, ag.bno)), old(ag.fl.btreeblks + |ag.fl.queue|),
                  old(|ag.fl.queue|), Rec(args.agbno, args.len))
    ensures ok && args.agbno != NULLAGBLOCK ==>
              BestIn(old(ag.Extents()), args.Asked(), old(ag.freeblks + ag.fl.flcount), Rec(args.agbno, args.len))
    ensures old(Ready(ag, args, BySize(ag, args))) ==> ok
  {
    hide Pair, Apart, AtRec, PartOf, Less, Placed, Reserve, Usable, Picks, NoRoom, NoBetter, Took, Multiple, LenFixed,
      Yields, BestIn;
    FoundFits(ag, ag.cnt, ccur, f);
    UsableMost(f, args.maxlen, args.alignment, args.minlen);
    UsableStart(f, args.maxlen, args.alignment, args.minlen);
    var go := TrimLen(args, r.count, ag.freeblks, ag.fl.flcount);
    if !go {
      if r.count < args.minlen {
        PicksMost(ag.cnt, f, args.maxlen, args.alignment, args.minlen, args.minlen);
      }
      return true;
    }
    if args.len > f.count {
      return false;
    }
    UsablePart(f, args.maxlen, args.alignment, args.minlen, args.len);
    NoneBest(ag.Extents(), args.Asked(), ag.freeblks + ag.fl.flcount, Rec(r.start, args.len));
    if args.minleft <= ag.freeblks + ag.fl.flcount {
      BestIsPicked(ag.cnt, f, args.Asked(), ag.freeblks + ag.fl.flcount, Rec(r.start, args.len));
    }
    var bcur := new Cursor(ag.bno);
    ok := TakePart(ag, args, ccur, bcur, f, Rec(r.start, args.len), true, false);
  }

  /** Allocate from the best extent of the group, wherever it is. */
  method VextentSize(ag: Ag, args: Args) returns (ok: bool)
    requires ag.Valid() && args.Proper() && args.Small()
    modifies ag.cnt`store, ag.cnt`lv, ag.cnt`root, ag.cnt`nlevels, ag.cnt`longest
    modifies ag.bno`store, ag.bno`lv, ag.bno`root, ag.bno`nlevels, ag.bno`longest
    modifies ag.fl, ag.fl.slots, args`len, args`agbno, args`wasfromfl
    ensures ok && args.agbno == NULLAGBLOCK ==> Refused(ag, args)
    ensures ok && args.agbno == NULLAGBLOCK ==>
              NoRoom(old(ag.Extents()), args.alignment, args.minlen) || args.Lacks(old(ag.freeblks + ag.fl.flcount))
    ensures ok && args.agbno != NULLAGBLOCK ==> args.Leaves(old(ag.freeblks + ag.fl.flcount))
    ensures ok && args.agbno != NULLAGBLOCK && !args.wasfromfl ==>
              && args.minlen <= args.len <= args.maxlen && Multiple(args.agbno, args.alignment)
              && Took(ag, old(ag.Extents()), old(Reserve(ag.cnt, ag.bno)), old(ag.fl.btreeblks + |ag.fl.queue|),
                  old(|ag.fl.queue|), Rec(args.agbno, args.len))
    ensures ok && args.agbno != NULLAGBLOCK && !args.wasfromfl ==>
              BestIn(old(ag.Extents()), args.Asked(), old(ag.freeblks + ag.fl.flcount), Rec(args.agbno, args.len))
    ensures ok && args.agbno != NULLAGBLOCK && args.wasfromfl ==> Served(ag, args)
    ensures ok && args.agbno == NULLAGBLOCK ==> !old(ag.Extents() == {} && FromFreelist(args, ag.fl.flcount))
    ensures old(Ready(ag, args, BySize(ag, args))) ==> ok
  {
    hide Pair, Apart, AtRec, PartOf, Placed, Reserve, Usable, Picks, NoRoom, NoBetter, Took, Multiple,
      BestIn;
    assert ag.Extents() == {} ==> ag.cnt.Recs() == [] by {
      assert ag.cnt.Recs() != [] ==> ag.cnt.Recs()[0] in Held(ag.cnt);
    }
    var ccur := new Cursor(ag.cnt);
    var stat, f, r := PickBySize(ag, args, ccur);
    if !stat || f.count == 0 {
      return true;
    }
    ok := TakeBest(ag, args, ccur, f, r);
  }

  /** A record of either tree is an extent of the group. */
  lemma FoundFits(ag: Ag, t: Btree, cur: Cursor, f: Rec)
    requires ag.Valid() && (t == ag.cnt || t == ag.bno) && |t.lv| > 0 && AtRec(t, cur, f)
    ensures ag.freeblks + ag.fl.flcount < 0x8000_0000
    ensures f in ag.Extents() && f.count <= ag.freeblks && f.start + f.count < NULLAGBLOCK
    ensures cur.Fits() && cur.nlevels == t.nlevels
  {
    hide Pair;
    assert f in Held(t);
    FreeBelow(ag);
    InGroup(ag.Extents(), Reserve(ag.cnt, ag.bno), ag.length, f);
    FreeWithout(ag.Extents(), f);
    BlocksSize(f);
    SubsetSize(Blocks(f), Free(ag.Extents()));
  }

  lemma {:induction false} SubsetSize(a: set<nat>, b: set<nat>)
    requires a <= b
    ensures |a| <= |b|
  {
    assert b == a + (b - a);
  }

  /** Free blocks in a row lie in one extent. */
  lemma {:induction false} RowInOne(s: set<Rec>, f: Rec, r: Rec)
    requires Apart(s) && f in s && Covers(f, r.start) && r.count > 0
    ensures Blocks(r) <= Free(s) <==> r.start + r.count <= f.start + f.count
    ensures f.start + f.count !in Free(s)
  {
    var fend := f.start + f.count;
    if fend < r.start + r.count {
      assert Covers(r, fend) && fend in Blocks(r);
    } else {
      forall b | b in Blocks(r) ensures b in Free(s) {
        assert Covers(r, b) && Covers(f, b);
        InFree(s, f, b);
      }
    }
  }

  /** The last extent that starts no later than a block is the only one that may cover it. */
  method LookupLast(t: Btree, cur: Cursor, r: Rec) returns (i: bool, f: Rec)
    requires Good(t) && t.kind == Bno && cur.Fits() && cur.nlevels == t.nlevels && Apart(Held(t))
    modifies cur
    ensures i ==> AtRec(t, cur, f) && f.start <= r.start
    ensures r.start in Free(Held(t)) <==> i && Covers(f, r.start)
  {
    cur.rec := r;
    i := Lookup(t, cur, LE);
    f := Rec(0, 0);
    LastCovers(t.Recs(), cur.At(t.lv, 0), r, i);
    if i {
      var stat;
      f, stat := GetRec(t, cur);
    }
  }

  lemma LastCovers(recs: seq<Rec>, at: int, r: Rec, stat: bool)
    requires Sorted(Bno, recs) && Apart(Elems(recs)) && Found(Bno, LE, recs, r, at, stat)
    ensures -1 <= at < |recs| && stat == (at >= 0)
    ensures stat ==> recs[at].start <= r.start
    ensures r.start in Free(Elems(recs)) <==> stat && Covers(recs[at], r.start)
  {
    if r.start in Free(Elems(recs)) {
      var q :| q in Elems(recs) && Covers(q, r.start);
      var k :| 0 <= k < |recs| && recs[k] == q;
      assert k < at ==> Before(Bno, recs[k], recs[at]);
      assert recs[at] in Elems(recs);
    } else if stat && Covers(recs[at], r.start) {
      InFree(Elems(recs), recs[at], r.start);
    }
  }

  /** The length is what comes of the free blocks in a row from b on; for any length, all that minleft allows. */
  ghost predicate RunAt(s: set<Rec>, a: Ask, have: int, b: nat, len: nat) {
    a.minleft <= have ==>
      && a.Proper()
      && (exists n: nat :: a.minlen <= n <= a.maxlen && Blocks(Rec(b, n)) <= Free(s)
             && (n < a.maxlen ==> b + n !in Free(s)) && len == Yields(a, n, have))
      && (a.prod <= 1 && len < a.Most(have) ==> b + len !in Free(s))
  }

  lemma RunIs(s: set<Rec>, f: Rec, a: Ask, have: int, b: nat, len: nat)
    requires Apart(s) && f in s && Covers(f, b) && b + a.minlen <= f.start + f.count && a.Proper()
    requires f.count <= have && Yielded(a, f.start + f.count - b, have, len)
    ensures RunAt(s, a, have, b, len)
  {
    hide Blocks, Free;
    if a.minleft > have {
      return;
    }
    var n := Least(f.start + f.count - b, a.maxlen);
    RowInOne(s, f, Rec(b, n));
  }

  /** Trim a length that is long enough; false if minleft can not be kept. */
  method TrimExact(args: Args, n: nat, freeblks: nat, flcount: nat) returns (go: bool)
    requires args.Proper() && args.Small() && args.minlen <= n <= args.maxlen && n <= freeblks + flcount < 0x8000_0000
    modifies args`len, args`agbno
    ensures !go ==> args.agbno == NULLAGBLOCK && args.Lacks(freeblks + flcount)
    ensures go ==> args.agbno == old(args.agbno) && args.minlen <= args.len
    ensures go ==> args.len <= n || args.len > freeblks + flcount
    ensures go && args.minleft <= freeblks + flcount ==> args.len <= n
    ensures go ==> args.Leaves(freeblks + flcount) || args.len > freeblks + flcount
    ensures go ==> Yielded(args.Asked(), n, freeblks + flcount, args.len)
  {
    hide LenFixed, LenLeft, Cut, WantedForm, Int32;
    args.len := n;
    args.FixLen();
    LenFixedRange(n, args.minlen, args.maxlen, args.mod, args.prod);
    go := args.FixMinleft(freeblks, flcount);
  }

  lemma YieldedMore(a: Ask, n: int, count: int, have: int, len: nat)
    requires Yielded(a, n, have, len) && n == Least(count, a.maxlen) && count >= 0
    ensures Yielded(a, count, have, len)
  {
  }

  /** Allocate from the block asked for on, in the extent it is in. */
  method TakeExact(ag: Ag, args: Args, bcur: Cursor, f: Rec) returns (ok: bool)
    requires ag.Valid() && args.Proper() && args.Small()
    requires AtRec(ag.bno, bcur, f) && f.start <= args.agbno && args.agbno + args.minlen <= f.start + f.count
    modifies ag.cnt`store, ag.cnt`lv, ag.cnt`root, ag.cnt`nlevels, ag.cnt`longest
    modifies ag.bno`store, ag.bno`lv, ag.bno`root, ag.bno`nlevels, ag.bno`longest
    modifies ag.fl, ag.fl.slots, bcur, args`len, args`agbno, args`wasfromfl
    ensures ok && args.agbno == NULLAGBLOCK ==> Refused(ag, args) && args.Lacks(old(ag.freeblks + ag.fl.flcount))
    ensures ok && args.agbno != NULLAGBLOCK ==> args.Leaves(old(ag.freeblks + ag.fl.flcount))
    ensures ok && args.agbno != NULLAGBLOCK ==>
              && !args.wasfromfl && args.minlen <= args.len <= args.maxlen && args.agbno == old(args.agbno)
              && Took(ag, old(ag.Extents()), old(Reserve(ag.cnt, ag.bno)), old(ag.fl.btreeblks + |ag.fl.queue|),
                  old(|ag.fl.queue|), Rec(args.agbno, args.len))
    ensures ok && args.agbno != NULLAGBLOCK ==>
              Yielded(args.Asked(), f.start + f.count - args.agbno, old(ag.freeblks + ag.fl.flcount), args.len)
    ensures old(Ready(ag, args, TwoSides(ag))) ==> ok
  {
    hide Pair, Apart, AtRec, Placed, Reserve, Took, Yielded, Blocks, Free, Flat, Tied, Off;
    FoundFits(ag, ag.bno, bcur, f);
    var fend := f.start + f.count;
    var end := Least(fend, args.agbno + args.maxlen);
    ghost var n, have := end - args.agbno, ag.freeblks + ag.fl.flcount;
    var minok := TrimExact(args, end - args.agbno, ag.freeblks, ag.fl.flcount);
    if !minok {
      return true;
    }
    YieldedMore(args.Asked(), n, fend - args.agbno, have, args.len);
    if args.agbno + args.len > fend {
      return false;
    }
    var ccur := new Cursor(ag.cnt);
    ok := TakePart(ag, args, ccur, bcur, f, Rec(args.agbno, args.len), false, true);
    args.wasfromfl := false;
  }

  /** Allocate from just the block asked for on. */
  method VextentExact(ag: Ag, args: Args) returns (ok: bool)
    requires ag.Valid() && args.Proper() && args.Small() && args.alignment == 1
    modifies ag.cnt`store, ag.cnt`lv, ag.cnt`root, ag.cnt`nlevels, ag.cnt`longest
    modifies ag.bno`store, ag.bno`lv, ag.bno`root, ag.bno`nlevels, ag.bno`longest
    modifies ag.fl, ag.fl.slots, args`len, args`agbno, args`wasfromfl
    ensures ok && args.agbno == NULLAGBLOCK ==> Refused(ag, args)
    ensures ok && args.agbno == NULLAGBLOCK ==>
              || !(Blocks(Rec(old(args.agbno), args.minlen)) <= Free(old(ag.Extents())))
              || args.Lacks(old(ag.freeblks + ag.fl.flcount))
    ensures ok && args.agbno != NULLAGBLOCK ==> args.Leaves(old(ag.freeblks + ag.fl.flcount))
    ensures ok && args.agbno != NULLAGBLOCK ==>
              && !args.wasfromfl && args.minlen <= args.len <= args.maxlen && args.agbno == old(args.agbno)
              && Took(ag, old(ag.Extents()), old(Reserve(ag.cnt, ag.bno)), old(ag.fl.btreeblks + |ag.fl.queue|),
                  old(|ag.fl.queue|), Rec(args.agbno, args.len))
    ensures ok && args.agbno != NULLAGBLOCK ==>
              RunAt(old(ag.Extents()), args.Asked(), old(ag.freeblks + ag.fl.flcount), args.agbno, args.len)
    ensures old(Ready(ag, args, TwoSides(ag))) ==> ok
  {
    hide Pair, AtRec, Reserve, Took, Apart, Good, RunAt, Yielded;
    ghost var s := ag.Extents();
    var want := Rec(args.agbno, args.minlen);
    GoodTrees(ag);
    var bcur := new Cursor(ag.bno);
    var i, f := LookupLast(ag.bno, bcur, want);
    assert Covers(want, want.start) && want.start in Blocks(want);
    if !i || f.start + f.count < args.agbno + args.minlen {
      if i && Covers(f, want.start) {
        FoundFits(ag, ag.bno, bcur, f);
        RowInOne(s, f, want);
      }
      args.agbno := NULLAGBLOCK;
      return true;
    }
    FoundFits(ag, ag.bno, bcur, f);
    RowInOne(s, f, want);
    ghost var have := ag.freeblks + ag.fl.flcount;
    ok := TakeExact(ag, args, bcur, f);
    if ok && args.agbno != NULLAGBLOCK {
      RunIs(s, f, args.Asked(), have, want.start, args.len);
    }
  }

  lemma GoodTrees(ag: Ag)
    requires ag.Sound()
    ensures Good(ag.cnt) && Good(ag.bno)
  {
  }
}
