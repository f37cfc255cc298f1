/** Giving an extent back to a group, joined with its free neighbours. */
module AllocFree {
  import opened Records
  import opened Extents
  import opened Levels
  import opened FreeLists
  import opened Btrees
  import opened BtreeLookup
  import opened AllocTree
  import opened AllocGroup
  import opened Alloc
  import opened AllocVextent

  /** The cursor is between the extents before r and those after. */
  ghost predicate AtGap(t: Btree, cur: Cursor, l: Rec, r: Rec, g: Rec)
    reads t`lv, cur
  {
    && |t.lv| > 0 && cur.On(t.lv, 0) && cur.pos[0] < |t.lv[0]|
    && 1 <= cur.ptrs[0] <= |t.lv[0][cur.pos[0]].ents| + 1
    && 0 <= cur.At(t.lv, 0) && Between(Bno, t.Recs(), cur.At(t.lv, 0), r)
    && (l.count > 0 ==> cur.At(t.lv, 0) > 0 && t.Recs()[cur.At(t.lv, 0) - 1] == l)
    && (g.count > 0 ==> cur.ptrs[0] <= |t.lv[0][cur.pos[0]].ents|
                        && cur.At(t.lv, 0) < |t.Recs()| && t.Recs()[cur.At(t.lv, 0)] == g)
  }

  /** Place k divides the extents that start no later than r from those that start later. */
  ghost predicate SplitAt(recs: seq<Rec>, k: int, r: Rec) {
    && 0 <= k <= |recs|
    && (forall i :: 0 <= i < k ==> recs[i].start <= r.start)
    && (forall i :: k <= i < |recs| ==> r.start < recs[i].start)
  }

  /** The extent before place k ends before r; l is it if it ends just there. */
  ghost predicate LeftIs(recs: seq<Rec>, k: nat, r: Rec, l: Rec) {
    && k <= |recs|
    && (k > 0 ==> recs[k - 1].start + recs[k - 1].count <= r.start)
    && l == if k > 0 && recs[k - 1].start + recs[k - 1].count == r.start then recs[k - 1] else Rec(r.start, 0)
  }

  /** The extent at place k starts after r; g is it if it starts just there. */
  ghost predicate RightIs(recs: seq<Rec>, k: nat, r: Rec, g: Rec) {
    && k <= |recs|
    && (k < |recs| ==> r.start + r.count <= recs[k].start)
    && g == if k < |recs| && r.start + r.count == recs[k].start then recs[k] else Rec(r.start + r.count, 0)
  }

  /**
   * The extents next to r: those before place k end no later than it starts, those from there on start no earlier
   * than it ends.
   */
  lemma GapMisses(recs: seq<Rec>, k: nat, r: Rec, l: Rec, g: Rec, i: nat)
    requires Sorted(Bno, recs) && Apart(Elems(recs)) && k <= |recs| && r.count > 0
    requires LeftIs(recs, k, r, l) && RightIs(recs, k, r, g) && i < |recs|
    ensures recs[i] in Elems(recs) && recs[i].count > 0
    ensures if i < k then recs[i].start + recs[i].count <= r.start else r.start + r.count <= recs[i].start
    ensures recs[i] != l && recs[i] != g ==>
              if i < k then recs[i].start + recs[i].count < r.start else r.start + r.count < recs[i].start
  {
    if i < k - 1 {
      assert Before(Bno, recs[i], recs[k - 1]);
      assert recs[k - 1] in Elems(recs);
    } else if i > k {
      assert Before(Bno, recs[k], recs[i]);
      assert recs[k] in Elems(recs);
    }
  }

  lemma GapFits(recs: seq<Rec>, k: nat, r: Rec, l: Rec, g: Rec)
    requires Sorted(Bno, recs) && Apart(Elems(recs)) && k <= |recs| && r.count > 0
    requires LeftIs(recs, k, r, l) && RightIs(recs, k, r, g)
    ensures Fits(Elems(recs), l, r, g) && Between(Bno, recs, k, r)
  {
    hide Sorted, Apart;
    forall i | 0 <= i < |recs| {
      GapMisses(recs, k, r, l, g, i);
    }
    assert l in Elems(recs) || l.count == 0;
    assert g in Elems(recs) || g.count == 0;
  }

  /** An extent that overlaps r shows that r is not all in use. */
  lemma NotFree(s: set<Rec>, q: Rec, r: Rec)
    requires q in s && q.count > 0 && r.count > 0 && q.start < r.start + r.count && r.start < q.start + q.count
    ensures !(Blocks(r) !! Free(s))
  {
    var b := if q.start < r.start then r.start else q.start;
    InFree(s, q, b);
    assert Covers(r, b) && b in Blocks(r);
  }

  lemma LeSplits(recs: seq<Rec>, r: Rec, at: int, stat: bool)
    requires Found(Bno, LE, recs, r, at, stat)
    ensures SplitAt(recs, at + 1, r)
  {
  }

  /** Set the cursor to the last extent that starts no later than r; false if r is in it. */
  method LeftOf(t: Btree, cur: Cursor, r: Rec) returns (ok: bool, l: Rec)
    requires Good(t) && t.kind == Bno && cur.Fits() && cur.nlevels == t.nlevels && Apart(Held(t)) && r.count > 0
    modifies cur
    ensures AtLeaf(t, cur) && cur.ptrs[0] <= |t.lv[0][cur.pos[0]].ents| && cur.rec == r
    ensures -1 <= cur.At(t.lv, 0) && SplitAt(t.Recs(), cur.At(t.lv, 0) + 1, r)
    ensures if ok then LeftIs(t.Recs(), cur.At(t.lv, 0) + 1, r, l) else !(Blocks(r) !! Free(Held(t)))
  {
    cur.rec := r;
    ok, l := true, Rec(r.start, 0);
    var haveleft := Lookup(t, cur, LE);
    LeSplits(t.Recs(), r, cur.At(t.lv, 0), haveleft);
    if haveleft {
      var lt, stat := GetRec(t, cur);
      assert lt in Held(t);
      if lt.start + lt.count == r.start {
        l := lt;
      } else if lt.start + lt.count > r.start {
        NotFree(Held(t), lt, r);
        ok := false;
      }
    }
  }

  /** Move the cursor to the first extent that starts later than r; false if it starts in r. */
  method RightOf(t: Btree, cur: Cursor, r: Rec) returns (ok: bool, g: Rec)
    requires Good(t) && t.kind == Bno && AtLeaf(t, cur) && cur.ptrs[0] <= |t.lv[0][cur.pos[0]].ents|
    requires Apart(Held(t)) && r.count > 0 && -1 <= cur.At(t.lv, 0) && SplitAt(t.Recs(), cur.At(t.lv, 0) + 1, r)
    modifies cur
    ensures AtLeaf(t, cur) && cur.ptrs[0] >= 1 && cur.rec == old(cur.rec)
    ensures cur.At(t.lv, 0) == old(cur.At(t.lv, 0)) + 1
    ensures cur.At(t.lv, 0) < |t.Recs()| ==> cur.ptrs[0] <= |t.lv[0][cur.pos[0]].ents|
    ensures if ok then RightIs(t.Recs(), cur.At(t.lv, 0), r, g) else !(Blocks(r) !! Free(Held(t)))
  {
    ok, g := true, Rec(r.start + r.count, 0);
    var haveright := NextRec(t, cur);
    if haveright {
      var gt, stat := GetRec(t, cur);
      assert gt in Held(t);
      if r.start + r.count == gt.start {
        g := gt;
      } else if gt.start < r.start + r.count {
        NotFree(Held(t), gt, r);
        ok := false;
      }
    }
  }

  /** Find the free extents that touch r on either side; false if one overlaps it. The cursor goes between them. */
  method FindGap(t: Btree, cur: Cursor, r: Rec) returns (ok: bool, l: Rec, g: Rec)
    requires Good(t) && t.kind == Bno && cur.Fits() && cur.nlevels == t.nlevels && Apart(Held(t)) && r.count > 0
    modifies cur
    ensures ok == (Blocks(r) !! Free(Held(t)))
    ensures ok ==> Fits(Held(t), l, r, g) && AtGap(t, cur, l, r, g) && cur.rec == r
  {
    hide Fits, Apart;
    g := Rec(0, 0);
    ok, l := LeftOf(t, cur, r);
    if ok {
      ok, g := RightOf(t, cur, r);
    }
    if ok {
      GapFits(t.Recs(), cur.At(t.lv, 0), r, l, g);
      FitsFree(Held(t), l, r, g);
    }
  }

  lemma FitsFree(s: set<Rec>, l: Rec, r: Rec, g: Rec)
    requires Fits(s, l, r, g)
    ensures Blocks(r) !! Free(s)
  {
  }

  /** Records replaced in place by one that starts between the neighbours. */
  lemma SortedSet(recs: seq<Rec>, k: nat, n: Rec)
    requires k < |recs| && Sorted(Bno, recs)
    requires k > 0 ==> recs[k - 1].start < n.start
    requires n.start <= recs[k].start
    ensures Sorted(Bno, recs[k := n])
  {
    forall i | 0 <= i < |recs| && i != k ensures if i < k then Before(Bno, recs[i], n) else Before(Bno, n, recs[i]) {
      assert i < k - 1 ==> Before(Bno, recs[i], recs[k - 1]);
      assert i > k ==> Before(Bno, recs[k], recs[i]);
    }
  }

  /** Set the cursor back to the left neighbour and let that have the joined extent. */
  method GrowLeft(t: Btree, o: Btree, cur: Cursor, l: Rec, n: Rec)
    requires Pair(t, o) && t.kind == Bno && AtLeaf(t, cur) && cur.ptrs[0] >= 1
    requires 0 < cur.At(t.lv, 0) <= |t.Recs()| && t.Recs()[cur.At(t.lv, 0) - 1] == l && n.start == l.start
    modifies t`store, t`lv, t`longest, cur
    ensures Kept(t, o, old(Reserve(t, o)), old(t.fl.btreeblks + |t.fl.queue|)) && t.nlevels == old(t.nlevels)
    ensures Held(t) == old(Held(t)) - {l} + {n}
  {
    var i := PrevRec(t, cur);
    ghost var k := cur.At(t.lv, 0);
    assert k > 0 ==> Before(Bno, t.Recs()[k - 1], t.Recs()[k]);
    SortedSet(t.Recs(), k, n);
    UpdateAt(t, o, cur, n);
  }

  lemma NoneHeld(s: set<Rec>, l: Rec, r: Rec, g: Rec)
    requires Fits(s, l, r, g)
    ensures l.count == 0 ==> s - {l} == s
    ensures g.count == 0 ==> s - {g} == s
    ensures (l.count > 0 ==> l in s) && (g.count > 0 ==> g in s - {l})
    ensures l.start + l.count == r.start
    ensures l.count == 0 && g.count == 0 ==> Joined(l, r, g) == r
  {
  }

  /** With the right neighbour deleted, let the left one have the joined extent. */
  method JoinBoth(t: Btree, o: Btree, cur: Cursor, l: Rec, r: Rec, g: Rec) returns (ok: bool)
    requires Pair(t, o) && t.kind == Bno && AtGap(t, cur, l, r, g) && l.count > 0 && g.count > 0
    modifies t`store, t`lv, t`root, t`nlevels, t`longest, t.fl, t.fl.slots, cur
    ensures ok ==> Kept(t, o, old(Reserve(t, o)), old(t.fl.btreeblks + |t.fl.queue|))
    ensures ok ==> Held(t) == old(Held(t)) - {l} - {g} + {Joined(l, r, g)} && |t.fl.queue| >= old(|t.fl.queue|)
    ensures ok == (old(|t.fl.queue| + t.nlevels) <= t.fl.slots.Length)
  {
    ghost var res, counted := Reserve(t, o), t.fl.btreeblks + |t.fl.queue|;
    ok := DeleteAt(t, o, cur);
    if ok {
      hide Good, AtGap, Reserve;
      GrowLeft(t, o, cur, l, Joined(l, r, g));
      assert Kept(t, o, res, counted);
    }
  }

  /** With no neighbour that touches it, r is an extent of its own. */
  method JoinNone(t: Btree, o: Btree, cur: Cursor, ghost l: Rec, r: Rec, ghost g: Rec) returns (ok: bool)
    requires Pair(t, o) && t.kind == Bno && AtGap(t, cur, l, r, g) && cur.rec == r && Fits(Held(t), l, r, g)
    requires l.count == 0 && g.count == 0
    modifies t`store, t`lv, t`root, t`nlevels, t`longest, t.fl, t.fl.slots, cur
    ensures ok ==> Kept(t, o, old(Reserve(t, o)), old(t.fl.btreeblks + |t.fl.queue|)) && Held(t) == old(Held(t)) + {r}
    ensures old(|t.fl.queue| > t.nlevels) ==> ok
    ensures ok ==> old(|t.fl.queue|) <= |t.fl.queue| + old(t.nlevels) + 1
  {
    hide Good, Sorted, Reserve, Kept, Tied, Flat, Off, AllTied, Stores;
    GapLeaf(t, o, cur, l, r, g);
    ok := InsertAt(t, o, cur);
  }

  /** Put the extent joined from l, r and g into the by-block tree in place of l and g. */
  method JoinBno(t: Btree, o: Btree, cur: Cursor, l: Rec, r: Rec, g: Rec) returns (ok: bool)
    requires Pair(t, o) && t.kind == Bno && AtGap(t, cur, l, r, g) && cur.rec == r && Fits(Held(t), l, r, g)
    modifies t`store, t`lv, t`root, t`nlevels, t`longest, t.fl, t.fl.slots, cur
    ensures ok ==> Kept(t, o, old(Reserve(t, o)), old(t.fl.btreeblks + |t.fl.queue|))
    ensures ok ==> Held(t) == old(Held(t)) - {l} - {g} + {Joined(l, r, g)}
    ensures old(|t.fl.queue| + t.nlevels) <= t.fl.slots.Length && old(|t.fl.queue| > t.nlevels) ==> ok
    ensures ok ==> old(|t.fl.queue|) <= |t.fl.queue| + old(t.nlevels) + 1
  {
    hide Good, Sorted, Reserve, Kept, Fits, Tied, Flat, Off, AllTied, Stores;
    NoneHeld(Held(t), l, r, g);
    if l.count > 0 && g.count > 0 {
      ok := JoinBoth(t, o, cur, l, r, g);
    } else if l.count > 0 {
      GapLeaf(t, o, cur, l, r, g);
      GrowLeft(t, o, cur, l, Joined(l, r, g));
      ok := true;
    } else if g.count > 0 {
      GapLeaf(t, o, cur, l, r, g);
      UpdateAt(t, o, cur, Joined(l, r, g));
      ok := true;
    } else {
      ok := JoinNone(t, o, cur, l, r, g);
    }
  }

  lemma GapLeaf(t: Btree, o: Btree, cur: Cursor, l: Rec, r: Rec, g: Rec)
    requires Pair(t, o) && t.kind == Bno && AtGap(t, cur, l, r, g) && l.start + l.count == r.start
    ensures AtLeaf(t, cur)
    ensures l.count == 0 && g.count > 0 ==>
              cur.At(t.lv, 0) < |t.Recs()| && Sorted(Bno, t.Recs()[cur.At(t.lv, 0) := Joined(l, r, g)])
  {
    AtBounds(t, cur);
    if l.count == 0 && g.count > 0 {
      var k := cur.At(t.lv, 0);
      assert k > 0 ==> Before(Bno, t.Recs()[k - 1], r);
      assert Before(Bno, r, t.Recs()[k]);
      SortedSet(t.Recs(), k, Joined(l, r, g));
    }
  }

  /** Look up a record and delete it. */
  method DropRec(t: Btree, o: Btree, cur: Cursor, r: Rec) returns (ok: bool)
    requires Pair(t, o) && cur.Fits() && cur.nlevels == t.nlevels && r in Held(t)
    modifies t`store, t`lv, t`root, t`nlevels, t`longest, t.fl, t.fl.slots, cur
    ensures ok ==> Kept(t, o, old(Reserve(t, o)), old(t.fl.btreeblks + |t.fl.queue|))
    ensures ok ==> Held(t) == old(Held(t)) - {r} && cur.Fits() && cur.nlevels == t.nlevels <= old(t.nlevels)
    ensures ok ==> old(|t.fl.queue|) <= |t.fl.queue| <= old(|t.fl.queue| + t.nlevels)
    ensures ok == (old(|t.fl.queue| + t.nlevels) <= t.fl.slots.Length)
  {
    Seek(t, cur, r);
    ok := DeleteAt(t, o, cur);
  }

  /** Delete the by-size records of the neighbours. */
  method DropCnt(t: Btree, o: Btree, cur: Cursor, l: Rec, r: Rec, g: Rec) returns (ok: bool)
    requires Pair(t, o) && cur.Fits() && cur.nlevels == t.nlevels && Fits(Held(t), l, r, g)
    modifies t`store, t`lv, t`root, t`nlevels, t`longest, t.fl, t.fl.slots, cur
    ensures ok ==> Kept(t, o, old(Reserve(t, o)), old(t.fl.btreeblks + |t.fl.queue|))
    ensures ok ==> Held(t) == old(Held(t)) - {l} - {g} && cur.Fits() && cur.nlevels == t.nlevels <= old(t.nlevels)
    ensures ok ==> old(|t.fl.queue|) <= |t.fl.queue| <= old(|t.fl.queue| + 2 * t.nlevels)
    ensures old(|t.fl.queue| + 2 * t.nlevels) <= t.fl.slots.Length ==> ok
  {
    hide Good, Reserve, Fits;
    ghost var res, counted := Reserve(t, o), t.fl.btreeblks + |t.fl.queue|;
    NoneHeld(Held(t), l, r, g);
    ok := true;
    if l.count > 0 {
      ok := DropRec(t, o, cur, l);
    }
    if ok && g.count > 0 {
      ok := DropRec(t, o, cur, g);
    }
    assert ok ==> Kept(t, o, res, counted);
  }

  lemma GivenPlaced(s: set<Rec>, l: Rec, r: Rec, g: Rec, res: set<nat>, length: nat)
    requires Placed(s, res, length) && Fits(s, l, r, g) && Blocks(r) !! res && r.start + r.count <= length
    ensures Placed(s - {l} - {g} + {Joined(l, r, g)}, res, length)
    ensures Free(s - {l} - {g} + {Joined(l, r, g)}) == Free(s) + Blocks(r)
    ensures |Free(s) + Blocks(r)| == |Free(s)| + r.count
    ensures Absent(Cnt, s - {l} - {g}, Joined(l, r, g))
  {
    Given(s, l, r, g);
    BlocksSize(r);
    var s' := s - {l} - {g} + {Joined(l, r, g)};
    forall b | b in Free(s') + res ensures b < length {
      assert b in Free(s) + res || (b in Blocks(r) && Covers(r, b));
    }
    JoinedApart(s, l, r, g);
  }

  lemma PlacedApart(s: set<Rec>, res: set<nat>, length: nat)
    requires Placed(s, res, length)
    ensures Apart(s) && Free(s) !! res
  {
  }

  /** The blocks of r have come to the group's free extents, and nothing else has changed. */
  ghost predicate Come(ag: Ag, blocks: set<nat>, total: int, r: Rec)
    reads ag, ag.cnt, ag.bno, ag.cnt.fl, ag.cnt.fl.slots, ag.bno.fl, ag.bno.fl.slots, ag.fl
  {
    && ag.Valid()
    && ag.Blocks() == blocks + Blocks(r)
    && Total(ag) == total + r.count
  }

  /**
   * Give back the blocks of r. False if some of them are free already, or if the freelist runs out or
   * has no room; its least length is enough.
   */
  method FreeAgExtent(ag: Ag, r: Rec) returns (ok: bool)
    requires ag.Valid() && r.count > 0 && r.start + r.count <= ag.length && Blocks(r) !! Reserve(ag.cnt, ag.bno)
    modifies ag.cnt`store, ag.cnt`lv, ag.cnt`root, ag.cnt`nlevels, ag.cnt`longest
    modifies ag.bno`store, ag.bno`lv, ag.bno`root, ag.bno`nlevels, ag.bno`longest
    modifies ag.fl, ag.fl.slots, ag`freeblks
    ensures ok ==> old(Blocks(r) !! Free(ag.Extents()))
    ensures ok ==> Come(ag, old(ag.Blocks()), old(Total(ag)), r)
    ensures ok ==> Reserve(ag.cnt, ag.bno) == old(Reserve(ag.cnt, ag.bno)) && ag.freeblks == old(ag.freeblks) + r.count
    ensures old(Blocks(r) !! Free(ag.Extents()))
            && old(|ag.fl.queue|) >= (old(ag.bno.nlevels) + 1) + (old(ag.cnt.nlevels) + 1)
            && old(|ag.fl.queue| + 2 * ag.cnt.nlevels + ag.bno.nlevels) <= ag.fl.slots.Length
            ==> ok
  {
    hide Pair, Good, Reserve, Placed, Fits, AtGap, Apart, Blocks, Free, Kept, Absent, LastCount, SizesFrom, Held,
      LinkAt, Btree.Core;
    ghost var s, res, counted := ag.Extents(), Reserve(ag.cnt, ag.bno), ag.fl.btreeblks + |ag.fl.queue|;
    GoodTrees(ag);
    PlacedApart(s, res, ag.length);
    var bcur := new Cursor(ag.bno);
    var l, g;
    ok, l, g := FindGap(ag.bno, bcur, r);
    if !ok {
      return;
    }
    GivenPlaced(s, l, r, g, res, ag.length);
    var ccur := new Cursor(ag.cnt);
    ok := JoinTrees(ag, ccur, bcur, l, r, g, s);
    if ok {
      ag.freeblks := ag.freeblks + r.count;
    }
  }

  /** Replace the neighbours by the joined extent in both trees. */
  method JoinTrees(ag: Ag, ccur: Cursor, bcur: Cursor, l: Rec, r: Rec, g: Rec, ghost s: set<Rec>) returns (ok: bool)
    requires ag.Holds(s) && Fits(s, l, r, g) && ccur != bcur && ccur.Fits() && ccur.nlevels == ag.cnt.nlevels
    requires AtGap(ag.bno, bcur, l, r, g) && bcur.rec == r && Absent(Cnt, s - {l} - {g}, Joined(l, r, g))
    modifies ag.cnt`store, ag.cnt`lv, ag.cnt`root, ag.cnt`nlevels, ag.cnt`longest
    modifies ag.bno`store, ag.bno`lv, ag.bno`root, ag.bno`nlevels, ag.bno`longest
    modifies ag.fl, ag.fl.slots, ccur, bcur
    ensures ok ==> ag.Holds(s - {l} - {g} + {Joined(l, r, g)})
    ensures ok ==> Reserve(ag.cnt, ag.bno) == old(Reserve(ag.cnt, ag.bno))
    ensures ok ==> ag.fl.btreeblks + |ag.fl.queue| == old(ag.fl.btreeblks + |ag.fl.queue|)
    ensures old(|ag.fl.queue|) >= (old(ag.bno.nlevels) + 1) + (old(ag.cnt.nlevels) + 1)
            && old(|ag.fl.queue| + 2 * ag.cnt.nlevels + ag.bno.nlevels) <= ag.fl.slots.Length
            ==> ok
  {
    hide Pair, Good, Reserve, Fits, AtGap, Kept, Absent;
    ghost var res, counted := Reserve(ag.cnt, ag.bno), ag.fl.btreeblks + |ag.fl.queue|;
    ok := DropCnt(ag.cnt, ag.bno, ccur, l, r, g);
    if !ok {
      return;
    }
    Swap(ag.cnt, ag.bno, res, counted);
    ok := JoinBno(ag.bno, ag.cnt, bcur, l, r, g);
    if !ok {
      return;
    }
    Swap(ag.bno, ag.cnt, res, counted);
    ghost var k, b;
    ok, k, b := Add(ag.cnt, ag.bno, ccur, Joined(l, r, g));
    if ok {
      Swap(ag.cnt, ag.bno, res, counted);
      Swap(ag.bno, ag.cnt, res, counted);
    }
  }
}
