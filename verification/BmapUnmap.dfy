/** Unmapping a range of a file. */
module BmapUnmap {
  import opened Arith
  import opened ExtentMap
  import opened BmapFork
  import opened BmapIndlen
  import opened BmapDelay

  /** An extent of disk blocks to be freed. */
  datatype Item = Item(bno: nat, len: nat)

  /** The extents to free when the transaction is done, in order of their blocks. */
  class FreeItems {
    var items: seq<Item>

    constructor ()
      ensures items == []
    {
      items := [];
    }

    /** Put an extent in its place in the list. */
    method Add(bno: nat, len: nat)
      modifies this
      ensures ItemBlocks(items) == ItemBlocks(old(items)) + RunOf(bno, len)
      ensures |items| == |old(items)| + 1
      ensures SortedItems(old(items)) ==> SortedItems(items)
    {
      hide ItemBlocks, RunOf;
      var k := 0;
      while k < |items| && items[k].bno < bno
        invariant 0 <= k <= |items|
        invariant forall i :: 0 <= i < k ==> items[i].bno < bno
      {
        k := k + 1;
      }
      ItemsPut(items, k, Item(bno, len));
      SortedPut(items, k, Item(bno, len));
      items := items[..k] + [Item(bno, len)] + items[k..];
    }
  }

  ghost predicate SortedItems(items: seq<Item>) {
    forall i, j :: 0 <= i < j < |items| ==> items[i].bno <= items[j].bno
  }

  lemma SortedPut(items: seq<Item>, k: nat, e: Item)
    requires k <= |items| && forall i :: 0 <= i < k ==> items[i].bno < e.bno
    requires k < |items| ==> e.bno <= items[k].bno
    ensures SortedItems(items) ==> SortedItems(items[..k] + [e] + items[k..])
  {
    var s := items[..k] + [e] + items[k..];
    assert forall i :: 0 <= i < |s| ==> s[i] == if i < k then items[i] else if i == k then e else items[i - 1];
  }

  /** The len blocks from bno on, each once. */
  ghost function RunOf(bno: nat, len: nat): multiset<nat>
    decreases len
  {
    if len == 0 then multiset{} else multiset{bno} + RunOf(bno + 1, len - 1)
  }

  /** All blocks of the items, with as many copies as there are. */
  ghost function ItemBlocks(items: seq<Item>): multiset<nat> {
    if items == [] then multiset{} else RunOf(items[0].bno, items[0].len) + ItemBlocks(items[1..])
  }

  lemma {:induction false} ItemsPut(items: seq<Item>, k: nat, e: Item)
    requires k <= |items|
    ensures ItemBlocks(items[..k] + [e] + items[k..]) == ItemBlocks(items) + RunOf(e.bno, e.len)
  {
    hide RunOf;
    var s := items[..k] + [e] + items[k..];
    if k == 0 {
      assert s == [e] + items && s[1..] == items;
    } else {
      ItemsPut(items[1..], k - 1, e);
      assert s[1..] == items[1..][..k - 1] + [e] + items[1..][k - 1..];
    }
  }

  /** The blocks mapped at offsets lo to hi, each as often as it is mapped. */
  ghost function BlocksAt(exts: seq<Irec>, lo: int, hi: int): multiset<nat>
    decreases hi - lo
  {
    if lo >= hi then multiset{}
    else (if MapOf(exts, lo).Mapped? then multiset{MapOf(exts, lo).bno} else multiset{}) + BlocksAt(exts, lo + 1, hi)
  }

  lemma BlocksAtNext(exts: seq<Irec>, lo: int, hi: int)
    requires lo < hi && MapOf(exts, lo).Mapped?
    ensures BlocksAt(exts, lo, hi) == multiset{MapOf(exts, lo).bno} + BlocksAt(exts, lo + 1, hi)
  {
  }

  lemma RunNext(b: nat, n: nat)
    ensures RunOf(b, n) == if n == 0 then multiset{} else multiset{b} + RunOf(b + 1, n - 1)
  {
  }

  lemma {:induction false} BlocksAtNone(exts: seq<Irec>, lo: int, mid: int, hi: int)
    requires lo <= mid <= hi && forall o :: lo <= o < mid ==> !MapOf(exts, o).Mapped?
    ensures BlocksAt(exts, lo, hi) == BlocksAt(exts, mid, hi)
    decreases mid - lo
  {
    hide MapOf;
    if lo < mid {
      BlocksAtNone(exts, lo + 1, mid, hi);
    }
  }

  lemma {:induction false} BlocksAtRun(exts: seq<Irec>, lo: int, n: nat, hi: int, b: nat)
    requires lo + n <= hi
    requires forall o :: lo <= o < lo + n ==> MapOf(exts, o).Mapped? && MapOf(exts, o).bno == b + (o - lo)
    ensures BlocksAt(exts, lo, hi) == RunOf(b, n) + BlocksAt(exts, lo + n, hi)
    decreases n
  {
    hide MapOf, RunOf, BlocksAt;
    RunNext(b, n);
    if n > 0 {
      BlocksAtNext(exts, lo, hi);
      BlocksAtRun(exts, lo + 1, n - 1, hi, b + 1);
    }
  }

  /** d is part of extent number idx. */
  ghost predicate PartOf(exts: seq<Irec>, idx: nat, d: Irec) {
    && idx < |exts| && d.count > 0
    && exts[idx].startoff <= d.startoff && d.End() <= exts[idx].End()
    && d.start.Delay? == exts[idx].start.Delay?
    && (d.start.Block? ==> d.start.bno == exts[idx].start.bno + (d.startoff - exts[idx].startoff))
  }

  /** Nothing is where d was; nothing else is different. */
  ghost predicate Unmapped(exts: seq<Irec>, exts': seq<Irec>, lo: int, hi: int) {
    forall o: int {:trigger MapOf(exts', o)} :: MapOf(exts', o) == if lo <= o < hi then Hole else MapOf(exts, o)
  }

  /** What is left of an extent without d: nothing, one end, or both. */
  ghost predicate LeftOver(got: Irec, d: Irec, mid: seq<Irec>) {
    if got.startoff == d.startoff && got.End() == d.End() then mid == []
    else if got.startoff == d.startoff then
      && |mid| == 1 && mid[0].startoff == d.End() && mid[0].End() == got.End() && Cut(got, mid[0])
    else if got.End() == d.End() then
      && |mid| == 1 && mid[0].startoff == got.startoff && mid[0].End() == d.startoff && Cut(got, mid[0])
    else
      && |mid| == 2
      && mid[0].startoff == got.startoff && mid[0].End() == d.startoff && Cut(got, mid[0])
      && mid[1].startoff == d.End() && mid[1].End() == got.End() && Cut(got, mid[1])
  }

  /** r is like got but shorter. */
  predicate Cut(got: Irec, r: Irec) {
    && r.unwritten == got.unwritten
    && r.start.Delay? == got.start.Delay?
    && (r.start.Block? ==> r.startoff >= got.startoff && r.start.bno == got.start.bno + (r.startoff - got.startoff))
  }

  lemma LeftOverSums(exts: seq<Irec>, idx: nat, d: Irec, mid: seq<Irec>)
    requires PartOf(exts, idx, d) && LeftOver(exts[idx], d, mid)
    ensures Reserved(Splice(exts, idx, idx + 1, mid)) - Reserved(exts) == Reserved(mid) - IndlenOf(exts[idx])
    ensures DelayedBlocks(Splice(exts, idx, idx + 1, mid)) == DelayedBlocks(exts) - DelayedOf(d)
  {
    var got := exts[idx];
    assert exts[idx..idx + 1] == [got];
    SpliceSums(exts, idx, idx + 1, mid);
    SumsFew(got, got);
    if |mid| == 1 {
      assert mid == [mid[0]];
      SumsFew(mid[0], got);
    } else if |mid| == 2 {
      assert mid == [mid[0], mid[1]];
      SumsFew(mid[0], mid[1]);
    }
  }

  lemma LeftOverMap(exts: seq<Irec>, idx: nat, d: Irec, mid: seq<Irec>)
    requires Wf(exts) && PartOf(exts, idx, d) && LeftOver(exts[idx], d, mid)
    ensures Wf(Splice(exts, idx, idx + 1, mid))
    ensures Unmapped(exts, Splice(exts, idx, idx + 1, mid), d.startoff, d.End())
  {
    hide MapOf, Splice;
    var got, exts' := exts[idx], Splice(exts, idx, idx + 1, mid);
    assert exts[idx..idx + 1] == [got];
    assert mid == (if |mid| == 0 then [] else if |mid| == 1 then [mid[0]] else [mid[0], mid[1]]);
    SpliceWf(exts, idx, idx + 1, mid, got.startoff, got.End());
    forall o: int ensures MapOf(exts', o) == if d.startoff <= o < d.End() then Hole else MapOf(exts, o) {
      SpliceMap(exts, idx, idx + 1, mid, got.startoff, got.End(), o);
      MapFew(got, got, got, o);
      if |mid| == 1 {
        MapFew(mid[0], got, got, o);
      } else if |mid| == 2 {
        MapFew(mid[0], mid[1], got, o);
      } else {
        MapHole([], o);
      }
    }
  }

  /** Delete a record, or replace it by those left over. */
  method TreeDel(t: Bmbt, got: Irec, ghost a: seq<Irec>, ghost c: seq<Irec>)
    requires Wf(t.recs) && t.recs == a + [got] + c
    modifies t
    ensures t.recs == a + c
  {
    Locate(t, got.startoff, got.start, got.count, |a|);
    var i := t.Delete();
  }

  method TreeCut(t: Bmbt, got: Irec, r: Irec, ghost a: seq<Irec>, ghost c: seq<Irec>)
    requires Wf(t.recs) && t.recs == a + [got] + c
    modifies t
    ensures t.recs == a + [r] + c
  {
    Locate(t, got.startoff, got.start, got.count, |a|);
    t.Update(r.startoff, r.start, r.count, r.unwritten);
  }

  method TreeSplit(t: Bmbt, got: Irec, r: Irec, more: Irec, ghost a: seq<Irec>, ghost c: seq<Irec>)
    requires Wf(t.recs) && t.recs == a + [got] + c
    modifies t
    ensures t.recs == a + [r, more] + c
  {
    Locate(t, got.startoff, got.start, got.count, |a|);
    t.Update(r.startoff, r.start, r.count, r.unwritten);
    var i := t.Increment();
    t.rec := more;
    i := t.Insert();
  }

  /** Take blocks from the two shares in turn until they are no more than there were. */
  method ShareReserve(share: nat, share2: nat, most: nat) returns (temp: nat, temp2: nat)
    ensures temp + temp2 == if share + share2 <= most then share + share2 else most
    ensures temp <= share && temp2 <= share2
    ensures var n, n2 := share - temp, share2 - temp2; n2 <= n <= n2 + 1 || (temp == 0 && n < n2) || (temp2 == 0 && n > n2)
  {
    temp, temp2 := share, share2;
    while temp + temp2 > most
      invariant share - temp == share2 - temp2
                || (temp == 0 && share - temp < share2 - temp2) || (temp2 == 0 && share - temp > share2 - temp2)
      invariant temp <= share && temp2 <= share2
      invariant share + share2 <= most ==> temp == share && temp2 == share2
      invariant share + share2 > most ==> temp + temp2 >= most
    {
      if temp > 0 {
        temp := temp - 1;
      }
      if temp + temp2 == most {
        break;
      }
      if temp2 > 0 {
        temp2 := temp2 - 1;
      }
    }
  }

  /**
   * What is left of a delayed extent keeps of its reservation what it needs in the worst case, as far as that goes: two
   * parts give up what there is not in turn, as long as they have any.
   */
  ghost predicate Keeps(g: Geometry, got: Irec, mid: seq<Irec>)
    requires g.Proper()
  {
    got.start.Delay? ==>
      && (forall i :: 0 <= i < |mid| ==> mid[i].start.Delay?)
      && (|mid| == 1 ==> mid[0].start.indlen == Least(Worst(g, mid[0].count), got.start.indlen))
      && (|mid| == 2 ==> SharesOut(Worst(g, mid[0].count), Worst(g, mid[1].count), got.start.indlen,
                             mid[0].start.indlen, mid[1].start.indlen))
  }

  predicate SharesOut(share: nat, share2: nat, most: nat, temp: nat, temp2: nat) {
    var n, n2 := share - temp, share2 - temp2;
    && temp <= share && temp2 <= share2 && temp + temp2 == Least(share + share2, most)
    && (n2 <= n <= n2 + 1 || (temp == 0 && n < n2) || (temp2 == 0 && n > n2))
  }

  /** If the middle of the extent goes, both ends together need no more than it holds. */
  predicate EndsFit(g: Geometry, got: Irec, lo: int, hi: int)
    requires g.Proper()
  {
    got.start.Delay? && got.startoff < lo && hi < got.End() ==>
      Worst(g, lo - got.startoff) + Worst(g, got.End() - hi) <= got.start.indlen
  }

  /** What is left of a delayed extent that held its worst case does so too, but where its middle goes perhaps not. */
  lemma KeepsEnough(g: Geometry, exts: seq<Irec>, idx: nat, d: Irec, mid: seq<Irec>)
    requires g.Proper() && PartOf(exts, idx, d) && LeftOver(exts[idx], d, mid) && Keeps(g, exts[idx], mid)
    requires AllEnough(g, exts)
    ensures AllEnough(g, Splice(exts, idx, idx + 1, mid)) <==> EndsFit(g, exts[idx], d.startoff, d.End())
  {
    hide Worst;
    var s, got := Splice(exts, idx, idx + 1, mid), exts[idx];
    assert forall k :: 0 <= k < |s| ==>
        s[k] == if k < idx then exts[k] else if k < idx + |mid| then mid[k - idx] else exts[k - |mid| + 1];
    WorstMerged(g, if |mid| > 0 then mid[0].count else 0, got.count - if |mid| > 0 then mid[0].count else 0);
    assert HoldsEnough(g, got);
    assert |mid| > 0 ==> s[idx] == mid[0];
    assert |mid| > 1 ==> s[idx + 1] == mid[1];
  }

  lemma WorstFew()
    ensures Worst(Geometry(4, 4, 3), 1) == 3 == Worst(Geometry(4, 4, 3), 3)
  {
    hide Levels;
    LevelsOne(4, 4, 3);
    LevelsOne(4, 4, 2);
    LevelsNext(3, 4, 4, 3);
    ModIs(6, 4, 1, 2);
  }

  lemma LevelsNext(len: nat, first: nat, rest: nat, n: nat)
    requires first > 0 && rest > 0 && n > 0
    ensures Levels(len, first, rest, n) == CeilDiv(len, first) + Levels(CeilDiv(len, first), rest, rest, n - 1)
  {
  }

  /** Of three delayed blocks with three blocks reserved, what the middle one leaves needs six. */
  lemma MiddleMisses()
    ensures var g, e := Geometry(4, 4, 3), Irec(0, Delay(3), 3, false);
            AllEnough(g, [e]) && !EndsFit(g, e, 1, 2)
  {
    hide Worst;
    WorstFew();
  }

  /** What deleting d does to the list and to what goes with it. */
  ghost predicate Deleted(f: Fork, exts: seq<Irec>, idx: nat, d: Irec, mid: seq<Irec>)
    reads f, f.tree
  {
    && PartOf(exts, idx, d) && LeftOver(exts[idx], d, mid)
    && f.exts == Splice(exts, idx, idx + 1, mid)
    && f.nextents == |Reals(f.exts)|
    && (f.tree != null ==> f.tree.recs == Reals(f.exts))
    && f.lastex == if |mid| == 2 then idx + 1 else idx
  }

  /** Of extents that are all delayed, or all not, none are in the btree, or all. */
  lemma {:induction false} RealsAlike(mid: seq<Irec>, delayed: bool)
    requires forall i :: 0 <= i < |mid| ==> mid[i].start.Delay? == delayed
    ensures Reals(mid) == if delayed then [] else mid
  {
    if mid != [] {
      RealsAlike(mid[1..], delayed);
    }
  }

  lemma RealsLeft(exts: seq<Irec>, idx: nat, mid: seq<Irec>)
    requires Wf(exts) && idx < |exts| && |mid| <= 2
    requires forall i :: 0 <= i < |mid| ==> mid[i].start.Delay? == exts[idx].start.Delay?
    ensures Wf(Reals(exts))
    ensures Reals(exts) == Reals(exts[..idx]) + (if exts[idx].start.Delay? then [] else [exts[idx]]) + Reals(exts[idx + 1..])
    ensures Reals(Splice(exts, idx, idx + 1, mid)) ==
            Reals(exts[..idx]) + (if exts[idx].start.Delay? then [] else mid) + Reals(exts[idx + 1..])
  {
    hide Wf, Reals, Splice;
    RealsWf(exts);
    SpliceReals(exts, idx, idx + 1, mid);
    assert exts[idx..idx + 1] == [exts[idx]];
    RealsAlike([exts[idx]], exts[idx].start.Delay?);
    RealsAlike(mid, exts[idx].start.Delay?);
  }

  /** The extent as a whole goes. */
  method DelWhole(f: Fork, idx: nat, d: Irec)
    requires f.Valid() && PartOf(f.exts, idx, d) && f.exts[idx].startoff == d.startoff && f.exts[idx].End() == d.End()
    modifies f, f.tree
    ensures Deleted(f, old(f.exts), idx, d, [])
  {
    hide Wf;
    ghost var exts := f.exts;
    var got := f.exts[idx];
    RealsLeft(exts, idx, []);
    f.Remove(idx, 1);
    f.lastex := idx;
    if got.start.Block? {
      f.nextents := f.nextents - 1;
      if f.tree != null {
        TreeDel(f.tree, got, Reals(exts[..idx]), Reals(exts[idx + 1..]));
      }
    }
  }

  /** One end of the extent goes; r is what is left. */
  method DelEnd(f: Fork, idx: nat, d: Irec, r: Irec)
    requires f.Valid() && PartOf(f.exts, idx, d) && LeftOver(f.exts[idx], d, [r])
    modifies f, f.tree
    ensures Deleted(f, old(f.exts), idx, d, [r])
  {
    hide Wf;
    ghost var exts := f.exts;
    var got := f.exts[idx];
    RealsLeft(exts, idx, [r]);
    f.exts := f.exts[idx := r];
    f.lastex := idx;
    assert f.exts == Splice(exts, idx, idx + 1, [r]);
    if got.start.Block? && f.tree != null {
      TreeCut(f.tree, got, r, Reals(exts[..idx]), Reals(exts[idx + 1..]));
    }
  }

  /** The middle of the extent goes; r and more are left. */
  method DelMiddle(f: Fork, idx: nat, d: Irec, r: Irec, more: Irec)
    requires f.Valid() && PartOf(f.exts, idx, d) && LeftOver(f.exts[idx], d, [r, more])
    modifies f, f.tree
    ensures Deleted(f, old(f.exts), idx, d, [r, more])
  {
    hide Wf;
    ghost var exts := f.exts;
    var got := f.exts[idx];
    RealsLeft(exts, idx, [r, more]);
    f.exts := f.exts[idx := r];
    if got.start.Block? {
      if f.tree != null {
        TreeSplit(f.tree, got, r, more, Reals(exts[..idx]), Reals(exts[idx + 1..]));
      }
      f.nextents := f.nextents + 1;
    }
    f.InsertExts(idx + 1, [more]);
    f.lastex := idx + 1;
    assert f.exts == Splice(exts, idx, idx + 1, [r, more]);
  }

  /** Everything deleting part of extent idx does: list, map, reservations, blocks to free. */
  ghost predicate Gone(exts: seq<Irec>, exts': seq<Irec>, idx: nat, d: Irec) {
    && Wf(exts') && Unmapped(exts, exts', d.startoff, d.End())
    && DelayedBlocks(exts') == DelayedBlocks(exts) - DelayedOf(d)
    && idx < |exts| && idx <= |exts'| && exts'[..idx] == exts[..idx]
    && (exts[idx].startoff == d.startoff && idx < |exts'| ==> d.End() <= exts'[idx].startoff)
  }

  lemma DeletedGone(f: Fork, exts: seq<Irec>, idx: nat, d: Irec, mid: seq<Irec>)
    requires Wf(exts) && Deleted(f, exts, idx, d, mid)
    ensures Gone(exts, f.exts, idx, d) && f.Valid()
    ensures Reserved(f.exts) - Reserved(exts) == Reserved(mid) - IndlenOf(exts[idx])
    ensures exts[idx].startoff == d.startoff ==> f.lastex == idx
  {
    LeftOverMap(exts, idx, d, mid);
    LeftOverSums(exts, idx, d, mid);
    if exts[idx].startoff == d.startoff && idx + 1 < |exts| {
      assert exts[idx].End() <= exts[idx + 1].startoff;
    }
  }

  /**
   * Remove d, part of extent idx. Its blocks go on the list of those to free; what a delayed extent had reserved and
   * what is left of it does not need is free at once.
   */
  method DelExtent(f: Fork, mp: Mount, flist: FreeItems, idx: nat, d: Irec) returns (ghost mid: seq<Irec>)
    requires f.Valid() && PartOf(f.exts, idx, d) && mp.geo.Proper()
    modifies f, f.tree, mp, flist
    ensures Deleted(f, old(f.exts), idx, d, mid) && Keeps(mp.geo, old(f.exts[idx]), mid)
    ensures AllEnough(mp.geo, old(f.exts)) ==>
              (AllEnough(mp.geo, f.exts) <==> EndsFit(mp.geo, old(f.exts[idx]), d.startoff, d.End()))
    ensures f.Valid() && Gone(old(f.exts), f.exts, idx, d)
    ensures old(f.exts[idx].startoff) == d.startoff ==> f.lastex == idx
    ensures mp.fdblocks + Reserved(f.exts) == old(mp.fdblocks + Reserved(f.exts))
    ensures mp.fdblocks >= old(mp.fdblocks)
    ensures ItemBlocks(flist.items) == old(ItemBlocks(flist.items))
                                       + if d.start.Block? then RunOf(d.start.bno, d.count) else multiset{}
  {
    hide Wf, Splice, Unmapped, MapOf, DelayedBlocks, Reserved, RunOf, ItemBlocks, Worst, AllEnough, EndsFit;
    ghost var exts := f.exts;
    var got := f.exts[idx];
    var delay := got.start.Delay?;
    var daOld, daNew := if delay then got.start.indlen else 0, 0;
    if got.startoff == d.startoff && got.End() == d.End() {
      mid := [];
      DelWhole(f, idx, d);
    } else if got.startoff == d.startoff || got.End() == d.End() {
      var temp := got.count - d.count;
      var startoff := if got.startoff == d.startoff then d.End() else got.startoff;
      var start := got.start;
      if delay {
        var worst := WorstIndlen(mp.geo, temp);
        daNew := if worst < daOld then worst else daOld;
        start := Delay(daNew);
      } else if got.startoff == d.startoff {
        start := Block(d.start.bno + d.count);
      }
      mid := [Irec(startoff, start, temp, got.unwritten)];
      DelEnd(f, idx, d, Irec(startoff, start, temp, got.unwritten));
    } else {
      var temp, temp2 := d.startoff - got.startoff, got.End() - d.End();
      var start, start2 := got.start, Block(0);
      if delay {
        var worst := WorstIndlen(mp.geo, temp);
        var worst2 := WorstIndlen(mp.geo, temp2);
        var share, share2 := ShareReserve(worst, worst2, daOld);
        start, start2, daNew := Delay(share), Delay(share2), share + share2;
      } else {
        start2 := Block(d.start.bno + d.count);
      }
      var r, more := Irec(got.startoff, start, temp, got.unwritten), Irec(d.End(), start2, temp2, got.unwritten);
      mid := [r, more];
      DelMiddle(f, idx, d, r, more);
    }
    DeletedGone(f, exts, idx, d, mid);
    MidReserved(mid, daNew);
    if AllEnough(mp.geo, exts) {
      KeepsEnough(mp.geo, exts, idx, d, mid);
    }
    if !delay {
      flist.Add(d.start.bno, d.count);
    }
    if daOld > daNew {
      mp.fdblocks := mp.fdblocks + (daOld - daNew);
    }
  }

  lemma MidReserved(mid: seq<Irec>, n: nat)
    requires |mid| <= 2
    requires n == (if |mid| > 0 then IndlenOf(mid[0]) else 0) + if |mid| > 1 then IndlenOf(mid[1]) else 0
    ensures Reserved(mid) == n
  {
    if |mid| == 1 {
      assert mid == [mid[0]];
      SumsFew(mid[0], mid[0]);
    } else if |mid| == 2 {
      assert mid == [mid[0], mid[1]];
      SumsFew(mid[0], mid[1]);
    }
  }

  /** The walk has come down to offset bno: extents after lastx start after it, those before lastx end by then. */
  ghost predicate DownTo(exts: seq<Irec>, bno: int, lastx: int) {
    && -1 <= lastx < |exts|
    && (forall i :: 0 <= i < lastx ==> exts[i].End() <= bno + 1)
    && (forall i :: 0 <= i < |exts| && lastx < i ==> bno < exts[i].startoff)
  }

  /** No extent lies between where the walk was and the end of the next one. */
  lemma StepOver(exts: seq<Irec>, bno: int, lastx: int, o: int)
    requires Wf(exts) && DownTo(exts, bno, lastx) && o <= bno
    requires lastx >= 0 ==> exts[lastx].End() <= o || bno < exts[lastx].startoff
    requires lastx >= 0 && bno < exts[lastx].startoff ==> lastx == 0 || exts[lastx - 1].End() <= o
    ensures MapOf(exts, o) == Hole
  {
    MapHole(exts, o);
    assert lastx > 0 ==> forall i :: 0 <= i < lastx - 1 ==> exts[i].End() <= exts[lastx - 1].startoff;
    assert lastx > 0 ==> exts[lastx - 1].End() <= exts[lastx].startoff;
    assert lastx > 0 ==> exts[lastx - 1].startoff < exts[lastx - 1].End();
  }

  /** The range from stop to end is unmapped, and its blocks are on the list. */
  ghost predicate Progress(exts0: seq<Irec>, exts: seq<Irec>, free0: multiset<nat>, items: seq<Item>, stop: int, end: int) {
    && stop <= end && Wf(exts)
    && Unmapped(exts0, exts, stop, end)
    && ItemBlocks(items) == free0 + BlocksAt(exts0, stop, end)
  }

  /** Holes can be counted as unmapped. */
  lemma ProgressHoles(exts0: seq<Irec>, exts: seq<Irec>, free0: multiset<nat>, items: seq<Item>, stop: int, end: int, lo: int)
    requires Progress(exts0, exts, free0, items, stop, end) && lo <= stop
    requires forall o :: lo <= o < stop ==> MapOf(exts, o) == Hole
    ensures Progress(exts0, exts, free0, items, lo, end)
  {
    hide MapOf, ItemBlocks, BlocksAt;
    forall o | lo <= o < stop ensures MapOf(exts0, o) == Hole {
      assert MapOf(exts, o) == Hole;
    }
    BlocksAtNone(exts0, lo, stop, end);
  }

  /** One more extent, or part of one, has been unmapped. */
  lemma ProgressMore(exts0: seq<Irec>, exts: seq<Irec>, exts': seq<Irec>, free0: multiset<nat>, items: seq<Item>,
      items': seq<Item>,
                     idx: nat, d: Irec, end: int)
    requires Progress(exts0, exts, free0, items, d.End(), end) && PartOf(exts, idx, d)
    requires Wf(exts') && Unmapped(exts, exts', d.startoff, d.End())
    requires ItemBlocks(items') == ItemBlocks(items) + if d.start.Block? then RunOf(d.start.bno, d.count) else multiset{}
    ensures Progress(exts0, exts', free0, items', d.startoff, end)
  {
    hide MapOf, ItemBlocks, BlocksAt;
    forall o | d.startoff <= o < d.End() ensures MapOf(exts0, o) == MapIn(exts[idx], o) {
      MapAt(exts, idx, o);
      assert MapOf(exts, o) == MapOf(exts0, o);
    }
    forall o: int ensures MapOf(exts', o) == if d.startoff <= o < end then Hole else MapOf(exts0, o) {
      assert MapOf(exts, o) == if d.End() <= o < end then Hole else MapOf(exts0, o);
    }
    if d.start.Block? {
      BlocksAtRun(exts0, d.startoff, d.count, end, d.start.bno);
    } else {
      BlocksAtNone(exts0, d.startoff, d.End(), end);
    }
  }

  /** The part of extent got to delete: what lies in the range from start to bno. */
  function DelPart(got: Irec, start: nat, bno: nat): Irec
    requires got.startoff <= bno && start <= bno < got.End()
  {
    var startoff := if got.startoff < start then start else got.startoff;
    var first := if got.start.Block? then Block(got.start.bno + (startoff - got.startoff)) else got.start;
    Irec(startoff, first, bno + 1 - startoff, got.unwritten)
  }

  /** After a delete at lastx that did not reach the start of the range, the walk goes on one extent down. */
  lemma WalkOn(exts: seq<Irec>, exts': seq<Irec>, lastx: nat, d: Irec, bno: int)
    requires Wf(exts) && DownTo(exts, bno, lastx) && PartOf(exts, lastx, d) && d.End() == bno + 1
    requires Gone(exts, exts', lastx, d) && exts[lastx].startoff == d.startoff
    ensures DownTo(exts', d.startoff - 1, lastx - 1)
    ensures lastx < |exts'| ==> exts'[lastx].startoff > d.startoff - 1
  {
    assert forall i :: 0 <= i < lastx ==> exts'[i] == exts'[..lastx][i] == exts[i];
    forall i | 0 <= i < lastx - 1 ensures exts'[i].End() <= d.startoff {
      assert exts[i].End() <= exts[lastx].startoff;
    }
    forall i | lastx - 1 < i < |exts'| ensures d.startoff - 1 < exts'[i].startoff {
      assert i > lastx ==> exts'[lastx].startoff < exts'[lastx].End() <= exts'[i].startoff;
    }
  }

  lemma Starting(exts0: seq<Irec>, items: seq<Item>, end: int)
    requires Wf(exts0)
    ensures Progress(exts0, exts0, ItemBlocks(items), items, end, end)
  {
  }

  /** Where the search ends: at an extent, or after the last one. */
  lemma FirstDown(exts0: seq<Irec>, free0: multiset<nat>, items: seq<Item>, bno: int, last: nat, start: int, end: int)
    requires Wf(exts0) && FirstAfter(exts0, bno, last) && bno + 1 == end && start <= bno
    requires Progress(exts0, exts0, free0, items, end, end)
    ensures last < |exts0| ==> DownTo(exts0, bno, last)
    ensures last == |exts0| ==>
              var bno' := if last == 0 then start - 1 else exts0[last - 1].End() - 1;
              && Progress(exts0, exts0, free0, items, if bno' < start then start else bno' + 1, end)
              && bno' <= bno
              && (last > 0 ==> DownTo(exts0, bno', last - 1))
  {
    hide MapOf, BlocksAt, ItemBlocks, Unmapped;
    if last == |exts0| {
      var bno' := if last == 0 then start - 1 else exts0[last - 1].End() - 1;
      var stop := if bno' < start then start else bno' + 1;
      forall o | stop <= o < end ensures MapOf(exts0, o) == Hole {
        MapHole(exts0, o);
        assert forall i :: 0 <= i < last - 1 ==> exts0[i].End() <= exts0[last - 1].startoff;
      }
      ProgressHoles(exts0, exts0, free0, items, end, end, stop);
      assert last > 0 ==> forall i :: 0 <= i < last - 1 ==> exts0[i].End() <= exts0[last - 1].startoff;
    }
  }

  /** Backing up over a hole to the end of an extent. */
  lemma Backed(exts0: seq<Irec>, exts: seq<Irec>, free0: multiset<nat>, items: seq<Item>,
               bno0: int, lastx0: int, bno: int, lastx: int, start: int, end: int)
    requires Progress(exts0, exts, free0, items, bno0 + 1, end) && DownTo(exts, bno0, lastx0) && 0 <= lastx0 && start <= bno0
    requires lastx == if exts[lastx0].startoff > bno0 then lastx0 - 1 else lastx0
    requires lastx >= 0 ==> bno == if exts[lastx].End() - 1 < bno0 then exts[lastx].End() - 1 else bno0
    requires lastx < 0 ==> bno == bno0
    ensures lastx >= 0 ==> Progress(exts0, exts, free0, items, if bno < start then start else bno + 1, end)
    ensures lastx >= 0 && bno >= start ==> DownTo(exts, bno, lastx) && exts[lastx].startoff <= bno < exts[lastx].End()
    ensures lastx < 0 ==> DownTo(exts, bno, lastx)
  {
    hide MapOf, BlocksAt, ItemBlocks, Unmapped;
    if lastx >= 0 {
      var stop := if bno < start then start else bno + 1;
      forall o | stop <= o < bno0 + 1 ensures MapOf(exts, o) == Hole {
        StepOver(exts, bno0, lastx0, o);
      }
      ProgressHoles(exts0, exts, free0, items, bno0 + 1, end, stop);
      assert forall i :: 0 <= i < lastx ==> exts[i].End() <= exts[lastx].startoff;
    }
  }

  /** With no extent left below, the rest of the range is a hole. */
  lemma AllBelow(exts0: seq<Irec>, exts: seq<Irec>, free0: multiset<nat>, items: seq<Item>, bno: int, start: int, end: int)
    requires Progress(exts0, exts, free0, items, bno + 1, end) && DownTo(exts, bno, -1) && start <= bno
    ensures Progress(exts0, exts, free0, items, start, end)
  {
    hide BlocksAt, ItemBlocks, Unmapped;
    forall o | start <= o < bno + 1 ensures MapOf(exts, o) == Hole {
      MapHole(exts, o);
    }
    ProgressHoles(exts0, exts, free0, items, bno + 1, end, start);
  }

  lemma DelPartOf(exts: seq<Irec>, lastx: nat, start: nat, bno: nat)
    requires lastx < |exts| && exts[lastx].startoff <= bno && start <= bno < exts[lastx].End()
    ensures var d := DelPart(exts[lastx], start, bno);
            PartOf(exts, lastx, d) && d.End() == bno + 1 && start <= d.startoff
                && (d.startoff > start ==> d.startoff == exts[lastx].startoff)
  {
  }

  lemma NotPast(f: Fork)
    requires f.Valid()
    ensures f.nextents <= |f.exts|
  {
    RealsFewer(f.exts);
  }

  lemma {:induction false} RealsFewer(exts: seq<Irec>)
    ensures |Reals(exts)| <= |exts|
  {
    if exts != [] {
      RealsFewer(exts[1..]);
    }
  }

  /** Extents a to b of a list are those that have offsets from lo to hi. */
  ghost predicate Hits(exts: seq<Irec>, lo: int, hi: int, a: int, b: int) {
    && 0 <= a <= b <= |exts|
    && forall i :: 0 <= i < |exts| ==> (a <= i < b <==> exts[i].startoff < hi && lo < exts[i].End())
  }

  /** The walk down a list has met extents a to b, and what is before them is as it was. */
  ghost predicate Met(exts0: seq<Irec>, exts: seq<Irec>, a: int, b: int, stop: int, end: int) {
    && 0 <= a <= b <= |exts0| && a <= |exts| && exts[..a] == exts0[..a]
    && (forall i :: a <= i < b ==> exts0[i].startoff < end && stop < exts0[i].End())
    && (forall i :: b <= i < |exts0| ==> end <= exts0[i].startoff)
  }

  /** The extents before a end no later than stop. */
  ghost predicate EndBy(exts: seq<Irec>, a: int, stop: int) {
    forall i :: 0 <= i < |exts| && i < a ==> exts[i].End() <= stop
  }

  /** The walk is at the last extent not met, or at the one after a hole that it is in. */
  ghost predicate WalkAt(exts: seq<Irec>, bno: int, lastx: int, a: int) {
    && 0 <= a <= |exts|
    && if lastx == a then a < |exts| && exts[a].startoff > bno
       else lastx == a - 1 && (a > 0 ==> exts[a - 1].startoff <= bno)
  }

  /** Where the walk begins. */
  function Above(exts: seq<Irec>, bno: nat, last: nat): nat {
    if last < |exts| && exts[last].startoff <= bno then last + 1 else last
  }

  lemma MetNone(exts: seq<Irec>, bno: nat, last: nat)
    requires Wf(exts) && FirstAfter(exts, bno, last)
    ensures Met(exts, exts, Above(exts, bno, last), Above(exts, bno, last), bno + 1, bno + 1)
    ensures last < |exts| ==> WalkAt(exts, bno, last, Above(exts, bno, last))
    ensures last == |exts| > 0 ==> WalkAt(exts, exts[last - 1].End() - 1, last - 1, last)
    ensures last == |exts| > 0 ==> EndBy(exts, last, exts[last - 1].End())
  {
    if last == |exts| > 0 {
      forall i | 0 <= i < last - 1 ensures exts[i].End() <= exts[last - 1].End() {
        assert exts[i].End() <= exts[last - 1].startoff;
      }
    }
  }

  /** The walk comes down over a hole. */
  lemma MetDown(exts0: seq<Irec>, exts: seq<Irec>, a: int, b: int, stop: int, end: int, lo: int)
    requires Met(exts0, exts, a, b, stop, end) && lo <= stop
    ensures Met(exts0, exts, a, b, lo, end)
  {
  }

  lemma EndByLast(exts0: seq<Irec>, exts: seq<Irec>, a: int, stop: int)
    requires Wf(exts0) && 0 <= a <= |exts0| && a <= |exts| && exts[..a] == exts0[..a]
    requires a > 0 ==> exts[a - 1].End() <= stop
    ensures EndBy(exts0, a, stop)
  {
    if a > 0 {
      assert exts[..a][a - 1] == exts0[a - 1];
      forall i | 0 <= i < a - 1 ensures exts0[i].End() <= stop {
        assert exts0[i].End() <= exts0[a - 1].startoff;
      }
    }
  }

  /** The walk has met one more extent. */
  lemma MetMore(exts0: seq<Irec>, exts: seq<Irec>, exts': seq<Irec>, k: nat, b: int, stop: int, end: int, start: nat, at: nat)
    requires Wf(exts0) && Met(exts0, exts, k + 1, b, stop, end) && k < |exts| && start <= at < stop <= end
    requires exts[k].startoff <= at < exts[k].End() && Gone(exts, exts', k, DelPart(exts[k], start, at))
    ensures Met(exts0, exts', k, b, DelPart(exts[k], start, at).startoff, end)
    ensures EndBy(exts0, k, DelPart(exts[k], start, at).startoff)
    ensures DelPart(exts[k], start, at).startoff > start ==> WalkAt(exts', DelPart(exts[k], start, at).startoff - 1, k - 1, k)
  {
    assert exts[k] == exts[..k + 1][k] == exts0[k];
    assert exts'[..k] == exts[..k] == exts[..k + 1][..k] == exts0[..k];
    assert forall i :: 0 <= i < k ==> exts0[i].End() <= exts0[k].startoff;
    if k > 0 {
      assert exts'[k - 1] == exts'[..k][k - 1] == exts0[k - 1];
    }
  }

  lemma MetAll(exts0: seq<Irec>, exts: seq<Irec>, a: int, b: int, stop: int, end: int)
    requires Met(exts0, exts, a, b, stop, end) && EndBy(exts0, a, stop)
    ensures Hits(exts0, stop, end, a, b)
  {
  }

  /** No delayed extent that the range lies in the middle of needs more for both ends than it holds. */
  ghost predicate AllFit(g: Geometry, exts: seq<Irec>, lo: int, hi: int)
    requires g.Proper()
  {
    forall i :: 0 <= i < |exts| ==> EndsFit(g, exts[i], lo, hi)
  }

  /** Before the walk meets an extent nothing has changed; only the first one it meets may go on past the range. */
  ghost predicate Front(exts0: seq<Irec>, exts: seq<Irec>, a: int, b: int, bno: int, end: int) {
    && (a == b ==> exts == exts0)
    && (EndBy(exts0, a, bno + 1) || (a == b && bno + 1 == end))
  }

  /** If all delayed extents held their worst case, they still do, unless the range was in the middle of one. */
  ghost predicate StillEnough(g: Geometry, exts0: seq<Irec>, exts: seq<Irec>, a: int, b: int, start: int, end: int)
    requires g.Proper()
  {
    AllEnough(g, exts0) ==> (AllEnough(g, exts) <==> a == b || AllFit(g, exts0, start, end))
  }

  lemma EnoughNext(g: Geometry, exts0: seq<Irec>, exts: seq<Irec>, exts': seq<Irec>, k: nat, b: int, bno0: int, at: int,
                   start: nat, end: int)
    requires g.Proper() && Wf(exts0) && Met(exts0, exts, k + 1, b, at + 1, end) && k < |exts|
    requires exts[k].startoff <= at && start <= at <= bno0 < end
    requires at == if exts[k].End() - 1 < bno0 then exts[k].End() - 1 else bno0
    requires Front(exts0, exts, k + 1, b, bno0, end) && StillEnough(g, exts0, exts, k + 1, b, start, end)
    requires AllEnough(g, exts) ==> (AllEnough(g, exts') <==> EndsFit(g, exts[k], start, at + 1))
    requires at < exts[k].End()
    ensures StillEnough(g, exts0, exts', k, b, start, end)
  {
    hide Worst;
    assert exts[k] == exts[..k + 1][k] == exts0[k];
    if k + 1 == b {
      assert EndsFit(g, exts0[k], start, end) <==> EndsFit(g, exts0[k], start, at + 1);
      forall i | 0 <= i < |exts0| && i != k ensures EndsFit(g, exts0[i], start, end) {
        assert if i < k then exts0[i].End() <= exts0[k].startoff else exts0[k].End() <= exts0[i].startoff;
      }
    } else if AllEnough(g, exts0) {
      forall i | 0 <= i < |exts0| ensures EndsFit(g, exts0[i], start, end) {
        assert i > k ==> exts0[k].End() <= exts0[i].startoff;
      }
    }
  }

  lemma EnoughStart(g: Geometry, exts: seq<Irec>, a: int, start: int, end: int)
    requires g.Proper()
    ensures StillEnough(g, exts, exts, a, a, start, end)
  {
  }

  lemma FrontNext(exts0: seq<Irec>, exts: seq<Irec>, a: int, b: int, bno: int, end: int)
    requires a < b && EndBy(exts0, a, bno + 1)
    ensures Front(exts0, exts, a, b, bno, end)
  {
  }

  lemma EnoughAll(g: Geometry, exts0: seq<Irec>, exts: seq<Irec>, a: int, b: int, start: int, stop: int, end: int)
    requires g.Proper() && start < end && Hits(exts0, stop, end, a, b) && StillEnough(g, exts0, exts, a, b, start, end)
    requires a == b ==> stop == start
    ensures AllEnough(g, exts0) ==> (AllEnough(g, exts) <==> AllFit(g, exts0, start, end))
  {
    hide Worst;
  }

  /** One round: delete what lies in the range of the extent the walk is at. */
  method UnmapAt(f: Fork, mp: Mount, flist: FreeItems, start: nat, bno0: nat, lastx0: nat,
                 ghost exts0: seq<Irec>, ghost free0: multiset<nat>, ghost end: int) returns (bno: int, lastx: int)
    requires f.Valid() && mp.geo.Proper() && start <= bno0
    requires Progress(exts0, f.exts, free0, flist.items, bno0 + 1, end) && DownTo(f.exts, bno0, lastx0)
    requires lastx0 < |f.exts| && f.exts[lastx0].startoff <= bno0 < f.exts[lastx0].End()
    modifies f, f.tree, mp, flist
    ensures f.Valid() && start - 1 <= bno < bno0
    ensures Gone(old(f.exts), f.exts, lastx0, DelPart(old(f.exts[lastx0]), start, bno0))
    ensures bno == DelPart(old(f.exts[lastx0]), start, bno0).startoff - 1 && (bno >= start ==> lastx == lastx0 - 1)
    ensures Progress(exts0, f.exts, free0, flist.items, bno + 1, end)
    ensures bno >= start ==> DownTo(f.exts, bno, lastx)
    ensures AllEnough(mp.geo, old(f.exts)) ==>
              (AllEnough(mp.geo, f.exts) <==> EndsFit(mp.geo, old(f.exts[lastx0]), start, bno0 + 1))
    ensures mp.fdblocks + Reserved(f.exts) + DelayedBlocks(f.exts) == old(mp.fdblocks + Reserved(f.exts) + DelayedBlocks(f.exts))
  {
    hide Unmapped, MapOf, DelayedBlocks, Reserved, RunOf, ItemBlocks, BlocksAt, PartOf, DownTo, Wf, AllEnough;
    ghost var exts, items := f.exts, flist.items;
    var got := f.exts[lastx0];
    var d := DelPart(got, start, bno0);
    DelPartOf(exts, lastx0, start, bno0);
    ghost var mid := DelExtent(f, mp, flist, lastx0, d);
    if d.start.Delay? {
      mp.fdblocks := mp.fdblocks + d.count;
    }
    bno := d.startoff - 1;
    ProgressMore(exts0, exts, f.exts, free0, items, flist.items, lastx0, d, end);
    lastx := f.lastex;
    if bno >= start {
      NotPast(f);
      WalkOn(exts, f.exts, lastx0, d, bno0);
      if lastx >= f.nextents || f.exts[lastx].startoff > bno {
        lastx := lastx - 1;
      }
    }
  }

  lemma HitsNone(lo: int, hi: int)
    ensures Hits([], lo, hi, 0, 0)
  {
  }

  /** With no extents there is nothing to do. */
  lemma EmptyDone(items: seq<Item>, start: int, end: int)
    requires start <= end
    ensures Progress([], [], ItemBlocks(items), items, start, end)
  {
    hide MapOf, ItemBlocks, Unmapped;
    Starting([], items, end);
    forall o | start <= o < end ensures MapOf([], o) == Hole {
      MapHole([], o);
    }
    ProgressHoles([], [], ItemBlocks(items), items, end, end, start);
  }

  /** Find where to begin: the extent with the last offset of the range, the next one, or the end of the last of all. */
  method StartWalk(exts: seq<Irec>, ghost items: seq<Item>, start: nat, len: nat)
    returns (bno: int, lastx: int, ghost stop: int, ghost a: int)
    requires Wf(exts) && len > 0 && exts != []
    ensures start <= stop == (if bno < start then start else bno + 1) <= start + len
    ensures Progress(exts, exts, ItemBlocks(items), items, stop, start + len) && Met(exts, exts, a, a, stop, start + len)
    ensures bno < start ==> EndBy(exts, a, stop)
    ensures 0 <= lastx < |exts| && (bno >= start ==> DownTo(exts, bno, lastx) && WalkAt(exts, bno, lastx, a))
    ensures bno >= start ==> Front(exts, exts, a, a, bno, start + len)
  {
    hide Unmapped, MapOf, ItemBlocks, BlocksAt, Wf, EndBy, Met, DownTo, WalkAt;
    ghost var end := start + len;
    bno := start + len - 1;
    var eof, last := SearchExtents(exts, bno);
    Starting(exts, items, end);
    FirstDown(exts, ItemBlocks(items), items, bno, last, start, end);
    a, stop := Above(exts, bno, last), end;
    MetNone(exts, bno, last);
    lastx := last;
    if eof {
      lastx := lastx - 1;
      bno := exts[lastx].End() - 1;
      stop := if bno < start then start else bno + 1;
      MetDown(exts, exts, a, a, end, end, stop);
      EndByLast(exts, exts, a, stop);
    }
  }

  /** Back up to the extent the walk is at or came to over a hole. */
  method BackUp(exts: seq<Irec>, bno0: nat, lastx0: nat, ghost a: int) returns (bno: int, lastx: int)
    requires lastx0 < |exts| && WalkAt(exts, bno0, lastx0, a)
    ensures lastx == (if exts[lastx0].startoff > bno0 then lastx0 - 1 else lastx0) == a - 1
    ensures bno == if lastx >= 0 && exts[lastx].End() - 1 < bno0 then exts[lastx].End() - 1 else bno0
  {
    bno, lastx := bno0, lastx0;
    var got := exts[lastx];
    if got.startoff > bno {
      lastx := lastx - 1;
      if lastx >= 0 {
        got := exts[lastx];
      }
    }
    if lastx >= 0 && got.End() - 1 < bno {
      bno := got.End() - 1;
    }
  }

  /** One round of the walk: on to the next extent down, and delete what lies in the range of it. */
  method UnmapRound(f: Fork, mp: Mount, flist: FreeItems, start: nat, bno0: nat, lastx0: nat,
                    ghost exts0: seq<Irec>, ghost free0: multiset<nat>, ghost end: int, ghost a0: int, ghost b: int)
    returns (hit: bool, bno: int, lastx: int, ghost stop: int, ghost a: int)
    requires f.Valid() && mp.geo.Proper() && start <= bno0 < end && lastx0 < |f.exts| && Wf(exts0)
    requires Progress(exts0, f.exts, free0, flist.items, bno0 + 1, end) && DownTo(f.exts, bno0, lastx0)
    requires Met(exts0, f.exts, a0, b, bno0 + 1, end) && WalkAt(f.exts, bno0, lastx0, a0)
    requires Front(exts0, f.exts, a0, b, bno0, end) && StillEnough(mp.geo, exts0, f.exts, a0, b, start, end)
    modifies f, f.tree, mp, flist
    ensures f.Valid() && stop == (if bno < start then start else bno + 1) <= end
    ensures Progress(exts0, f.exts, free0, flist.items, stop, end) && Met(exts0, f.exts, a, b, stop, end)
    ensures if hit then a == a0 - 1 && bno < bno0 else a == a0 && (bno < start || lastx < 0)
    ensures bno < start || hit ==> EndBy(exts0, a, stop)
    ensures StillEnough(mp.geo, exts0, f.exts, a, b, start, end)
    ensures bno >= start ==> DownTo(f.exts, bno, lastx) && WalkAt(f.exts, bno, lastx, a)
    ensures mp.fdblocks + Reserved(f.exts) + DelayedBlocks(f.exts) == old(mp.fdblocks + Reserved(f.exts) + DelayedBlocks(f.exts))
  {
    hide Unmapped, MapOf, DelayedBlocks, Reserved, RunOf, ItemBlocks, BlocksAt, PartOf, Wf, EndBy, Gone, StillEnough, AllEnough,
      EndsFit, Front;
    bno, lastx := BackUp(f.exts, bno0, lastx0, a0);
    Backed(exts0, f.exts, free0, flist.items, bno0, lastx0, bno, lastx, start, end);
    a, stop, hit := a0, if bno < start then start else bno + 1, false;
    MetDown(exts0, f.exts, a, b, bno0 + 1, end, stop);
    if lastx < 0 {
      return;
    }
    if bno < start {
      EndByLast(exts0, f.exts, a, stop);
      return;
    }
    ghost var exts, k, at := f.exts, lastx, bno;
    bno, lastx := UnmapAt(f, mp, flist, start, bno, lastx, exts0, free0, end);
    EnoughNext(mp.geo, exts0, exts, f.exts, k, b, bno0, at, start, end);
    MetMore(exts0, exts, f.exts, k, b, at + 1, end, start, at);
    hit, stop, a := true, bno + 1, k;
  }

  /**
   * Remove blocks from a range of a file, last extents first, at most nexts of them unless that is 0. Done means that
   * nothing is left in the range; stop is how far down it came, and a to b are the extents it removed or cut.
   */
  method Bunmapi(f: Fork, mp: Mount, flist: FreeItems, start: nat, len: nat, nexts: nat)
    returns (done: bool, ghost stop: int, ghost a: int, ghost b: int)
    requires f.Valid() && len > 0 && mp.geo.Proper()
    modifies f, f.tree, mp, flist
    ensures f.Valid() && start <= stop <= start + len
    ensures Unmapped(old(f.exts), f.exts, stop, start + len)
    ensures ItemBlocks(flist.items) == old(ItemBlocks(flist.items)) + BlocksAt(old(f.exts), stop, start + len)
    ensures done ==> stop == start
    ensures nexts == 0 ==> done
    ensures Hits(old(f.exts), stop, start + len, a, b)
    ensures nexts > 0 ==> b - a <= nexts
    ensures !done ==> b - a == nexts && a - 1 <= f.lastex <= a
    ensures AllEnough(mp.geo, old(f.exts)) ==>
              (AllEnough(mp.geo, f.exts) <==> AllFit(mp.geo, old(f.exts), start, start + len))
    ensures mp.fdblocks + Reserved(f.exts) + DelayedBlocks(f.exts) == old(mp.fdblocks + Reserved(f.exts) + DelayedBlocks(f.exts))
  {
    hide Unmapped, MapOf, DelayedBlocks, Reserved, RunOf, ItemBlocks, BlocksAt, PartOf, Wf, Met, Hits, EndBy, Gone,
      DelPart, DownTo, StillEnough, AllEnough, AllFit, Front;
    ghost var exts0, free0 := f.exts, ItemBlocks(flist.items);
    ghost var end := start + len;
    if |f.exts| == 0 {
      HitsNone(start, end);
      EmptyDone(flist.items, start, end);
      EnoughStart(mp.geo, f.exts, 0, start, end);
      EnoughAll(mp.geo, f.exts, f.exts, 0, 0, start, start, end);
      return true, start, 0, 0;
    }
    var bno, lastx;
    bno, lastx, stop, a := StartWalk(f.exts, flist.items, start, len);
    b := a;
    EnoughStart(mp.geo, f.exts, a, start, end);
    var extno := 0;
    while bno >= start && lastx >= 0 && (nexts == 0 || extno < nexts)
      invariant f.Valid() && start <= stop <= end && stop == if bno < start then start else bno + 1
      invariant Progress(exts0, f.exts, free0, flist.items, stop, end)
      invariant mp.fdblocks + Reserved(f.exts) + DelayedBlocks(f.exts)
                == old(mp.fdblocks + Reserved(f.exts) + DelayedBlocks(f.exts))
      invariant Met(exts0, f.exts, a, b, stop, end) && (bno < start || extno > 0 ==> EndBy(exts0, a, stop))
      invariant bno >= start ==> DownTo(f.exts, bno, lastx) && WalkAt(f.exts, bno, lastx, a) && b - a == extno
      invariant nexts > 0 ==> b - a <= nexts && extno <= nexts
      invariant StillEnough(mp.geo, exts0, f.exts, a, b, start, end) && (bno >= start ==> Front(exts0, f.exts, a, b, bno, end))
      decreases bno + 1 - start
    {
      var hit;
      hit, bno, lastx, stop, a := UnmapRound(f, mp, flist, start, bno, lastx, exts0, free0, end, a, b);
      if !hit {
        break;
      }
      if bno >= start {
        FrontNext(exts0, f.exts, a, b, bno, end);
        extno := extno + 1;
      }
    }
    done := bno < start || lastx < 0;
    if lastx < 0 && bno >= start {
      AllBelow(exts0, f.exts, free0, flist.items, bno, start, end);
      MetDown(exts0, f.exts, a, b, stop, end, start);
      stop := start;
      EndByLast(exts0, f.exts, a, stop);
    }
    MetAll(exts0, f.exts, a, b, stop, end);
    EnoughAll(mp.geo, exts0, f.exts, a, b, start, stop, end);
    f.lastex := lastx;
  }
}
