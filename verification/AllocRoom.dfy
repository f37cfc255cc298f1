/** Which groups look as if they had room for a request. */
module AllocRoom {
  import opened Records
  import opened Extents
  import opened Levels
  import opened FreeLists
  import opened Btrees
  import opened AllocTree
  import opened AllocGroup
  import opened AllocMath

  /** The least length of the freelist: a block for each level of both trees and one for each new root. */
  function MinFreelist(bl: nat, cl: nat, maxlevels: LevelCount): (n: nat)
    ensures n <= bl + cl + 2 && n <= 2 * maxlevels <= 64
    ensures n == bl + cl + 2 <==> bl < maxlevels && cl < maxlevels
    ensures n == 2 * maxlevels <==> bl + 1 >= maxlevels && cl + 1 >= maxlevels
  {
    (if bl + 1 < maxlevels then bl + 1 else maxlevels) + (if cl + 1 < maxlevels then cl + 1 else maxlevels)
  }

  /** The test of a group, by its header alone; need is the least length of its freelist. */
  predicate Hopeful(ag: Ag, minlen: nat, alignment: nat, slop: nat, total: nat, minleft: nat, need: nat)
    reads ag`freeblks, ag.cnt`longest, ag.fl`flcount
  {
    var flcount := ag.fl.flcount;
    var delta := if need > flcount then need - flcount else 0;
    var longest := if ag.cnt.longest > delta then ag.cnt.longest - delta else if flcount > 0 || ag.cnt.longest > 0 then 1 else 0;
    && (minlen + alignment + slop - 1) % U32 <= longest
    && Int32(ag.freeblks + flcount - need - total) >= Int32(minleft)
  }

  /** What of a request the test looks at does not wrap round. */
  predicate Modest(minlen: nat, alignment: nat, slop: nat, total: nat, minleft: nat) {
    minlen > 0 && alignment > 0 && minlen + alignment + slop <= U32 && total < 0x7fff_ff00 && minleft < 0x8000_0000
  }

  /**
   * Some extent has room for the request, however it lies, and for what the freelist lacks of its least length; or one
   * block is all that is asked for and there is one, be it on the freelist. And all blocks are enough for the freelist,
   * for what the caller will need in all, and for what is to be left.
   */
  ghost predicate Roomy(ag: Ag, minlen: nat, alignment: nat, slop: nat, total: nat, minleft: nat)
    reads ag`freeblks, ag.bno`lv, ag.bno`nlevels, ag.cnt`nlevels, ag.fl
  {
    var need := MinFreelist(ag.bno.nlevels, ag.cnt.nlevels, ag.maxlevels);
    var lack := if need > |ag.fl.queue| then need - |ag.fl.queue| else 0;
    var ask := minlen + alignment + slop - 1;
    && (|| (exists f :: f in ag.Extents() && f.count >= ask + lack)
        || (ask == 1 && (ag.fl.queue != [] || ag.Extents() != {})))
    && ag.freeblks + |ag.fl.queue| >= need + total + minleft
  }

  /** The tree's count of the longest extent is just that. */
  lemma LongestIs(t: Btree)
    requires Good(t) && t.kind == Cnt
    ensures forall f :: f in Held(t) ==> f.count <= t.longest
    ensures Held(t) != {} ==> exists f :: f in Held(t) && f.count == t.longest
    ensures Held(t) == {} ==> t.longest == 0
  {
    hide Flat, Tied;
    var recs := t.Recs();
    LastIsLongest(recs);
    if recs != [] {
      assert recs[|recs| - 1] in Elems(recs);
    }
  }

  /** The test of the header is that of the extents themselves. */
  lemma HopefulIs(ag: Ag, minlen: nat, alignment: nat, slop: nat, total: nat, minleft: nat)
    requires ag.Valid() && Modest(minlen, alignment, slop, total, minleft)
    ensures Hopeful(ag, minlen, alignment, slop, total, minleft, MinFreelist(ag.bno.nlevels, ag.cnt.nlevels, ag.maxlevels))
            <==> Roomy(ag, minlen, alignment, slop, total, minleft)
  {
    hide Ag.Valid, Ag.Extents, Int32;
    var need := MinFreelist(ag.bno.nlevels, ag.cnt.nlevels, ag.maxlevels);
    HeaderIs(ag);
    NoWrap(ag.freeblks + |ag.fl.queue|, need, total, minleft);
    LongestMeets(ag.Extents(), ag.cnt.longest, |ag.fl.queue|, minlen + alignment + slop - 1, need);
  }

  lemma NoWrap(have: nat, need: nat, total: nat, minleft: nat)
    requires have < 0x8000_0000 && need <= 64 && total < 0x7fff_ff00 && minleft < 0x8000_0000
    ensures Int32(have - need - total) >= Int32(minleft) <==> have >= need + total + minleft
  {
  }

  /** What the header tells of a group. */
  lemma HeaderIs(ag: Ag)
    requires ag.Valid()
    ensures ag.fl.flcount == |ag.fl.queue| && ag.freeblks + |ag.fl.queue| < 0x8000_0000
    ensures forall f :: f in ag.Extents() ==> 0 < f.count <= ag.cnt.longest
    ensures if ag.Extents() == {} then ag.cnt.longest == 0 else exists f :: f in ag.Extents() && f.count == ag.cnt.longest
  {
    hide Held, Apart, Free, Btree.Valid, Reserve;
    FreeBelow(ag);
    FreelistFacts(ag.cnt);
    LongestIs(ag.cnt);
    NoneEmpty(ag.Extents());
  }

  lemma NoneEmpty(s: set<Rec>)
    requires Apart(s)
    ensures forall f :: f in s ==> f.count > 0
  {
  }

  lemma LongestMeets(s: set<Rec>, longest: nat, flcount: nat, ask: nat, need: nat)
    requires ask >= 1 && forall f :: f in s ==> f.count <= longest && f.count > 0
    requires if s == {} then longest == 0 else exists f :: f in s && f.count == longest
    ensures var lack := if need > flcount then need - flcount else 0;
            ask <= (if longest > lack then longest - lack else if flcount > 0 || longest > 0 then 1 else 0)
            <==> (exists f :: f in s && f.count >= ask + lack) || (ask == 1 && (flcount > 0 || s != {}))
  {
  }

  /** Going down from the root there is a block at every level. */
  lemma {:induction false} BlocksDown(t: Btree, l: nat)
    requires t.Valid() && l < |t.lv|
    ensures |t.lv[l]| > 0
    decreases |t.lv| - l
  {
    hide Tied, Off;
    if l + 1 < |t.lv| {
      BlocksDown(t, l + 1);
      assert SizedAt(t, t.lv, l + 1) && LinkAt(t.lv, l + 1);
      FlatIndex(t.lv[l + 1], 0, 0);
    }
  }

  lemma ManyRecords(t: Btree)
    requires t.Valid() && |t.lv| > 1
    ensures t.Recs() != []
  {
    hide Off, Tied;
    BlocksDown(t, 0);
    assert SizedAt(t, t.lv, 0);
    FlatIndex(t.lv[0], 0, 0);
  }

  /** A tree without records is a single block. */
  lemma NoRecords(t: Btree)
    requires t.Valid() && t.Recs() == []
    ensures |t.store| == 1
  {
    hide Off;
    BlocksDown(t, 0);
    if |t.lv| > 1 {
      ManyRecords(t);
    }
    assert Tied(t.store, t.lv[0], 0) && BlkTied(t.store, t.lv[0], 0, 0);
    forall p | p in t.store ensures p == t.root {
      assert HasBlk(t.lv[0], p);
    }
    assert t.store.Keys == {t.root};
  }

  /** With no free extent, all that the group counts is on the freelist. */
  lemma OnlyFreelist(ag: Ag)
    requires ag.Valid() && ag.Extents() == {}
    ensures ag.freeblks == 0 && ag.fl.btreeblks == 0
  {
    hide Btree.Valid, Btree.Core;
    HeldNone(ag.cnt);
    HeldNone(ag.bno);
    NoRecords(ag.cnt);
    NoRecords(ag.bno);
  }
}
