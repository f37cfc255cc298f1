/** Turning a hole into a delayed extent, and the blocks reserved for those. */
module BmapDelay {
  import opened ExtentMap
  import opened BmapFork
  import opened BmapIndlen

  /** The count of free blocks that the superblock shows, less those reserved. */
  class Mount {
    const geo: Geometry
    var fdblocks: int

    constructor (geo: Geometry, fdblocks: int)
      ensures this.geo == geo && this.fdblocks == fdblocks
    {
      this.geo, this.fdblocks := geo, fdblocks;
    }
  }

  function IndlenOf(r: Irec): nat {
    if r.start.Delay? then r.start.indlen else 0
  }

  function DelayedOf(r: Irec): nat {
    if r.start.Delay? then r.count else 0
  }

  /** The blocks reserved for the btree by all delayed extents. */
  ghost function Reserved(exts: seq<Irec>): nat {
    if exts == [] then 0 else IndlenOf(exts[0]) + Reserved(exts[1..])
  }

  /** The blocks of all delayed extents. */
  ghost function DelayedBlocks(exts: seq<Irec>): nat {
    if exts == [] then 0 else DelayedOf(exts[0]) + DelayedBlocks(exts[1..])
  }

  lemma {:induction false} SumsConcat(a: seq<Irec>, b: seq<Irec>)
    ensures Reserved(a + b) == Reserved(a) + Reserved(b)
    ensures DelayedBlocks(a + b) == DelayedBlocks(a) + DelayedBlocks(b)
  {
    if a == [] {
      assert a + b == b;
    } else {
      assert (a + b)[1..] == a[1..] + b;
      SumsConcat(a[1..], b);
    }
  }

  lemma SpliceSums(exts: seq<Irec>, i: nat, j: nat, mid: seq<Irec>)
    requires i <= j <= |exts|
    ensures Reserved(Splice(exts, i, j, mid)) - Reserved(exts) == Reserved(mid) - Reserved(exts[i..j])
    ensures DelayedBlocks(Splice(exts, i, j, mid)) - DelayedBlocks(exts) == DelayedBlocks(mid) - DelayedBlocks(exts[i..j])
  {
    SumsConcat(exts[..i] + mid, exts[j..]);
    SumsConcat(exts[..i], mid);
    assert exts == exts[..i] + exts[i..j] + exts[j..];
    SumsConcat(exts[..i] + exts[i..j], exts[j..]);
    SumsConcat(exts[..i], exts[i..j]);
  }

  lemma SumsFew(a: Irec, b: Irec)
    ensures Reserved([a]) == IndlenOf(a) && Reserved([a, b]) == IndlenOf(a) + IndlenOf(b) && Reserved([]) == 0
    ensures DelayedBlocks([a]) == DelayedOf(a) && DelayedBlocks([a, b]) == DelayedOf(a) + DelayedOf(b) && DelayedBlocks([]) == 0
  {
    assert [a, b][1..] == [b] && [a][1..] == [] && [b][1..] == [];
  }

  /** The extent is delayed and holds its worst case. */
  predicate HoldsEnough(g: Geometry, r: Irec)
    requires g.Proper()
  {
    r.start.Delay? ==> r.start.indlen >= Worst(g, r.count)
  }

  ghost predicate AllEnough(g: Geometry, exts: seq<Irec>)
    requires g.Proper()
  {
    forall i :: 0 <= i < |exts| ==> HoldsEnough(g, exts[i])
  }

  /** Extent n is delayed and lies in the hole before extent idx. */
  ghost predicate InHole(exts: seq<Irec>, idx: nat, n: Irec) {
    && idx <= |exts| && n.start.Delay? && 0 < n.count <= MAXEXTLEN
    && Room(exts, idx, idx, n.startoff, n.End())
  }

  predicate LeftDelay(exts: seq<Irec>, idx: nat, n: Irec)
    requires idx <= |exts|
  {
    && idx > 0 && exts[idx - 1].start.Delay?
    && exts[idx - 1].End() == n.startoff && exts[idx - 1].count + n.count <= MAXEXTLEN
  }

  predicate RightDelay(exts: seq<Irec>, idx: nat, n: Irec)
    requires idx <= |exts|
  {
    && idx < |exts| && exts[idx].start.Delay?
    && n.End() == exts[idx].startoff && n.count + exts[idx].count <= MAXEXTLEN
    && (!LeftDelay(exts, idx, n) || exts[idx - 1].count + n.count + exts[idx].count <= MAXEXTLEN)
  }

  /** What n and the delayed neighbours it joins become, and which extents that replaces. */
  ghost predicate Merged(exts: seq<Irec>, exts': seq<Irec>, idx: nat, n: Irec, i: nat, j: nat, one: Irec) {
    && idx <= |exts| && i <= j <= |exts| && exts' == Splice(exts, i, j, [one])
    && i == (if LeftDelay(exts, idx, n) then idx - 1 else idx)
    && j == (if RightDelay(exts, idx, n) then idx + 1 else idx)
    && one.start.Delay?
    && one.startoff == (if i < idx then exts[i].startoff else n.startoff)
    && one.End() == (if idx < j then exts[idx].End() else n.End())
  }

  /** A delayed neighbour that was not joined, and lies right beside the new extent, would make it too long. */
  ghost predicate JoinedAll(exts: seq<Irec>, idx: nat, i: nat, j: nat, one: Irec) {
    && idx <= |exts|
    && (i == idx > 0 && exts[idx - 1].start.Delay? && exts[idx - 1].End() == one.startoff ==>
          exts[idx - 1].count + one.count > MAXEXTLEN)
    && (j == idx < |exts| && exts[idx].start.Delay? && one.End() == exts[idx].startoff ==>
          one.count + exts[idx].count > MAXEXTLEN)
  }

  lemma JoinsAll(exts: seq<Irec>, exts': seq<Irec>, idx: nat, n: Irec, i: nat, j: nat, one: Irec)
    requires InHole(exts, idx, n) && Merged(exts, exts', idx, n, i, j, one)
    ensures JoinedAll(exts, idx, i, j, one)
  {
  }

  lemma SetIsSplice(exts: seq<Irec>, k: nat, one: Irec)
    requires k < |exts|
    ensures exts[k := one] == Splice(exts, k, k + 1, [one])
  {
  }

  lemma SetDropIsSplice(exts: seq<Irec>, k: nat, one: Irec)
    requires k + 1 < |exts|
    ensures Splice(exts[k := one], k + 1, k + 2, []) == Splice(exts, k, k + 2, [one])
  {
  }

  /**
   * Put the delayed extent n into a hole, joined with delayed neighbours where that is not too long. The blocks
   * reserved beyond the worst case of the joined extent are free again.
   */
  method AddExtentHoleDelay(f: Fork, mp: Mount, idx: nat, n: Irec) returns (ghost i: nat, ghost j: nat, ghost one: Irec)
    requires f.Valid() && InHole(f.exts, idx, n) && mp.geo.Proper()
    modifies f`exts, f`lastex, mp
    ensures f.Valid()
    ensures forall o: int {:trigger MapOf(f.exts, o)} ::
              MapOf(f.exts, o) == if Has(n, o) then Delayed else MapOf(old(f.exts), o)
    ensures Merged(old(f.exts), f.exts, idx, n, i, j, one) && f.lastex == i && JoinedAll(old(f.exts), idx, i, j, one)
    ensures if i == j then one == n else one.start.indlen == Worst(mp.geo, one.count)
    ensures mp.fdblocks + Reserved(f.exts) == old(mp.fdblocks + Reserved(f.exts)) + n.start.indlen
    ensures AllEnough(mp.geo, old(f.exts)) && HoldsEnough(mp.geo, n) ==>
              AllEnough(mp.geo, f.exts) && mp.fdblocks >= old(mp.fdblocks)
  {
    hide Wf, MapOf, Reals, Reserved, Splice, Worst, AllEnough, Room, JoinedAll;
    ghost var exts := f.exts;
    i, j := idx, idx;
    var leftContig, rightContig := LeftDelay(f.exts, idx, n), RightDelay(f.exts, idx, n);
    var oldlen, newlen := 0, 0;
    one := n;
    if leftContig && rightContig {
      var left, right := f.exts[idx - 1], f.exts[idx];
      var temp := left.count + n.count + right.count;
      oldlen := left.start.indlen + n.start.indlen + right.start.indlen;
      newlen := WorstIndlen(mp.geo, temp);
      f.exts := f.exts[idx - 1 := left.(count := temp, start := Delay(newlen))];
      SetDropIsSplice(exts, idx - 1, f.exts[idx - 1]);
      f.Remove(idx, 1);
      f.lastex := idx - 1;
      i, j, one := idx - 1, idx + 1, left.(count := temp, start := Delay(newlen));
    } else if leftContig {
      var left := f.exts[idx - 1];
      var temp := left.count + n.count;
      oldlen := left.start.indlen + n.start.indlen;
      newlen := WorstIndlen(mp.geo, temp);
      f.exts := f.exts[idx - 1 := left.(count := temp, start := Delay(newlen))];
      SetIsSplice(exts, idx - 1, f.exts[idx - 1]);
      f.lastex := idx - 1;
      i, one := idx - 1, left.(count := temp, start := Delay(newlen));
    } else if rightContig {
      var right := f.exts[idx];
      var temp := n.count + right.count;
      oldlen := n.start.indlen + right.start.indlen;
      newlen := WorstIndlen(mp.geo, temp);
      f.exts := f.exts[idx := Irec(n.startoff, Delay(newlen), temp, right.unwritten)];
      SetIsSplice(exts, idx, f.exts[idx]);
      f.lastex := idx;
      j, one := idx + 1, Irec(n.startoff, Delay(newlen), temp, right.unwritten);
    } else {
      f.InsertExts(idx, [n]);
      f.lastex := idx;
    }
    assert f.exts == Splice(exts, i, j, [one]);
    if oldlen != newlen {
      mp.fdblocks := mp.fdblocks + (oldlen - newlen);
    }
    MergedMap(exts, f.exts, idx, n, i, j, one);
    JoinsAll(exts, f.exts, idx, n, i, j, one);
    MergedSums(exts, f.exts, mp.geo, idx, n, i, j, one);
  }

  lemma MergedMap(exts: seq<Irec>, exts': seq<Irec>, idx: nat, n: Irec, i: nat, j: nat, one: Irec)
    requires Wf(exts) && InHole(exts, idx, n) && Merged(exts, exts', idx, n, i, j, one)
    ensures Wf(exts') && Reals(exts') == Reals(exts)
    ensures forall o: int {:trigger MapOf(exts', o)} :: MapOf(exts', o) == if Has(n, o) then Delayed else MapOf(exts, o)
  {
    hide Wf, Within, Room, MapOf, Reals, Splice, LeftDelay, RightDelay;
    var lo, hi := one.startoff, one.End();
    MergedRange(exts, exts', idx, n, i, j, one);
    Replaced(exts, idx, n, i, j);
    SpliceWf(exts, i, j, [one], lo, hi);
    SpliceReals(exts, i, j, [one]);
    NoReals(one, one);
    forall o: int ensures MapOf(exts', o) == if Has(n, o) then Delayed else MapOf(exts, o) {
      SpliceMap(exts, i, j, [one], lo, hi, o);
      MapFew(one, one, one, o);
      if |exts[i..j]| == 1 {
        MapFew(exts[i], one, one, o);
      } else if |exts[i..j]| == 2 {
        MapFew(exts[i], exts[i + 1], one, o);
      }
    }
  }

  /** Where what n becomes lies. */
  lemma MergedRange(exts: seq<Irec>, exts': seq<Irec>, idx: nat, n: Irec, i: nat, j: nat, one: Irec)
    requires Wf(exts) && InHole(exts, idx, n) && Merged(exts, exts', idx, n, i, j, one)
    ensures Wf([one]) && Within([one], one.startoff, one.End()) && Within(exts[i..j], one.startoff, one.End())
    ensures Room(exts, i, j, one.startoff, one.End()) && one.startoff <= one.End()
    ensures forall k :: i <= k < j ==> exts[k].start.Delay?
    ensures if i == j then one.startoff == n.startoff && one.End() == n.End()
            else if i + 1 == j then
              if i < idx then one.startoff == exts[i].startoff && exts[i].End() == n.startoff && one.End() == n.End()
              else one.startoff == n.startoff && n.End() == exts[i].startoff && one.End() == exts[i].End()
            else j == i + 2 && one.startoff == exts[i].startoff && exts[i].End() == n.startoff && n.End() == exts[i + 1].startoff
                 && one.End() == exts[i + 1].End()
  {
  }

  /** The extents that n joins: none, one or two delayed ones. */
  lemma Replaced(exts: seq<Irec>, idx: nat, n: Irec, i: nat, j: nat)
    requires InHole(exts, idx, n)
    requires i == (if LeftDelay(exts, idx, n) then idx - 1 else idx)
    requires j == (if RightDelay(exts, idx, n) then idx + 1 else idx)
    ensures exts[i..j] == if i == j then [] else if i + 1 == j then [exts[i]] else [exts[i], exts[i + 1]]
    ensures Reals(exts[i..j]) == []
  {
    if i + 1 == j {
      NoReals(exts[i], exts[i]);
    } else if i + 2 == j {
      NoReals(exts[i], exts[i + 1]);
    }
  }

  lemma NoReals(a: Irec, b: Irec)
    requires a.start.Delay? && b.start.Delay?
    ensures Reals([a]) == [] && Reals([a, b]) == []
  {
    assert [a, b][1..] == [b] && [a][1..] == [] && [b][1..] == [];
  }

  lemma MergedSums(exts: seq<Irec>, exts': seq<Irec>, g: Geometry, idx: nat, n: Irec, i: nat, j: nat, one: Irec)
    requires g.Proper() && InHole(exts, idx, n) && Merged(exts, exts', idx, n, i, j, one)
    requires i == j ==> one == n
    requires i < j ==> one.start.indlen == Worst(g, one.count)
    ensures Reserved(exts') - Reserved(exts) == one.start.indlen - Reserved(exts[i..j])
    ensures Reserved(exts[i..j]) == (if i < idx then exts[idx - 1].start.indlen else 0)
                                     + if idx < j then exts[idx].start.indlen else 0
    ensures AllEnough(g, exts) && HoldsEnough(g, n) ==>
              AllEnough(g, exts') && one.start.indlen <= Reserved(exts[i..j]) + n.start.indlen
  {
    Replaced(exts, idx, n, i, j);
    SpliceSums(exts, i, j, [one]);
    SumsFew(one, one);
    if i + 1 == j {
      SumsFew(exts[i], one);
      WorstMerged(g, exts[i].count, n.count);
      WorstMerged(g, n.count, exts[i].count);
    } else if i + 2 == j {
      SumsFew(exts[i], exts[i + 1]);
      WorstMerged(g, exts[i].count, n.count);
      WorstMerged(g, exts[i].count + n.count, exts[i + 1].count);
    }
    EnoughSplice(g, exts, i, j, one);
  }

  lemma EnoughSplice(g: Geometry, exts: seq<Irec>, i: nat, j: nat, one: Irec)
    requires g.Proper() && i <= j <= |exts|
    ensures AllEnough(g, exts) && HoldsEnough(g, one) ==> AllEnough(g, Splice(exts, i, j, [one]))
  {
    var s := Splice(exts, i, j, [one]);
    assert forall k :: 0 <= k < |s| ==> s[k] == if k < i then exts[k] else if k == i then one else exts[k - 1 + j - i];
  }
}
