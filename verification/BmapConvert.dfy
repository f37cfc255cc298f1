/** Converting part of an extent between unwritten and written. */
module BmapConvert {
  import opened ExtentMap
  import opened BmapFork

  /** n is part of extent number idx, with the other state. */
  ghost predicate Convertible(exts: seq<Irec>, idx: nat, n: Irec) {
    && idx < |exts|
    && exts[idx].start.Block? && n.start.Block? && exts[idx].unwritten != n.unwritten
    && n.count > 0 && exts[idx].startoff <= n.startoff && n.End() <= exts[idx].End()
    && n.start.bno == exts[idx].start.bno + (n.startoff - exts[idx].startoff)
  }

  /** The extent ends where n starts, in file and on disk, and has its state; and both are not too long for one. */
  predicate LeftJoins(exts: seq<Irec>, idx: nat, n: Irec)
    requires idx < |exts| && n.start.Block?
  {
    && idx > 0 && exts[idx - 1].start.Block?
    && exts[idx - 1].End() == n.startoff
    && exts[idx - 1].start.bno + exts[idx - 1].count == n.start.bno
    && exts[idx - 1].unwritten == n.unwritten
    && exts[idx - 1].count + n.count <= MAXEXTLEN
  }

  /** The same of the extent that follows; and if all three would join, they must not be too long together. */
  predicate RightJoins(exts: seq<Irec>, idx: nat, n: Irec)
    requires idx < |exts| && n.start.Block?
  {
    && idx + 1 < |exts| && exts[idx + 1].start.Block?
    && n.End() == exts[idx + 1].startoff
    && n.start.bno + n.count == exts[idx + 1].start.bno
    && n.unwritten == exts[idx + 1].unwritten
    && n.count + exts[idx + 1].count <= MAXEXTLEN
    && (!(LeftJoins(exts, idx, n) && exts[idx].startoff == n.startoff && exts[idx].End() == n.End())
        || exts[idx - 1].count + n.count + exts[idx + 1].count <= MAXEXTLEN)
  }

  /** n has been given its state; nothing else is different. */
  ghost predicate Converted(exts: seq<Irec>, exts': seq<Irec>, n: Irec) {
    && Wf(exts')
    && forall o: int {:trigger MapOf(exts', o)} :: MapOf(exts', o) == if Has(n, o) then MapIn(n, o) else MapOf(exts, o)
  }

  lemma RealsFew(a: Irec, b: Irec, c: Irec)
    ensures a.start.Block? ==> Reals([a]) == [a]
    ensures a.start.Block? && b.start.Block? ==> Reals([a, b]) == [a, b]
    ensures a.start.Block? && b.start.Block? && c.start.Block? ==> Reals([a, b, c]) == [a, b, c]
  {
    assert [a, b, c] == [a] + [b] + [c] && [a, b] == [a] + [b];
    assert [a][1..] == [] && [b][1..] == [] && [c][1..] == [];
    RealsConcat([a], [b]);
    RealsConcat([a] + [b], [c]);
  }

  /** Extents in place of those from i to j that differ in n's state alone. */
  lemma ConvertedBy(exts: seq<Irec>, i: nat, j: nat, mid: seq<Irec>, lo: int, hi: int, n: Irec)
    requires Wf(exts) && i <= j <= |exts| && Wf(mid) && lo <= n.startoff && n.End() <= hi
    requires Room(exts, i, j, lo, hi) && Within(mid, lo, hi) && Within(exts[i..j], lo, hi)
    requires forall o :: lo <= o < hi ==> MapOf(mid, o) == if Has(n, o) then MapIn(n, o) else MapOf(exts[i..j], o)
    ensures Converted(exts, Splice(exts, i, j, mid), n)
  {
    SpliceWf(exts, i, j, mid, lo, hi);
    forall o: int ensures MapOf(Splice(exts, i, j, mid), o) == if Has(n, o) then MapIn(n, o) else MapOf(exts, o) {
      SpliceMap(exts, i, j, mid, lo, hi, o);
    }
  }

  /** The list has mid in place of the extents from i to j, and the count and the btree go along. */
  ghost predicate Became(f: Fork, exts: seq<Irec>, i: nat, j: nat, mid: seq<Irec>)
    reads f, f.tree
  {
    && i <= j <= |exts|
    && f.exts == Splice(exts, i, j, mid)
    && f.nextents == |Reals(f.exts)|
    && (f.tree != null ==> f.tree.recs == Reals(f.exts))
  }

  lemma DropOne(s: seq<Irec>, p: seq<Irec>, x: Irec, q: seq<Irec>)
    requires s == p + [x] + q
    ensures |p| < |s| && s[..|p|] + s[|p| + 1..] == p + q
  {
  }

  /** All of the extent, joined with both neighbours. */
  method TreeAllBoth(t: Bmbt, left: Irec, prev: Irec, right: Irec, ghost a: seq<Irec>, ghost c: seq<Irec>)
    requires Wf(t.recs) && t.recs == a + [left, prev, right] + c
    modifies t
    ensures t.recs == a + [left.(count := left.count + prev.count + right.count)] + c
  {
    hide Wf;
    Locate(t, right.startoff, right.start, right.count, |a| + 2);
    DropOne(t.recs, a + [left, prev], right, c);
    var i := t.Delete();
    i := t.Decrement();
    DropOne(t.recs, a + [left], prev, c);
    i := t.Delete();
    i := t.Decrement();
    t.Update(left.startoff, left.start, left.count + prev.count + right.count, left.unwritten);
  }

  method AllBoth(f: Fork, idx: nat, n: Irec)
    requires f.Valid() && Convertible(f.exts, idx, n) && LeftJoins(f.exts, idx, n) && RightJoins(f.exts, idx, n)
    requires f.exts[idx].startoff == n.startoff && f.exts[idx].End() == n.End()
    modifies f, f.tree
    ensures f.lastex == idx - 1
    ensures Became(f, old(f.exts), idx - 1, idx + 2,
                   [old(f.exts[idx - 1]).(count := old(f.exts[idx - 1]).count + n.count + old(f.exts[idx + 1]).count)])
  {
    hide Wf, MapOf;
    ghost var exts := f.exts;
    var left, prev, right := f.exts[idx - 1], f.exts[idx], f.exts[idx + 1];
    var joined := left.(count := left.count + prev.count + right.count);
    SpliceReals(exts, idx - 1, idx + 2, [joined]);
    RealsFew(left, prev, right);
    RealsFew(joined, prev, right);
    RealsWf(exts);
    assert exts[idx - 1..idx + 2] == [left, prev, right];
    f.exts := f.exts[idx - 1 := joined];
    f.Remove(idx, 2);
    f.lastex := idx - 1;
    f.nextents := f.nextents - 2;
    assert f.exts == Splice(exts, idx - 1, idx + 2, [joined]);
    if f.tree != null {
      TreeAllBoth(f.tree, left, prev, right, Reals(exts[..idx - 1]), Reals(exts[idx + 2..]));
    }
  }

  /** All of the extent, joined with the left neighbour. */
  method TreeAllLeft(t: Bmbt, left: Irec, prev: Irec, ghost a: seq<Irec>, ghost c: seq<Irec>)
    requires Wf(t.recs) && t.recs == a + [left, prev] + c
    modifies t
    ensures t.recs == a + [left.(count := left.count + prev.count)] + c
  {
    Locate(t, prev.startoff, prev.start, prev.count, |a| + 1);
    var i := t.Delete();
    i := t.Decrement();
    t.Update(left.startoff, left.start, left.count + prev.count, left.unwritten);
  }

  method AllLeft(f: Fork, idx: nat, n: Irec)
    requires f.Valid() && Convertible(f.exts, idx, n) && LeftJoins(f.exts, idx, n)
    requires f.exts[idx].startoff == n.startoff && f.exts[idx].End() == n.End()
    modifies f, f.tree
    ensures f.lastex == idx - 1
    ensures Became(f, old(f.exts), idx - 1, idx + 1, [old(f.exts[idx - 1]).(count := old(f.exts[idx - 1]).count + n.count)])
  {
    hide Wf, MapOf;
    ghost var exts := f.exts;
    var left, prev := f.exts[idx - 1], f.exts[idx];
    var joined := left.(count := left.count + prev.count);
    SpliceReals(exts, idx - 1, idx + 1, [joined]);
    RealsFew(left, prev, prev);
    RealsFew(joined, prev, prev);
    RealsWf(exts);
    assert exts[idx - 1..idx + 1] == [left, prev];
    f.exts := f.exts[idx - 1 := joined];
    f.lastex := idx - 1;
    f.Remove(idx, 1);
    f.nextents := f.nextents - 1;
    assert f.exts == Splice(exts, idx - 1, idx + 1, [joined]);
    if f.tree != null {
      TreeAllLeft(f.tree, left, prev, Reals(exts[..idx - 1]), Reals(exts[idx + 1..]));
    }
  }

  /** All of the extent, joined with the right neighbour. */
  method TreeAllRight(t: Bmbt, prev: Irec, right: Irec, n: Irec, ghost a: seq<Irec>, ghost c: seq<Irec>)
    requires Wf(t.recs) && t.recs == a + [prev, right] + c
    modifies t
    ensures t.recs == a + [n.(count := n.count + right.count)] + c
  {
    Locate(t, right.startoff, right.start, right.count, |a| + 1);
    var i := t.Delete();
    i := t.Decrement();
    t.Update(n.startoff, n.start, n.count + right.count, n.unwritten);
  }

  method AllRight(f: Fork, idx: nat, n: Irec)
    requires f.Valid() && Convertible(f.exts, idx, n) && RightJoins(f.exts, idx, n)
    requires f.exts[idx].startoff == n.startoff && f.exts[idx].End() == n.End()
    modifies f, f.tree
    ensures f.lastex == idx
    ensures Became(f, old(f.exts), idx, idx + 2, [n.(count := n.count + old(f.exts[idx + 1]).count)])
  {
    hide Wf, MapOf;
    ghost var exts := f.exts;
    var prev, right := f.exts[idx], f.exts[idx + 1];
    var joined := prev.(count := prev.count + right.count, unwritten := n.unwritten);
    SpliceReals(exts, idx, idx + 2, [joined]);
    RealsFew(prev, right, prev);
    RealsFew(joined, prev, prev);
    RealsWf(exts);
    assert exts[idx..idx + 2] == [prev, right];
    f.exts := f.exts[idx := joined];
    f.lastex := idx;
    f.Remove(idx + 1, 1);
    f.nextents := f.nextents - 1;
    assert f.exts == Splice(exts, idx, idx + 2, [joined]);
    if f.tree != null {
      TreeAllRight(f.tree, prev, right, n, Reals(exts[..idx]), Reals(exts[idx + 2..]));
    }
  }

  /** All of the extent, joined with neither. */
  method TreeAll(t: Bmbt, prev: Irec, n: Irec, ghost a: seq<Irec>, ghost c: seq<Irec>)
    requires Wf(t.recs) && t.recs == a + [prev] + c && prev.startoff == n.startoff
    modifies t
    ensures t.recs == a + [n] + c
  {
    Locate(t, n.startoff, n.start, n.count, |a|);
    t.Update(n.startoff, n.start, n.count, n.unwritten);
  }

  method All(f: Fork, idx: nat, n: Irec)
    requires f.Valid() && Convertible(f.exts, idx, n)
    requires f.exts[idx].startoff == n.startoff && f.exts[idx].End() == n.End()
    modifies f, f.tree
    ensures f.lastex == idx
    ensures Became(f, old(f.exts), idx, idx + 1, [n])
  {
    hide Wf, MapOf;
    ghost var exts := f.exts;
    var prev := f.exts[idx];
    SpliceReals(exts, idx, idx + 1, [n]);
    RealsFew(prev, prev, prev);
    RealsFew(n, prev, prev);
    RealsWf(exts);
    assert exts[idx..idx + 1] == [prev];
    f.exts := f.exts[idx := prev.(unwritten := n.unwritten)];
    f.lastex := idx;
    assert f.exts == Splice(exts, idx, idx + 1, [n]);
    if f.tree != null {
      TreeAll(f.tree, prev, n, Reals(exts[..idx]), Reals(exts[idx + 1..]));
    }
  }

  /** What is left of an extent when n, its first part, is taken off. */
  function Behind(prev: Irec, n: Irec): Irec
    requires n.start.Block? && prev.startoff == n.startoff && n.count <= prev.count
  {
    Irec(n.End(), Block(n.start.bno + n.count), prev.count - n.count, prev.unwritten)
  }

  /** The first part of the extent, joined with the left neighbour. */
  method TreeFirstLeft(t: Bmbt, left: Irec, prev: Irec, n: Irec, ghost a: seq<Irec>, ghost c: seq<Irec>)
    requires Wf(t.recs) && t.recs == a + [left, prev] + c && prev.start == n.start && n.start.Block?
    requires prev.startoff == n.startoff && n.count < prev.count
    modifies t
    ensures t.recs == a + [left.(count := left.count + n.count), Behind(prev, n)] + c
  {
    Locate(t, prev.startoff, prev.start, prev.count, |a| + 1);
    t.Update(prev.startoff + n.count, Block(prev.start.bno + n.count), prev.count - n.count, prev.unwritten);
    var i := t.Decrement();
    t.Update(left.startoff, left.start, left.count + n.count, left.unwritten);
  }

  method FirstLeft(f: Fork, idx: nat, n: Irec)
    requires f.Valid() && Convertible(f.exts, idx, n) && LeftJoins(f.exts, idx, n)
    requires f.exts[idx].startoff == n.startoff && n.End() < f.exts[idx].End()
    modifies f, f.tree
    ensures f.lastex == idx - 1
    ensures Became(f, old(f.exts), idx - 1, idx + 1,
                   [old(f.exts[idx - 1]).(count := old(f.exts[idx - 1]).count + n.count), Behind(old(f.exts[idx]), n)])
  {
    hide Wf, MapOf;
    ghost var exts := f.exts;
    var left, prev := f.exts[idx - 1], f.exts[idx];
    var joined := left.(count := left.count + n.count);
    SpliceReals(exts, idx - 1, idx + 1, [joined, Behind(prev, n)]);
    RealsFew(left, prev, prev);
    RealsFew(joined, Behind(prev, n), prev);
    RealsWf(exts);
    assert exts[idx - 1..idx + 1] == [left, prev];
    f.exts := f.exts[idx - 1 := joined];
    f.exts := f.exts[idx := Irec(prev.startoff + n.count, Block(n.start.bno + n.count), prev.count - n.count, prev.unwritten)];
    f.lastex := idx - 1;
    assert f.exts == Splice(exts, idx - 1, idx + 1, [joined, Behind(prev, n)]);
    if f.tree != null {
      TreeFirstLeft(f.tree, left, prev, n, Reals(exts[..idx - 1]), Reals(exts[idx + 1..]));
    }
  }

  /** The first part of the extent, on its own. */
  method TreeFirst(t: Bmbt, prev: Irec, n: Irec, ghost a: seq<Irec>, ghost c: seq<Irec>)
    requires Wf(t.recs) && t.recs == a + [prev] + c && prev.start == n.start && n.start.Block?
    requires prev.startoff == n.startoff && n.count < prev.count
    modifies t
    ensures t.recs == a + [n, Behind(prev, n)] + c
  {
    Locate(t, prev.startoff, prev.start, prev.count, |a|);
    t.Update(prev.startoff + n.count, Block(prev.start.bno + n.count), prev.count - n.count, prev.unwritten);
    t.rec := n;
    var i := t.Insert();
  }

  method First(f: Fork, idx: nat, n: Irec)
    requires f.Valid() && Convertible(f.exts, idx, n)
    requires f.exts[idx].startoff == n.startoff && n.End() < f.exts[idx].End()
    modifies f, f.tree
    ensures f.lastex == idx
    ensures Became(f, old(f.exts), idx, idx + 1, [n, Behind(old(f.exts[idx]), n)])
  {
    hide Wf, MapOf;
    ghost var exts := f.exts;
    var prev := f.exts[idx];
    SpliceReals(exts, idx, idx + 1, [n, Behind(prev, n)]);
    RealsFew(prev, prev, prev);
    RealsFew(n, Behind(prev, n), prev);
    RealsWf(exts);
    assert exts[idx..idx + 1] == [prev];
    f.exts := f.exts[idx := Irec(n.End(), Block(n.start.bno + n.count), prev.count - n.count, prev.unwritten)];
    f.InsertExts(idx, [n]);
    f.lastex := idx;
    f.nextents := f.nextents + 1;
    assert f.exts == Splice(exts, idx, idx + 1, [n, Behind(prev, n)]);
    if f.tree != null {
      TreeFirst(f.tree, prev, n, Reals(exts[..idx]), Reals(exts[idx + 1..]));
    }
  }

  /** The last part of the extent, joined with the right neighbour. */
  method TreeLastRight(t: Bmbt, prev: Irec, right: Irec, n: Irec, ghost a: seq<Irec>, ghost c: seq<Irec>)
    requires Wf(t.recs) && t.recs == a + [prev, right] + c && n.count < prev.count
    modifies t
    ensures t.recs == a + [prev.(count := prev.count - n.count), n.(count := n.count + right.count)] + c
  {
    Locate(t, prev.startoff, prev.start, prev.count, |a|);
    t.Update(prev.startoff, prev.start, prev.count - n.count, prev.unwritten);
    var i := t.Increment();
    t.Update(n.startoff, n.start, n.count + right.count, n.unwritten);
  }

  method LastRight(f: Fork, idx: nat, n: Irec)
    requires f.Valid() && Convertible(f.exts, idx, n) && RightJoins(f.exts, idx, n)
    requires f.exts[idx].startoff < n.startoff && n.End() == f.exts[idx].End()
    modifies f, f.tree
    ensures f.lastex == idx + 1
    ensures Became(f, old(f.exts), idx, idx + 2,
                   [old(f.exts[idx]).(count := old(f.exts[idx]).count - n.count),
                       n.(count := n.count + old(f.exts[idx + 1]).count)])
  {
    hide Wf, MapOf;
    ghost var exts := f.exts;
    var prev, right := f.exts[idx], f.exts[idx + 1];
    var before, joined := prev.(count := prev.count - n.count), Irec(n.startoff, n.start, n.count + right.count, n.unwritten);
    SpliceReals(exts, idx, idx + 2, [before, joined]);
    RealsFew(prev, right, prev);
    RealsFew(before, joined, prev);
    RealsWf(exts);
    assert exts[idx..idx + 2] == [prev, right];
    f.exts := f.exts[idx := before];
    f.exts := f.exts[idx + 1 := joined];
    f.lastex := idx + 1;
    assert f.exts == Splice(exts, idx, idx + 2, [before, joined]);
    if f.tree != null {
      TreeLastRight(f.tree, prev, right, n, Reals(exts[..idx]), Reals(exts[idx + 2..]));
    }
  }

  /** The last part of the extent, on its own. The record put into the btree is written, whatever n is. */
  method TreeLast(t: Bmbt, prev: Irec, n: Irec, ghost a: seq<Irec>, ghost c: seq<Irec>)
    requires Wf(t.recs) && t.recs == a + [prev] + c && prev.startoff < n.startoff && n.End() == prev.End() && n.count > 0
    modifies t
    ensures t.recs == a + [prev.(count := prev.count - n.count), n.(unwritten := false)] + c
  {
    Locate(t, prev.startoff, prev.start, prev.count, |a|);
    t.Update(prev.startoff, prev.start, prev.count - n.count, prev.unwritten);
    ghost var before := prev.(count := prev.count - n.count);
    assert t.recs == a + [before] + c;
    LocateAfter(t, n, |a|, a + [prev] + c);
    t.rec := t.rec.(unwritten := false);
    var i := t.Insert();
  }

  /** Looking for a record that is not there, in place of one that was cut short. */
  method LocateAfter(t: Bmbt, n: Irec, ghost k: nat, ghost recs0: seq<Irec>)
    requires Wf(recs0) && k < |recs0| == |t.recs|
    requires forall i :: 0 <= i < |recs0| && i != k ==> t.recs[i] == recs0[i]
    requires t.recs[k].startoff == recs0[k].startoff < n.startoff < recs0[k].End()
    modifies t`at, t`rec
    ensures t.at == k + 1 && t.rec == n.(unwritten := old(t.rec).unwritten)
  {
    var stat := t.LookupEq(n.startoff, n.start, n.count);
    assert forall i :: 0 <= i < k ==> t.recs[i].startoff < recs0[i].End() <= recs0[k].startoff;
    assert k + 1 < |recs0| ==> recs0[k].End() <= t.recs[k + 1].startoff;
  }

  /** The btree after the last part was converted: it agrees with the list unless n is unwritten. */
  ghost predicate BecameLast(f: Fork, exts: seq<Irec>, idx: nat, n: Irec)
    reads f, f.tree
  {
    && idx < |exts| && n.count <= exts[idx].count
    && f.exts == Splice(exts, idx, idx + 1, [exts[idx].(count := exts[idx].count - n.count), n])
    && f.nextents == |Reals(f.exts)|
    && (f.tree != null ==> (f.tree.recs == Reals(f.exts) <==> !n.unwritten))
  }

  method Last(f: Fork, idx: nat, n: Irec)
    requires f.Valid() && Convertible(f.exts, idx, n)
    requires f.exts[idx].startoff < n.startoff && n.End() == f.exts[idx].End()
    modifies f, f.tree
    ensures f.lastex == idx + 1
    ensures BecameLast(f, old(f.exts), idx, n)
  {
    hide Wf, MapOf;
    ghost var exts := f.exts;
    var prev := f.exts[idx];
    var before := prev.(count := prev.count - n.count);
    SpliceReals(exts, idx, idx + 1, [before, n]);
    RealsFew(prev, prev, prev);
    RealsFew(before, n, prev);
    RealsWf(exts);
    assert exts[idx..idx + 1] == [prev];
    f.exts := f.exts[idx := before];
    f.InsertExts(idx + 1, [n]);
    f.lastex := idx + 1;
    f.nextents := f.nextents + 1;
    ghost var a, c := Reals(exts[..idx]), Reals(exts[idx + 1..]);
    assert f.exts == Splice(exts, idx, idx + 1, [before, n]);
    if f.tree != null {
      TreeLast(f.tree, prev, n, a, c);
      assert Reals(f.exts)[|a| + 1] == n && f.tree.recs[|a| + 1] == n.(unwritten := false);
    }
  }

  /** A record put in between two parts of a list. */
  lemma InsBetween(s: seq<Irec>, p: seq<Irec>, x: Irec, q: seq<Irec>)
    requires s == p + q
    ensures |p| <= |s| && s[..|p|] + [x] + s[|p|..] == p + [x] + q
  {
    assert s[..|p|] == p && s[|p|..] == q;
  }

  lemma ListsJoin(a: seq<Irec>, l: seq<Irec>, r: seq<Irec>, c: seq<Irec>)
    ensures a + l + (r + c) == a + (l + r) + c
  {
  }

  /** Cut a record in two. */
  method TreeCutIn(t: Bmbt, prev: Irec, before: Irec, right: Irec, ghost a: seq<Irec>, ghost c: seq<Irec>)
    requires Wf(t.recs) && t.recs == a + [prev] + c
    modifies t
    ensures t.recs == a + [before, right] + c
  {
    hide Wf;
    Locate(t, prev.startoff, prev.start, prev.count, |a|);
    t.Update(right.startoff, right.start, right.count, right.unwritten);
    assert t.recs == a + ([right] + c);
    InsBetween(t.recs, a, before, [right] + c);
    t.rec := before;
    var i := t.Insert();
    ListsJoin(a, [before], [right], c);
  }

  /** A part from the middle of the extent. */
  method TreeMiddle(t: Bmbt, prev: Irec, n: Irec, right: Irec, ghost a: seq<Irec>, ghost c: seq<Irec>)
    requires Wf(t.recs) && t.recs == a + [prev] + c && prev.startoff < n.startoff && n.count > 0
    requires n.End() == right.startoff && right.End() == prev.End() && right.count > 0
    modifies t
    ensures t.recs == a + [prev.(count := n.startoff - prev.startoff), n, right] + c
  {
    hide Wf;
    var before := prev.(count := n.startoff - prev.startoff);
    TreeCutIn(t, prev, before, right, a, c);
    LocateBetween(t, n, |a|, a + [prev] + c);
    ListsJoin(a, [before], [right], c);
    ghost var p := a + [before];
    InsBetween(t.recs, p, n, [right] + c);
    t.rec := t.rec.(unwritten := n.unwritten);
    var i := t.Insert();
    ListsJoin(a, [before], [n], [right] + c);
    ListsJoin(a, [before, n], [right], c);
  }

  /** Looking for a record that is not there, between the two parts of one that was cut in two. */
  method LocateBetween(t: Bmbt, n: Irec, ghost k: nat, ghost recs0: seq<Irec>)
    requires Wf(recs0) && k < |recs0| && |t.recs| == |recs0| + 1
    requires forall i :: 0 <= i < k ==> t.recs[i] == recs0[i]
    requires t.recs[k].startoff < n.startoff < t.recs[k + 1].startoff
    requires t.recs[k].startoff == recs0[k].startoff
    modifies t`at, t`rec
    ensures t.at == k + 1 && t.rec == n.(unwritten := old(t.rec).unwritten)
  {
    var stat := t.LookupEq(n.startoff, n.start, n.count);
    assert forall i :: 0 <= i < k ==> recs0[i].startoff < recs0[i].End() <= recs0[k].startoff;
  }

  method Middle(f: Fork, idx: nat, n: Irec)
    requires f.Valid() && Convertible(f.exts, idx, n)
    requires f.exts[idx].startoff < n.startoff && n.End() < f.exts[idx].End()
    modifies f, f.tree
    ensures f.lastex == idx + 1
    ensures Became(f, old(f.exts), idx, idx + 1, Parts(old(f.exts[idx]), n))
  {
    hide Wf, MapOf;
    ghost var exts := f.exts;
    var prev := f.exts[idx];
    var before := prev.(count := n.startoff - prev.startoff);
    var right := Irec(n.End(), Block(n.start.bno + n.count), prev.End() - n.End(), prev.unwritten);
    SpliceReals(exts, idx, idx + 1, [before, n, right]);
    RealsFew(prev, prev, prev);
    RealsFew(before, n, right);
    RealsWf(exts);
    assert exts[idx..idx + 1] == [prev];
    f.exts := f.exts[idx := before];
    f.InsertExts(idx + 1, [n, right]);
    f.lastex := idx + 1;
    f.nextents := f.nextents + 2;
    assert f.exts == Splice(exts, idx, idx + 1, [before, n, right]);
    if f.tree != null {
      TreeMiddle(f.tree, prev, n, right, Reals(exts[..idx]), Reals(exts[idx + 1..]));
    }
  }

  /** An extent with a part from its middle set apart. */
  function Parts(prev: Irec, n: Irec): seq<Irec>
    requires n.start.Block? && prev.startoff <= n.startoff && n.End() <= prev.End()
  {
    [prev.(count := n.startoff - prev.startoff), n,
        Irec(n.End(), Block(n.start.bno + n.count), prev.End() - n.End(), prev.unwritten)]
  }

  /** The case that forgets the state: the last part alone becomes an extent of its own, and that is unwritten. */
  predicate ForgetsState(exts: seq<Irec>, idx: nat, n: Irec)
    requires idx < |exts| && n.start.Block?
  {
    && exts[idx].startoff < n.startoff && n.End() == exts[idx].End()
    && !RightJoins(exts, idx, n)
    && n.unwritten
  }

  /** What is left of an extent before n. */
  function Before(prev: Irec, n: Irec): seq<Irec> {
    if prev.startoff < n.startoff then [prev.(count := n.startoff - prev.startoff)] else []
  }

  /** And after it. */
  function After(prev: Irec, n: Irec): seq<Irec>
    requires n.start.Block?
  {
    if n.End() < prev.End() then [Irec(n.End(), Block(n.start.bno + n.count), prev.End() - n.End(), prev.unwritten)] else []
  }

  /** n and the neighbours it joins, as one extent. */
  function Joined(exts: seq<Irec>, idx: nat, n: Irec): Irec
    requires idx < |exts| && n.start.Block?
  {
    var r := if RightJoins(exts, idx, n) then exts[idx + 1].count else 0;
    if LeftJoins(exts, idx, n) then exts[idx - 1].(count := exts[idx - 1].count + n.count + r) else n.(count := n.count + r)
  }

  /** The extent is replaced by what is left of it and n, joined with the neighbours it joins, and that is the last one used. */
  ghost predicate Recut(exts: seq<Irec>, exts': seq<Irec>, lastex: int, idx: nat, n: Irec) {
    && idx < |exts| && n.start.Block?
    && var i, j := if LeftJoins(exts, idx, n) then idx - 1 else idx, if RightJoins(exts, idx, n) then idx + 2 else idx + 1;
       && exts' == Splice(exts, i, j, Before(exts[idx], n) + [Joined(exts, idx, n)] + After(exts[idx], n))
       && lastex == i + |Before(exts[idx], n)|
  }

  /** A neighbour is left apart only if it does not follow on, or is in the other state, or would make n too long. */
  lemma JoinsAll(exts: seq<Irec>, idx: nat, n: Irec)
    requires Wf(exts) && Convertible(exts, idx, n)
    ensures var one := Joined(exts, idx, n);
            && (idx > 0 && !LeftJoins(exts, idx, n) && exts[idx - 1].start.Block? && exts[idx - 1].unwritten == n.unwritten
                && exts[idx - 1].End() == n.startoff && exts[idx - 1].start.bno + exts[idx - 1].count == n.start.bno ==>
                  exts[idx - 1].count + one.count > MAXEXTLEN)
            && (idx + 1 < |exts| && !RightJoins(exts, idx, n) && exts[idx + 1].start.Block?
                && exts[idx + 1].unwritten == n.unwritten
                && n.End() == exts[idx + 1].startoff && n.start.bno + n.count == exts[idx + 1].start.bno ==>
                  one.count + exts[idx + 1].count > MAXEXTLEN)
            && one.count <= MAXEXTLEN
  {
  }

  /**
   * Give n, part of extent idx, its new state: the map's blocks stay as they are, and so do all other states. The
   * btree follows but in one case, where the code always writes a record of written blocks.
   */
  method AddExtentUnwrittenReal(f: Fork, idx: nat, n: Irec)
    requires f.Valid() && Convertible(f.exts, idx, n)
    modifies f, f.tree
    ensures Converted(old(f.exts), f.exts, n) && Recut(old(f.exts), f.exts, f.lastex, idx, n)
    ensures f.nextents == |Reals(f.exts)|
    ensures f.tree != null ==> (f.tree.recs == Reals(f.exts) <==> !old(ForgetsState(f.exts, idx, n)))
  {
    hide Splice, Wf, Converted, Reals;
    ghost var exts := f.exts;
    var prev := f.exts[idx];
    var leftFilling, rightFilling := prev.startoff == n.startoff, prev.End() == n.End();
    var leftContig, rightContig := LeftJoins(f.exts, idx, n), RightJoins(f.exts, idx, n);
    Possible(exts, idx, n);
    Pieces(prev, n, Joined(exts, idx, n));
    if leftFilling && rightFilling && leftContig && rightContig {
      AllBoth(f, idx, n);
      AllBothMap(f, exts, idx, n);
    } else if leftFilling && rightFilling && leftContig {
      AllLeft(f, idx, n);
      AllLeftMap(f, exts, idx, n);
    } else if leftFilling && rightFilling && rightContig {
      AllRight(f, idx, n);
      AllRightMap(f, exts, idx, n);
    } else if leftFilling && rightFilling {
      All(f, idx, n);
      AllMap(f, exts, idx, n);
    } else if leftFilling && leftContig && !rightContig {
      FirstLeft(f, idx, n);
      FirstLeftMap(f, exts, idx, n);
    } else if leftFilling && !leftContig && !rightContig {
      First(f, idx, n);
      FirstMap(f, exts, idx, n);
    } else if !leftFilling && rightFilling && rightContig && !leftContig {
      LastRight(f, idx, n);
      LastRightMap(f, exts, idx, n);
    } else if !leftFilling && rightFilling && !leftContig {
      Last(f, idx, n);
      LastMap(f, exts, idx, n);
    } else if !leftFilling && !leftContig && !rightContig {
      Middle(f, idx, n);
      MiddleMap(f, exts, idx, n);
    } else {
      assert false;
    }
  }

  lemma Pieces(prev: Irec, n: Irec, one: Irec)
    requires n.start.Block? && prev.startoff <= n.startoff && n.End() <= prev.End()
    ensures Before(prev, n) + [one] + After(prev, n) ==
            if prev.startoff == n.startoff && prev.End() == n.End() then [one]
            else if prev.startoff == n.startoff then [one, Behind(prev, n)]
            else if prev.End() == n.End() then [prev.(count := prev.count - n.count), one]
            else [prev.(count := n.startoff - prev.startoff), one,
                  Irec(n.End(), Block(n.start.bno + n.count), prev.End() - n.End(), prev.unwritten)]
  {
  }

  /** A neighbour joins only what fills the extent to its end. */
  lemma Possible(exts: seq<Irec>, idx: nat, n: Irec)
    requires Wf(exts) && Convertible(exts, idx, n)
    ensures LeftJoins(exts, idx, n) ==> exts[idx].startoff == n.startoff
    ensures RightJoins(exts, idx, n) ==> exts[idx].End() == n.End()
  {
  }

  lemma AllBothMap(f: Fork, exts: seq<Irec>, idx: nat, n: Irec)
    requires Wf(exts) && Convertible(exts, idx, n) && LeftJoins(exts, idx, n) && RightJoins(exts, idx, n)
    requires exts[idx].startoff == n.startoff && exts[idx].End() == n.End()
    requires Became(f, exts, idx - 1, idx + 2, [exts[idx - 1].(count := exts[idx - 1].count + n.count + exts[idx + 1].count)])
    ensures Converted(exts, f.exts, n)
  {
    hide MapOf, Splice;
    var left, prev, right := exts[idx - 1], exts[idx], exts[idx + 1];
    var joined := left.(count := left.count + n.count + right.count);
    assert exts[idx - 1..idx + 2] == [left, prev, right];
    forall o | left.startoff <= o < right.End()
      ensures MapOf([joined], o) == if Has(n, o) then MapIn(n, o) else MapOf([left, prev, right], o)
    {
      MapFew(left, prev, right, o);
      MapFew(joined, prev, right, o);
    }
    ConvertedBy(exts, idx - 1, idx + 2, [joined], left.startoff, right.End(), n);
  }

  lemma AllLeftMap(f: Fork, exts: seq<Irec>, idx: nat, n: Irec)
    requires Wf(exts) && Convertible(exts, idx, n) && LeftJoins(exts, idx, n)
    requires exts[idx].startoff == n.startoff && exts[idx].End() == n.End()
    requires Became(f, exts, idx - 1, idx + 1, [exts[idx - 1].(count := exts[idx - 1].count + n.count)])
    ensures Converted(exts, f.exts, n)
  {
    hide MapOf, Splice;
    var left, prev := exts[idx - 1], exts[idx];
    var joined := left.(count := left.count + n.count);
    assert exts[idx - 1..idx + 1] == [left, prev];
    forall o | left.startoff <= o < prev.End()
      ensures MapOf([joined], o) == if Has(n, o) then MapIn(n, o) else MapOf([left, prev], o)
    {
      MapFew(left, prev, prev, o);
      MapFew(joined, prev, prev, o);
    }
    ConvertedBy(exts, idx - 1, idx + 1, [joined], left.startoff, prev.End(), n);
  }

  lemma AllRightMap(f: Fork, exts: seq<Irec>, idx: nat, n: Irec)
    requires Wf(exts) && Convertible(exts, idx, n) && RightJoins(exts, idx, n)
    requires exts[idx].startoff == n.startoff && exts[idx].End() == n.End()
    requires Became(f, exts, idx, idx + 2, [n.(count := n.count + exts[idx + 1].count)])
    ensures Converted(exts, f.exts, n)
  {
    hide MapOf, Splice;
    var prev, right := exts[idx], exts[idx + 1];
    var joined := n.(count := n.count + right.count);
    assert exts[idx..idx + 2] == [prev, right];
    forall o | prev.startoff <= o < right.End()
      ensures MapOf([joined], o) == if Has(n, o) then MapIn(n, o) else MapOf([prev, right], o)
    {
      MapFew(prev, right, right, o);
      MapFew(joined, right, right, o);
    }
    ConvertedBy(exts, idx, idx + 2, [joined], prev.startoff, right.End(), n);
  }

  lemma AllMap(f: Fork, exts: seq<Irec>, idx: nat, n: Irec)
    requires Wf(exts) && Convertible(exts, idx, n)
    requires exts[idx].startoff == n.startoff && exts[idx].End() == n.End()
    requires Became(f, exts, idx, idx + 1, [n])
    ensures Converted(exts, f.exts, n)
  {
    hide MapOf, Splice;
    var prev := exts[idx];
    assert exts[idx..idx + 1] == [prev];
    forall o | prev.startoff <= o < prev.End()
      ensures MapOf([n], o) == if Has(n, o) then MapIn(n, o) else MapOf([prev], o)
    {
      MapFew(n, prev, prev, o);
    }
    ConvertedBy(exts, idx, idx + 1, [n], prev.startoff, prev.End(), n);
  }

  lemma FirstLeftMap(f: Fork, exts: seq<Irec>, idx: nat, n: Irec)
    requires Wf(exts) && Convertible(exts, idx, n) && LeftJoins(exts, idx, n)
    requires exts[idx].startoff == n.startoff && n.End() < exts[idx].End()
    requires Became(f, exts, idx - 1, idx + 1, [exts[idx - 1].(count := exts[idx - 1].count + n.count), Behind(exts[idx], n)])
    ensures Converted(exts, f.exts, n)
  {
    hide MapOf, Splice;
    var left, prev := exts[idx - 1], exts[idx];
    var joined, rest := left.(count := left.count + n.count), Behind(prev, n);
    assert exts[idx - 1..idx + 1] == [left, prev];
    forall o | left.startoff <= o < prev.End()
      ensures MapOf([joined, rest], o) == if Has(n, o) then MapIn(n, o) else MapOf([left, prev], o)
    {
      MapFew(left, prev, prev, o);
      MapFew(joined, rest, prev, o);
    }
    ConvertedBy(exts, idx - 1, idx + 1, [joined, rest], left.startoff, prev.End(), n);
  }

  lemma FirstMap(f: Fork, exts: seq<Irec>, idx: nat, n: Irec)
    requires Wf(exts) && Convertible(exts, idx, n)
    requires exts[idx].startoff == n.startoff && n.End() < exts[idx].End()
    requires Became(f, exts, idx, idx + 1, [n, Behind(exts[idx], n)])
    ensures Converted(exts, f.exts, n)
  {
    hide MapOf, Splice;
    var prev, rest := exts[idx], Behind(exts[idx], n);
    assert exts[idx..idx + 1] == [prev];
    forall o | prev.startoff <= o < prev.End()
      ensures MapOf([n, rest], o) == if Has(n, o) then MapIn(n, o) else MapOf([prev], o)
    {
      MapFew(prev, prev, prev, o);
      MapFew(n, rest, prev, o);
    }
    ConvertedBy(exts, idx, idx + 1, [n, rest], prev.startoff, prev.End(), n);
  }

  lemma LastRightMap(f: Fork, exts: seq<Irec>, idx: nat, n: Irec)
    requires Wf(exts) && Convertible(exts, idx, n) && RightJoins(exts, idx, n)
    requires exts[idx].startoff < n.startoff && n.End() == exts[idx].End()
    requires Became(f, exts, idx, idx + 2, [exts[idx].(count := exts[idx].count - n.count),
              n.(count := n.count + exts[idx + 1].count)])
    ensures Converted(exts, f.exts, n)
  {
    hide MapOf, Splice;
    var prev, right := exts[idx], exts[idx + 1];
    var before, joined := prev.(count := prev.count - n.count), n.(count := n.count + right.count);
    assert exts[idx..idx + 2] == [prev, right];
    forall o | prev.startoff <= o < right.End()
      ensures MapOf([before, joined], o) == if Has(n, o) then MapIn(n, o) else MapOf([prev, right], o)
    {
      MapFew(prev, right, right, o);
      MapFew(before, joined, right, o);
    }
    ConvertedBy(exts, idx, idx + 2, [before, joined], prev.startoff, right.End(), n);
  }

  lemma LastMap(f: Fork, exts: seq<Irec>, idx: nat, n: Irec)
    requires Wf(exts) && Convertible(exts, idx, n)
    requires exts[idx].startoff < n.startoff && n.End() == exts[idx].End()
    requires BecameLast(f, exts, idx, n)
    ensures Converted(exts, f.exts, n)
  {
    hide MapOf, Splice;
    var prev := exts[idx];
    var before := prev.(count := prev.count - n.count);
    assert exts[idx..idx + 1] == [prev];
    forall o | prev.startoff <= o < prev.End()
      ensures MapOf([before, n], o) == if Has(n, o) then MapIn(n, o) else MapOf([prev], o)
    {
      MapFew(prev, prev, prev, o);
      MapFew(before, n, prev, o);
    }
    ConvertedBy(exts, idx, idx + 1, [before, n], prev.startoff, prev.End(), n);
  }

  lemma MiddleMap(f: Fork, exts: seq<Irec>, idx: nat, n: Irec)
    requires Wf(exts) && Convertible(exts, idx, n)
    requires exts[idx].startoff < n.startoff && n.End() < exts[idx].End()
    requires Became(f, exts, idx, idx + 1, Parts(exts[idx], n))
    ensures Converted(exts, f.exts, n)
  {
    hide MapOf, Splice;
    var prev, mid := exts[idx], Parts(exts[idx], n);
    assert exts[idx..idx + 1] == [prev];
    forall o | prev.startoff <= o < prev.End()
      ensures MapOf(mid, o) == if Has(n, o) then MapIn(n, o) else MapOf([prev], o)
    {
      MapFew(prev, prev, prev, o);
      MapFew(mid[0], mid[1], mid[2], o);
    }
    ConvertedBy(exts, idx, idx + 1, mid, prev.startoff, prev.End(), n);
  }

  /** An extent of ten written blocks whose last five are to become unwritten is such a case. */
  lemma ForgetsExample()
    ensures var exts, n := [Irec(0, Block(100), 10, false)], Irec(5, Block(105), 5, true);
            Wf(exts) && Convertible(exts, 0, n) && ForgetsState(exts, 0, n)
  {
  }
}
