/** Taking part of a free extent out of both trees. */
module AllocFixup {
  import opened Records
  import opened Extents
  import opened Levels
  import opened FreeLists
  import opened Btrees
  import opened BtreeInsert
  import opened BtreeDelete
  import opened BtreeLookup
  import opened BtreeFull
  import opened AllocTree
  import opened AllocGroup

  /** r is a part of extent f. */
  ghost predicate PartOf(r: Rec, f: Rec) {
    r.count > 0 && f.start <= r.start && r.start + r.count <= f.start + f.count
  }

  /** The extents with r taken out of f. */
  ghost function Less(s: set<Rec>, f: Rec, r: Rec): set<Rec>
    requires PartOf(r, f)
  {
    With(With(s - {f}, Front(f, r)), Back(f, r))
  }

  /** Stands for no extent. */
  const NoRec := Rec(NULLAGBLOCK, 0)

  /** The one or two free extents left over; the first is absent only if the second is. */
  function Remains(f: Rec, r: Rec): (n: (Rec, Rec))
    requires f.start <= r.start && r.start + r.count <= f.start + f.count
  {
    if r.start == f.start && r.count == f.count then (NoRec, NoRec)
    else if r.start == f.start then (Rec(r.start + r.count, f.count - r.count), NoRec)
    else if r.start + r.count == f.start + f.count then (Rec(f.start, f.count - r.count), NoRec)
    else (Rec(f.start, r.start - f.start), Rec(r.start + r.count, f.start + f.count - (r.start + r.count)))
  }

  ghost function Plus(s: set<Rec>, n: Rec): set<Rec> {
    if n.start != NULLAGBLOCK then s + {n} else s
  }

  lemma RemainsLess(s: set<Rec>, f: Rec, r: Rec)
    requires PartOf(r, f) && f.start + f.count <= NULLAGBLOCK
    ensures Plus(Plus(s - {f}, Remains(f, r).0), Remains(f, r).1) == Less(s, f, r)
    ensures Remains(f, r).0.start == NULLAGBLOCK ==> Remains(f, r).1.start == NULLAGBLOCK
    ensures r.start == f.start || r.start + r.count == f.start + f.count ==> Remains(f, r).1.start == NULLAGBLOCK
  {
  }

  /** What is left over of an extent collides with no other extent. */
  lemma RemainsFresh(kind: Kind, s: set<Rec>, f: Rec, r: Rec)
    requires Apart(s) && f in s && PartOf(r, f) && f.start + f.count <= NULLAGBLOCK
    ensures var (n1, n2) := Remains(f, r);
            && (n1.start != NULLAGBLOCK ==> f.start <= n1.start < f.start + f.count && Absent(kind, s - {f}, n1))
            && (n2.start != NULLAGBLOCK ==> Absent(kind, s - {f} + {n1}, n2))
  {
  }

  /** How many blocks it may take to put in what is left over, in a tree of n levels. */
  function Draws(n1: Rec, n2: Rec, n: nat): nat {
    if n1.start == NULLAGBLOCK then 0 else if n2.start == NULLAGBLOCK then n + 1 else 2 * n + 3
  }

  /** Places of two records in the order of a tree: two leaves apart at least, each within a leaf with full neighbours. */
  ghost predicate TwoPlaces(t: Btree, lv: Level, recs: seq<Rec>, n1: Rec, n2: Rec, k1: nat, c1: nat, k2: nat, c2: nat) {
    && Between(t.kind, recs, k1, n1) && Inside(lv, c1, k1) && FullAround(lv, c1, t.mxr)
    && Between(t.kind, recs, k2, n2) && Inside(lv, c2, k2) && FullAround(lv, c2, t.mxr)
    && (c1 + 2 <= c2 || c2 + 2 <= c1)
  }

  /** There are such places, and all blocks above the leaves are full. */
  ghost predicate Crowded(t: Btree, lv: seq<Level>, recs: seq<Rec>, n1: Rec, n2: Rec) {
    0 < |lv| && FullNodes(t, lv) && exists k1, c1, k2, c2 :: TwoPlaces(t, lv[0], recs, n1, n2, k1, c1, k2, c2)
  }

  lemma InsideOrder(lv: Level, b: nat, j: int, c: nat, k: int)
    requires Inside(lv, b, j) && Inside(lv, c, k) && b < c
    ensures j < k
  {
    OffNext(lv, b);
    OffMono(lv, b + 1, c);
  }

  /** With the first put in and its leaf cut in two, the second still goes to a leaf with full neighbours. */
  lemma SecondPlace(t: Btree, lv: Level, lv': Level, recs: seq<Rec>, n1: Rec, n2: Rec, k1: nat, c1: nat, k2: nat, c2: nat)
    returns (k: nat, c: nat)
    requires TwoPlaces(t, lv, recs, n1, n2, k1, c1, k2, c2) && Sorted(t.kind, recs) && |recs| == |Flat(lv)|
    requires Halved(lv, lv', c1) && |Flat(lv')| == |Flat(lv)| + 1
    ensures Between(t.kind, Ins(recs, k1, n1), k, n2) && Inside(lv', c, k) && FullAround(lv', c, t.mxr)
  {
    hide Flat, Off, Inside, FullAround, Halved;
    var recs' := Ins(recs, k1, n1);
    assert forall i :: 0 <= i < |recs'| ==> recs'[i] == if i < k1 then recs[i] else if i == k1 then n1 else recs[i - 1];
    if c2 < c1 {
      InsideOrder(lv, c2, k2, c1, k1);
      HalvedBefore(lv, lv', c1, c2, k2, t.mxr);
      k, c := k2, c2;
      assert Before(t.kind, n2, recs[k2]) && Before(t.kind, recs[k1 - 1], n1);
      assert k2 < k1 - 1 ==> Before(t.kind, recs[k2], recs[k1 - 1]);
    } else {
      InsideOrder(lv, c1, k1, c2, k2);
      HalvedAfter(lv, lv', c1, c2, k2, t.mxr);
      k, c := k2 + 1, c2 + 1;
      assert Before(t.kind, n1, recs[k1]) && Before(t.kind, recs[k2 - 1], n2);
      assert k1 < k2 - 1 ==> Before(t.kind, recs[k1], recs[k2 - 1]);
    }
  }

  lemma OnePlace(kind: Kind, recs: seq<Rec>, j: nat, k: nat, r: Rec)
    requires Between(kind, recs, j, r) && Between(kind, recs, k, r)
    ensures j == k
  {
    var i := if j < k then j else k;
    if i < |recs| {
      var q := recs[i];
    }
  }

  /** What the two insertions draw together. */
  lemma AddCost(t: Btree, lv0: seq<Level>, lv1: seq<Level>, lv2: seq<Level>, recs: seq<Rec>, n1: Rec, n2: Rec,
                k: nat, b: nat, k': nat, b': nat, drew1: int, drew2: int)
    requires 0 < |lv0| && 0 < |lv1| && recs == Keys(Flat(lv0[0])) && Sorted(t.kind, recs)
    requires Between(t.kind, recs, k, n1) && forall c :: Inside(lv0[0], c, k) ==> c == b
    requires Drew(t, lv0, lv1, b, drew1) && Keys(Flat(lv1[0])) == Ins(recs, k, n1)
    requires Between(t.kind, Ins(recs, k, n1), k', n2) && forall c :: Inside(lv1[0], c, k') ==> c == b'
    requires Drew(t, lv1, lv2, b', drew2)
    ensures Crowded(t, lv0, recs, n1, n2) ==> |lv0| + 2 <= drew1 + drew2
  {
    hide Flat, Off, Inside, FullAround, Halved, FullNodes;
    if Crowded(t, lv0, recs, n1, n2) {
      var k1, c1, k2, c2 :| TwoPlaces(t, lv0[0], recs, n1, n2, k1, c1, k2, c2);
      OnePlace(t.kind, recs, k, k1, n1);
      assert b == c1;
      var j, c := SecondPlace(t, lv0[0], lv1[0], recs, n1, n2, k1, c1, k2, c2);
      OnePlace(t.kind, Ins(recs, k, n1), j, k', n2);
      assert b' == c;
    }
  }

  /** Put what is left over into the by-size tree. */
  method AddRest(t: Btree, o: Btree, cur: Cursor, n1: Rec, n2: Rec) returns (ok: bool)
    requires Pair(t, o) && cur.Fits() && cur.nlevels == t.nlevels
    requires n1.start == NULLAGBLOCK ==> n2.start == NULLAGBLOCK
    requires n1.start != NULLAGBLOCK ==> Absent(t.kind, Held(t), n1)
    requires n2.start != NULLAGBLOCK ==> Absent(t.kind, Held(t) + {n1}, n2)
    modifies t`store, t`lv, t`root, t`nlevels, t`longest, t.fl, cur
    ensures ok ==> Kept(t, o, old(Reserve(t, o)), old(t.fl.btreeblks + |t.fl.queue|))
    ensures ok ==> Held(t) == Plus(Plus(old(Held(t)), n1), n2)
    ensures ok ==> |t.fl.queue| + Draws(n1, n2, old(t.nlevels)) >= old(|t.fl.queue|)
    ensures n1.start == NULLAGBLOCK ==> |t.fl.queue| == old(|t.fl.queue|)
    ensures ok ==> |t.fl.queue| <= old(|t.fl.queue|) && old(t.nlevels) <= t.nlevels
    ensures ok && n2.start != NULLAGBLOCK && old(Crowded(t, t.lv, t.Recs(), n1, n2)) ==>
              |t.fl.queue| + old(t.nlevels) + 2 <= old(|t.fl.queue|)
    ensures old(|t.fl.queue| >= Draws(n1, n2, t.nlevels)) ==> ok
  {
    if n1.start == NULLAGBLOCK {
      return true;
    }
    ghost var lv0, recs, q := t.lv, t.Recs(), |t.fl.queue|;
    ghost var k, b;
    ok, k, b := Add(t, o, cur, n1);
    if !ok || n2.start == NULLAGBLOCK {
      return;
    }
    ghost var lv1, q1 := t.lv, |t.fl.queue|;
    ghost var k', b';
    ok, k', b' := Add(t, o, cur, n2);
    if ok {
      AddCost(t, lv0, lv1, t.lv, recs, n1, n2, k, b, k', b', q - q1, q1 - |t.fl.queue|);
    }
  }

  ghost predicate InLeaf(lv: Level, c: nat, r: Rec) {
    c < |lv| && exists j :: 0 <= j < |lv[c].ents| && lv[c].ents[j].key == r
  }

  /**
   * All blocks of the tree are full, and what is left over of f goes to places before it: into leaves at least two away
   * from each other and from the leaf of f.
   */
  ghost predicate Squeezed(t: Btree, lv: seq<Level>, f: Rec, n1: Rec, n2: Rec) {
    AllFull(t, lv) && exists k1, c1, k2, c2, c :: LeftPlaces(t, lv[0], Keys(Flat(lv[0])), f, n1, n2, k1, c1, k2, c2, c)
  }

  ghost predicate LeftPlaces(t: Btree, lv: Level, recs: seq<Rec>, f: Rec, n1: Rec, n2: Rec,
                             k1: nat, c1: nat, k2: nat, c2: nat, c: nat) {
    TwoPlaces(t, lv, recs, n1, n2, k1, c1, k2, c2) && c1 + 2 <= c && c2 + 2 <= c && InLeaf(lv, c, f)
  }

  /** A record is in the leaf that a cursor at it is in. */
  lemma LeafOfRec(kind: Kind, lv: Level, c: nat, r: Rec, b: nat, ptr: int)
    requires Sorted(kind, Keys(Flat(lv))) && InLeaf(lv, c, r)
    requires b < |lv| && 1 <= ptr <= |lv[b].ents| && lv[b].ents[ptr - 1].key == r
    ensures b == c
  {
    hide Flat, Off;
    var j :| 0 <= j < |lv[c].ents| && lv[c].ents[j].key == r;
    FlatIndex(lv, c, j);
    FlatIndex(lv, b, ptr - 1);
    Distinct(kind, Keys(Flat(lv)), Off(lv, c) + j);
    assert Keys(Flat(lv))[Off(lv, c) + j] == r == Keys(Flat(lv))[Off(lv, b) + (ptr - 1)];
    OffNext(lv, b);
    OffNext(lv, c);
    if b < c {
      OffMono(lv, b + 1, c);
    } else if c < b {
      OffMono(lv, c + 1, b);
    }
  }

  /** With f deleted the places stay where they are. */
  lemma PlacesLeft(t: Btree, lv: Level, lv': Level, recs: seq<Rec>, f: Rec, n1: Rec, n2: Rec,
                   k1: nat, c1: nat, k2: nat, c2: nat, c: nat, k: nat)
    requires LeftPlaces(t, lv, recs, f, n1, n2, k1, c1, k2, c2, c)
    requires |lv'| == |lv| && forall i :: 0 <= i < |lv| && i != c ==> lv'[i] == lv[i]
    requires Off(lv, c) <= k < |recs|
    ensures TwoPlaces(t, lv', Del(recs, k), n1, n2, k1, c1, k2, c2)
  {
    hide Flat, Off, FullAround;
    ThinnedBefore(lv, lv', c, c1, k1, t.mxr);
    ThinnedBefore(lv, lv', c, c2, k2, t.mxr);
    OffNext(lv, c1);
    OffNext(lv, c2);
    OffMono(lv, c1 + 1, c);
    OffMono(lv, c2 + 1, c);
    var recs' := Del(recs, k);
    assert forall i :: 0 <= i < |recs'| ==> recs'[i] == recs[if i < k then i else i + 1];
  }

  /** So all is as it was for the insertions after the deletion. */
  lemma SqueezedLeft(t: Btree, lv: seq<Level>, lv': seq<Level>, f: Rec, n1: Rec, n2: Rec, b: nat, ptr: int)
    requires Squeezed(t, lv, f, n1, n2) && Sorted(t.kind, Keys(Flat(lv[0])))
    requires b < |lv[0]| && 1 <= ptr <= |lv[0][b].ents| && lv[0][b].ents[ptr - 1].key == f
    requires Thinned(lv, lv', b)
    ensures |lv'| == |lv| > 0 && Off(lv[0], b) + ptr - 1 < |Flat(lv[0])|
    ensures Crowded(t, lv', Del(Keys(Flat(lv[0])), Off(lv[0], b) + ptr - 1), n1, n2)
  {
    hide Flat, Off, Inside, FullAround, FullLevel;
    FullShape(t, lv, lv');
    FlatIndex(lv[0], b, ptr - 1);
    var recs := Keys(Flat(lv[0]));
    var k1, c1, k2, c2, c :| LeftPlaces(t, lv[0], recs, f, n1, n2, k1, c1, k2, c2, c);
    LeafOfRec(t.kind, lv[0], c, f, b, ptr);
    PlacesLeft(t, lv[0], lv'[0], recs, f, n1, n2, k1, c1, k2, c2, c, Off(lv[0], b) + ptr - 1);
  }

  lemma SqueezedAt(t: Btree, cur: Cursor, f: Rec, n1: Rec, n2: Rec)
    requires Good(t) && AtRec(t, cur, f)
    ensures AtLeaf(t, cur) && Held(t) == Elems(t.Recs()) && t.Recs()[cur.At(t.lv, 0)] == f
    ensures t.lv[0][cur.pos[0]].ents[cur.ptrs[0] - 1].key == f && Sorted(t.kind, Keys(Flat(t.lv[0])))
    ensures Squeezed(t, t.lv, f, n1, n2) ==> |t.lv[0][cur.pos[0]].ents| > t.MinRecs(0)
  {
    FlatIndex(t.lv[0], cur.pos[0], cur.ptrs[0] - 1);
  }

  /** Take the entry of f out of the by-size tree. */
  method DropEntry(t: Btree, o: Btree, cur: Cursor, n1: Rec, n2: Rec, ghost f: Rec) returns (ok: bool)
    requires Pair(t, o) && AtRec(t, cur, f)
    modifies t`store, t`lv, t`root, t`nlevels, t`longest, t.fl, t.fl.slots, cur
    ensures ok == old(|t.fl.queue| + t.nlevels <= t.fl.slots.Length)
    ensures ok ==> Kept(t, o, old(Reserve(t, o)), old(t.fl.btreeblks + |t.fl.queue|)) && Held(t) == old(Held(t)) - {f}
    ensures ok ==> cur.Fits() && cur.nlevels == t.nlevels && old(t.nlevels) - 1 <= t.nlevels <= old(t.nlevels)
    ensures ok ==> old(|t.fl.queue|) <= |t.fl.queue| <= old(|t.fl.queue|) + old(t.nlevels)
    ensures ok && old(Squeezed(t, t.lv, f, n1, n2)) ==>
              t.nlevels == old(t.nlevels) && t.fl.queue == old(t.fl.queue) && Crowded(t, t.lv, t.Recs(), n1, n2)
  {
    hide Squeezed, Crowded, Thinned, Reserve, Held, Flat, Off, Tied, AllTied, Stores, FreeList.Valid;
    SqueezedAt(t, cur, f, n1, n2);
    ghost var lv0, b, ptr := t.lv, cur.pos[0], cur.ptrs[0];
    ok := DeleteAt(t, o, cur);
    if ok && Squeezed(t, lv0, f, n1, n2) {
      SqueezedLeft(t, lv0, t.lv, f, n1, n2, b, ptr);
    }
  }

  /** Replace the by-size entry at the cursor with those left over. */
  method FixupCnt(t: Btree, o: Btree, cur: Cursor, n1: Rec, n2: Rec, ghost f: Rec) returns (ok: bool)
    requires Pair(t, o) && AtRec(t, cur, f)
    requires n1.start == NULLAGBLOCK ==> n2.start == NULLAGBLOCK
    requires n1.start != NULLAGBLOCK ==> Absent(t.kind, Held(t) - {f}, n1)
    requires n2.start != NULLAGBLOCK ==> Absent(t.kind, Held(t) - {f} + {n1}, n2)
    modifies t`store, t`lv, t`root, t`nlevels, t`longest, t.fl, t.fl.slots, cur
    ensures ok ==> Kept(t, o, old(Reserve(t, o)), old(t.fl.btreeblks + |t.fl.queue|))
    ensures ok ==> Held(t) == Plus(Plus(old(Held(t)) - {f}, n1), n2)
    ensures ok && n1.start == NULLAGBLOCK ==> |t.fl.queue| <= old(|t.fl.queue| + t.nlevels)
    ensures ok ==> |t.fl.queue| <= old(|t.fl.queue|) + t.nlevels + 1
    ensures ok ==> |t.fl.queue| + Draws(n1, n2, old(t.nlevels)) >= old(|t.fl.queue|)
    ensures ok && n2.start != NULLAGBLOCK && old(Squeezed(t, t.lv, f, n1, n2)) ==>
              |t.fl.queue| + old(t.nlevels) + 2 <= old(|t.fl.queue|)
    ensures old(|t.fl.queue| + t.nlevels <= t.fl.slots.Length && |t.fl.queue| >= Draws(n1, n2, t.nlevels)) ==> ok
  {
    hide Squeezed, Crowded, AtRec, AtLeaf, Absent, Good, Flat, Off;
    ok := DropEntry(t, o, cur, n1, n2, f);
    if ok {
      ok := AddRest(t, o, cur, n1, n2);
    }
  }

  /** An entry replaced by a part of the same extent. */
  lemma SortedUpd(recs: seq<Rec>, k: nat, n: Rec)
    requires k < |recs| && Sorted(Bno, recs) && Apart(Elems(recs))
    requires recs[k].start <= n.start < recs[k].start + recs[k].count
    ensures Sorted(Bno, recs[k := n])
  {
    forall i | 0 <= i < |recs| && i != k
      ensures if i < k then Before(Bno, recs[i], n) else Before(Bno, n, recs[i])
    {
      assert recs[i] in Elems(recs) && recs[k] in Elems(recs);
      assert if i < k then Before(Bno, recs[i], recs[k]) else Before(Bno, recs[k], recs[i]);
    }
  }

  lemma FullStays(t: Btree, lv0: seq<Level>)
    requires ShapeFrom(lv0, t.lv, 0)
    ensures AllFull(t, lv0) ==> AllFull(t, t.lv)
  {
    forall m | 0 <= m < |lv0| ensures SameShape(lv0[m], t.lv[m]) {
    }
    if AllFull(t, lv0) {
      FullShape(t, lv0, t.lv);
    }
  }

  /** Replace the by-block entry at the cursor with those left over. */
  method FixupBno(t: Btree, o: Btree, cur: Cursor, n1: Rec, n2: Rec, ghost f: Rec) returns (ok: bool)
    requires Pair(t, o) && AtRec(t, cur, f)
    requires t.kind == Bno && Apart(Held(t))
    requires n1.start == NULLAGBLOCK ==> n2.start == NULLAGBLOCK
    requires n1.start != NULLAGBLOCK ==> f.start <= n1.start < f.start + f.count
    requires n2.start != NULLAGBLOCK ==> Absent(t.kind, Held(t) - {f} + {n1}, n2)
    modifies t`store, t`lv, t`root, t`nlevels, t`longest, t.fl, t.fl.slots, cur
    ensures ok ==> Kept(t, o, old(Reserve(t, o)), old(t.fl.btreeblks + |t.fl.queue|))
    ensures ok ==> Held(t) == Plus(Plus(old(Held(t)) - {f}, n1), n2)
    ensures ok ==> |t.fl.queue| <= old(|t.fl.queue|) + t.nlevels + 1
    ensures ok && n1.start != NULLAGBLOCK && n2.start != NULLAGBLOCK && old(AllFull(t, t.lv)) ==>
              |t.fl.queue| + old(t.nlevels) + 1 == old(|t.fl.queue|)
    ensures (n1.start != NULLAGBLOCK || old(|t.fl.queue| + t.nlevels) <= t.fl.slots.Length)
            && (n2.start == NULLAGBLOCK || old(|t.fl.queue| > t.nlevels))
            ==> ok
  {
    hide Flat, Off, Tied, AllFull, Drew, Inside, Reserve;
    ghost var lv0 := t.lv;
    if n1.start == NULLAGBLOCK {
      ok := DeleteAt(t, o, cur);
    } else {
      SortedUpd(t.Recs(), cur.At(t.lv, 0), n1);
      UpdateAt(t, o, cur, n1);
      FullStays(t, lv0);
      ok := true;
    }
    if ok && n2.start != NULLAGBLOCK {
      ghost var k, b, lv1, q := 0, 0, t.lv, |t.fl.queue|;
      ok, k, b := Add(t, o, cur, n2);
      if ok && AllFull(t, lv1) {
        DrewFull(t, lv1, t.lv, b, q - |t.fl.queue|);
      }
    }
  }

  /** What is left over on both sides of r finds all blocks full, and the freelist is short of what it would draw. */
  ghost predicate Tight(ag: Ag, n1: Rec, n2: Rec, f: Rec)
    reads ag.cnt`lv, ag.cnt`nlevels, ag.bno`lv, ag.bno`nlevels, ag.fl
  {
    && n1.start != NULLAGBLOCK && n2.start != NULLAGBLOCK
    && Squeezed(ag.cnt, ag.cnt.lv, f, n1, n2) && AllFull(ag.bno, ag.bno.lv)
    && |ag.fl.queue| < ag.cnt.nlevels + ag.bno.nlevels + 3
  }

  /** To take r out of f is more than the freelist has blocks for. */
  ghost predicate RunsOut(ag: Ag, f: Rec, r: Rec)
    reads ag.cnt`lv, ag.cnt`nlevels, ag.bno`lv, ag.bno`nlevels, ag.fl
  {
    PartOf(r, f) && Tight(ag, Remains(f, r).0, Remains(f, r).1, f)
  }

  /** Replace the entries in both trees. */
  method FixupBoth(ag: Ag, ccur: Cursor, bcur: Cursor, n1: Rec, n2: Rec, ghost f: Rec, ghost s: set<Rec>) returns (ok: bool)
    requires ag.Holds(s) && Apart(s) && ccur != bcur && AtRec(ag.cnt, ccur, f) && AtRec(ag.bno, bcur, f)
    requires n1.start == NULLAGBLOCK ==> n2.start == NULLAGBLOCK
    requires n1.start != NULLAGBLOCK ==> f.start <= n1.start < f.start + f.count
    requires n1.start != NULLAGBLOCK ==> Absent(Cnt, s - {f}, n1)
    requires n2.start != NULLAGBLOCK ==> Absent(Cnt, s - {f} + {n1}, n2) && Absent(Bno, s - {f} + {n1}, n2)
    modifies ag.cnt`store, ag.cnt`lv, ag.cnt`root, ag.cnt`nlevels, ag.cnt`longest
    modifies ag.bno`store, ag.bno`lv, ag.bno`root, ag.bno`nlevels, ag.bno`longest
    modifies ag.fl, ag.fl.slots, ccur, bcur
    ensures ok ==> ag.Holds(Plus(Plus(s - {f}, n1), n2)) && Reserve(ag.cnt, ag.bno) == old(Reserve(ag.cnt, ag.bno))
    ensures ok ==> ag.fl.btreeblks + |ag.fl.queue| == old(ag.fl.btreeblks + |ag.fl.queue|)
    ensures ok ==> |ag.fl.queue| <= old(|ag.fl.queue|) + ag.cnt.nlevels + ag.bno.nlevels + 2
    ensures old(Tight(ag, n1, n2, f)) ==> !ok
    ensures old(|ag.fl.queue| + ag.cnt.nlevels + ag.bno.nlevels) <= ag.fl.slots.Length
            && old(|ag.fl.queue| - Draws(n1, n2, ag.cnt.nlevels))
               >= (if n2.start == NULLAGBLOCK then 0 else old(ag.bno.nlevels) + 1)
            ==> ok
  {
    hide AtRec, Absent, Good, Draws, Apart, Plus, Pair, Kept, Reserve, Squeezed, AllFull;
    ghost var res, counted := Reserve(ag.cnt, ag.bno), ag.fl.btreeblks + |ag.fl.queue|;
    ok := FixupCnt(ag.cnt, ag.bno, ccur, n1, n2, f);
    if ok {
      Swap(ag.cnt, ag.bno, res, counted);
      ok := FixupBno(ag.bno, ag.cnt, bcur, n1, n2, f);
      if ok {
        Swap(ag.bno, ag.cnt, res, counted);
      }
    }
  }

  /** The blocks of the freelist that suffice to take r out of f: more if something is left over on both sides. */
  function Needs(ag: Ag, f: Rec, r: Rec): nat
    reads ag.cnt`nlevels, ag.bno`nlevels
  {
    if r.start == f.start || r.start + r.count == f.start + f.count then OneSide(ag) else TwoSides(ag)
  }

  function OneSide(ag: Ag): nat
    reads ag.cnt`nlevels
  {
    ag.cnt.nlevels + 1
  }

  function TwoSides(ag: Ag): nat
    reads ag.cnt`nlevels, ag.bno`nlevels
  {
    2 * ag.cnt.nlevels + ag.bno.nlevels + 4
  }

  /** The freelist has that many blocks, and slots for those that may come back. */
  ghost predicate Supplied(ag: Ag, n: nat)
    reads ag.cnt`nlevels, ag.bno`nlevels, ag.fl
  {
    n <= |ag.fl.queue| && |ag.fl.queue| + ag.cnt.nlevels + ag.bno.nlevels <= ag.fl.slots.Length
  }

  /** With both cursors at f, take r out of it. */
  method FixupAt(ag: Ag, ccur: Cursor, bcur: Cursor, f: Rec, r: Rec, ghost s: set<Rec>) returns (ok: bool)
    requires ag.Holds(s) && Apart(s) && f in s && PartOf(r, f) && f.start + f.count <= NULLAGBLOCK
    requires ccur != bcur && AtRec(ag.cnt, ccur, f) && AtRec(ag.bno, bcur, f)
    modifies ag.cnt`store, ag.cnt`lv, ag.cnt`root, ag.cnt`nlevels, ag.cnt`longest
    modifies ag.bno`store, ag.bno`lv, ag.bno`root, ag.bno`nlevels, ag.bno`longest
    modifies ag.fl, ag.fl.slots, ccur, bcur
    ensures ok ==> ag.Holds(Less(s, f, r)) && Reserve(ag.cnt, ag.bno) == old(Reserve(ag.cnt, ag.bno))
    ensures ok ==> ag.fl.btreeblks + |ag.fl.queue| == old(ag.fl.btreeblks + |ag.fl.queue|)
    ensures ok ==> |ag.fl.queue| <= old(|ag.fl.queue|) + ag.cnt.nlevels + ag.bno.nlevels + 2
    ensures old(RunsOut(ag, f, r)) ==> !ok
    ensures old(Supplied(ag, Needs(ag, f, r))) ==> ok
  {
    hide Good, AtRec, Apart, Remains, Less, Plus, Tight, Btree.Core, Btree.Valid, Pair, Reserve, Placed;
    var (n1, n2) := Remains(f, r);
    RemainsFresh(Cnt, s, f, r);
    RemainsFresh(Bno, s, f, r);
    RemainsLess(s, f, r);
    ok := FixupBoth(ag, ccur, bcur, n1, n2, f, s);
  }

  /**
   * Take r out of the free extent f, in both trees. A cursor that is said to be right is at f already.
   * False if the freelist runs out or has no room.
   */
  method FixupTrees(ag: Ag, ccur: Cursor, bcur: Cursor, f: Rec, r: Rec, cntOk: bool, bnoOk: bool, ghost s: set<Rec>)
    returns (ok: bool)
    requires ag.Holds(s) && Apart(s) && f in s && PartOf(r, f) && f.start + f.count <= NULLAGBLOCK
    requires ccur != bcur && ccur.Fits() && ccur.nlevels == ag.cnt.nlevels && bcur.Fits() && bcur.nlevels == ag.bno.nlevels
    requires cntOk ==> AtRec(ag.cnt, ccur, f)
    requires bnoOk ==> AtRec(ag.bno, bcur, f)
    modifies ag.cnt`store, ag.cnt`lv, ag.cnt`root, ag.cnt`nlevels, ag.cnt`longest
    modifies ag.bno`store, ag.bno`lv, ag.bno`root, ag.bno`nlevels, ag.bno`longest
    modifies ag.fl, ag.fl.slots, ccur, bcur
    ensures ok ==> ag.Holds(Less(s, f, r)) && Reserve(ag.cnt, ag.bno) == old(Reserve(ag.cnt, ag.bno))
    ensures ok ==> ag.fl.btreeblks + |ag.fl.queue| == old(ag.fl.btreeblks + |ag.fl.queue|)
    ensures ok ==> |ag.fl.queue| <= old(|ag.fl.queue|) + ag.cnt.nlevels + ag.bno.nlevels + 2
    ensures old(RunsOut(ag, f, r)) ==> !ok
    ensures old(Supplied(ag, Needs(ag, f, r))) ==> ok
  {
    hide Good, AtRec, Apart, Remains, Less, Plus, RunsOut, Btree.Core, Btree.Valid, PartOf, Supplied, Needs, Reserve;
    if !cntOk {
      Seek(ag.cnt, ccur, f);
    }
    if !bnoOk {
      Seek(ag.bno, bcur, f);
    }
    ok := FixupAt(ag, ccur, bcur, f, r, s);
  }
}
