/** One free-space tree as a sorted set of extents, beside the other that shares its freelist. */
module AllocTree {
  import opened Records
  import opened Levels
  import opened FreeLists
  import opened Btrees
  import opened BtreeInsert
  import opened BtreeDelete
  import opened BtreeLookup
  import opened BtreeFull

  /** The tree is well formed, in order, and its longest extent recorded. */
  ghost predicate Good(t: Btree)
    reads t`store, t`root, t`nlevels, t`lv, t`longest, t.fl, t.fl.slots
  {
    && t.Valid()
    && Sorted(t.kind, t.Recs())
    && (t.kind == Cnt ==> t.longest == LastCount(t.Recs()))
  }

  /** The extents of a tree. */
  ghost function Held(t: Btree): set<Rec>
    reads t`lv
  {
    if |t.lv| > 0 then Elems(t.Recs()) else {}
  }

  lemma HeldNone(t: Btree)
    requires |t.lv| > 0
    ensures Held(t) == {} <==> t.Recs() == []
  {
    hide Flat;
    assert t.Recs() != [] ==> t.Recs()[0] in Held(t);
  }

  /** Two trees that draw on one freelist, and the count of their blocks beyond the first ones. */
  ghost predicate Pair(t: Btree, o: Btree)
    reads t`store, t`root, t`nlevels, t`lv, t`longest, t.fl, t.fl.slots
    reads o`store, o`root, o`nlevels, o`lv, o`longest, o.fl, o.fl.slots
  {
    && t != o && t.fl == o.fl
    && Good(t) && Good(o)
    && t.store.Keys !! o.store.Keys
    && t.fl.btreeblks == |t.store| + |o.store| - 2
  }

  /** The blocks of both trees and of the freelist. */
  ghost function Reserve(t: Btree, o: Btree): set<Ptr>
    reads t`store, o`store, t.fl
  {
    t.store.Keys + o.store.Keys + Elems(t.fl.queue)
  }

  lemma ElemsIns(recs: seq<Rec>, k: nat, r: Rec)
    requires k <= |recs|
    ensures Elems(Ins(recs, k, r)) == Elems(recs) + {r}
  {
    var recs' := Ins(recs, k, r);
    assert recs'[k] == r;
    assert forall i :: 0 <= i < |recs| ==> recs[i] == recs'[if i < k then i else i + 1];
  }

  lemma Distinct(kind: Kind, recs: seq<Rec>, k: nat)
    requires k < |recs| && Sorted(kind, recs)
    ensures forall i :: 0 <= i < |recs| && i != k ==> recs[i] != recs[k]
  {
    forall i | 0 <= i < |recs| && i != k ensures recs[i] != recs[k] {
      assert if i < k then Before(kind, recs[i], recs[k]) else Before(kind, recs[k], recs[i]);
    }
  }

  lemma ElemsAround(recs: seq<Rec>, k: nat)
    requires k < |recs|
    requires forall i :: 0 <= i < |recs| && i != k ==> recs[i] != recs[k]
    ensures Elems(Del(recs, k)) == Elems(recs) - {recs[k]}
  {
    var a, b := recs[..k], recs[k + 1..];
    assert recs == a + [recs[k]] + b;
    assert recs[k] !in a && recs[k] !in b;
  }

  lemma ElemsDel(kind: Kind, recs: seq<Rec>, k: nat)
    requires k < |recs| && Sorted(kind, recs)
    ensures Elems(Del(recs, k)) == Elems(recs) - {recs[k]}
  {
    hide *;
    Distinct(kind, recs, k);
    ElemsAround(recs, k);
  }

  lemma ElemsUpd(kind: Kind, recs: seq<Rec>, k: nat, r: Rec)
    requires k < |recs| && Sorted(kind, recs)
    ensures Elems(recs[k := r]) == Elems(recs) - {recs[k]} + {r}
  {
    var recs' := recs[k := r];
    assert recs'[k] == r;
    assert forall i :: 0 <= i < |recs| && i != k ==> recs[i] == recs'[i];
    Distinct(kind, recs, k);
  }

  lemma SortedDel(kind: Kind, recs: seq<Rec>, k: nat)
    requires k < |recs| && Sorted(kind, recs)
    ensures Sorted(kind, Del(recs, k))
  {
    var recs' := Del(recs, k);
    assert forall i :: 0 <= i < |recs'| ==> recs'[i] == recs[if i < k then i else i + 1];
  }

  /** A record can go to place k. */
  ghost predicate Between(kind: Kind, recs: seq<Rec>, k: nat, r: Rec) {
    && k <= |recs|
    && (forall i :: 0 <= i < k ==> Before(kind, recs[i], r))
    && (forall i :: k <= i < |recs| ==> Before(kind, r, recs[i]))
  }

  /** No record has the key of r. */
  ghost predicate Absent(kind: Kind, s: set<Rec>, r: Rec) {
    forall q :: q in s ==> KeyDiff(kind, q, r) != 0
  }

  lemma SortedIns(kind: Kind, recs: seq<Rec>, k: nat, r: Rec)
    requires Sorted(kind, recs) && Between(kind, recs, k, r)
    ensures Sorted(kind, Ins(recs, k, r))
  {
    var recs' := Ins(recs, k, r);
    assert forall i :: 0 <= i < |recs'| && i != k ==> recs'[i] == recs[if i < k then i else i - 1];
  }

  /** Where an exact lookup fails is the place of the record. */
  lemma NotFound(kind: Kind, recs: seq<Rec>, r: Rec, at: int)
    requires Sorted(kind, recs) && Found(kind, EQ, recs, r, at, false)
    ensures 0 <= at && Between(kind, recs, at, r)
  {
    forall i | at <= i < |recs| ensures Before(kind, r, recs[i]) {
      assert i > at ==> Before(kind, recs[at], recs[i]);
    }
  }

  /** Changes of a tree and the freelist leave the other tree well formed. */
  twostate lemma OtherStays(o: Btree)
    requires old(o.Valid()) && o.fl.Valid() && forall p :: p in o.store ==> p !in o.fl.queue
    requires o.store == old(o.store) && o.root == old(o.root) && o.nlevels == old(o.nlevels) && o.lv == old(o.lv)
    ensures o.Valid()
  {
  }

  twostate lemma OtherGood(o: Btree)
    requires old(Good(o)) && o.fl.Valid() && forall p :: p in o.store ==> p !in o.fl.queue
    requires unchanged(o)
    ensures Good(o)
  {
    OtherStays(o);
  }

  /** What a pair is. */
  lemma PairParts(t: Btree, o: Btree)
    requires Pair(t, o)
    ensures t != o && t.fl == o.fl && Good(t) && Good(o) && Owned(t) !! o.store.Keys
    ensures t.fl.btreeblks == |t.store| + |o.store| - 2 && Reserve(t, o) == Owned(t) + o.store.Keys
  {
    hide Sorted, Tied;
  }

  /** The freelist of a tree has no block of the other. */
  lemma ApartQueue(t: Btree, o: Btree, own: set<Ptr>)
    requires Good(t) && t.fl == o.fl && Owned(t) == own && own !! o.store.Keys
    ensures o.fl.Valid() && forall p :: p in o.store ==> p !in o.fl.queue
  {
  }

  /** What no change of a tree changes: the blocks in the trees and on the freelist, and their count. */
  ghost predicate Kept(t: Btree, o: Btree, res: set<Ptr>, counted: int)
    reads t`store, t`root, t`nlevels, t`lv, t`longest, t.fl, t.fl.slots
    reads o`store, o`root, o`nlevels, o`lv, o`longest, o.fl, o.fl.slots
  {
    && Pair(t, o)
    && Reserve(t, o) == res
    && t.fl.btreeblks + |t.fl.queue| == counted
  }

  /** The two trees of a pair play the same part. */
  lemma Swap(t: Btree, o: Btree, res: set<Ptr>, counted: int)
    requires Kept(t, o, res, counted)
    ensures Kept(o, t, res, counted) && Pair(o, t) && Reserve(o, t) == res && t.fl == o.fl
    ensures t.fl.btreeblks + |t.fl.queue| == counted
    ensures t.nlevels == |t.lv| > 0 && o.nlevels == |o.lv| > 0
  {
  }

  lemma StaysPair(t: Btree, o: Btree, own: set<Ptr>, total: int, counted: int)
    requires t != o && t.fl == o.fl && Good(t) && Good(o)
    requires own !! o.store.Keys && counted - total == |o.store| - 2
    requires Balance(t, own, total, counted)
    ensures Kept(t, o, own + o.store.Keys, counted)
  {
    assert t.store.Keys <= Owned(t);
  }

  lemma BalanceParts(t: Btree, own: set<Ptr>, total: int, counted: int)
    requires Balance(t, own, total, counted)
    ensures Owned(t) == own && |t.store| + |t.fl.queue| == total && t.fl.btreeblks + |t.fl.queue| == counted
  {
  }

  /** Look up a record exactly. */
  method Find(t: Btree, cur: Cursor, r: Rec) returns (stat: bool)
    requires Good(t) && cur.Fits() && cur.nlevels == t.nlevels
    modifies cur
    ensures AtLeaf(t, cur) && cur.rec == r && cur.ptrs[0] >= 1
    ensures stat ==> cur.ptrs[0] <= |t.lv[0][cur.pos[0]].ents|
    ensures 0 <= cur.At(t.lv, 0) <= |t.Recs()|
    ensures stat ==> cur.At(t.lv, 0) < |t.Recs()| && KeyDiff(t.kind, t.Recs()[cur.At(t.lv, 0)], r) == 0
    ensures !stat ==> Between(t.kind, t.Recs(), cur.At(t.lv, 0), r)
  {
    cur.rec := r;
    stat := Lookup(t, cur, EQ);
    AtBounds(t, cur);
    if !stat {
      NotFound(t.kind, t.Recs(), r, cur.At(t.lv, 0));
    }
  }

  /** Insert the cursor's record at the cursor in one tree. */
  method InsertOne(t: Btree, cur: Cursor) returns (ok: bool)
    requires Good(t) && AtLeaf(t, cur) && cur.ptrs[0] >= 1
    requires 0 <= cur.At(t.lv, 0) && Between(t.kind, t.Recs(), cur.At(t.lv, 0), cur.rec)
    modifies t`store, t`lv, t`root, t`nlevels, t`longest, t.fl, cur
    ensures ok <==> old(Due(t, cur, 0) <= |t.fl.queue|)
    ensures old(|t.fl.queue| > t.nlevels) ==> ok
    ensures ok ==> Good(t) && Held(t) == old(Held(t)) + {old(cur.rec)}
    ensures ok ==> Balance(t, old(Owned(t)), |old(t.store)| + old(|t.fl.queue|), old(t.fl.btreeblks) + old(|t.fl.queue|))
    ensures ok ==> Drew(t, old(t.lv), t.lv, old(cur.pos[0]), old(|t.fl.queue|) - |t.fl.queue|)
    ensures ok ==> t.Recs() == Ins(old(t.Recs()), old(cur.At(t.lv, 0)), old(cur.rec))
    ensures ok ==> cur.Fits() && cur.nlevels == t.nlevels
    ensures ok ==> old(t.nlevels) <= t.nlevels <= old(t.nlevels) + 1
    ensures ok ==> |t.fl.queue| <= old(|t.fl.queue|) <= |t.fl.queue| + old(t.nlevels) + 1
  {
    ghost var recs, at, rec := t.Recs(), cur.At(t.lv, 0), cur.rec;
    SortedIns(t.kind, recs, at, rec);
    ElemsIns(recs, at, rec);
    if FullAround(t.lv[0], cur.pos[0], t.mxr) {
      DueFull(t, cur);
    }
    DueMost(t, cur);
    ok := Insert(t, cur);
  }

  /** Insert the cursor's record at the cursor; false if the freelist ran out. */
  method InsertAt(t: Btree, o: Btree, cur: Cursor) returns (ok: bool)
    requires Pair(t, o) && AtLeaf(t, cur) && cur.ptrs[0] >= 1
    requires 0 <= cur.At(t.lv, 0) && Between(t.kind, t.Recs(), cur.At(t.lv, 0), cur.rec)
    modifies t`store, t`lv, t`root, t`nlevels, t`longest, t.fl, cur
    ensures ok <==> old(Due(t, cur, 0) <= |t.fl.queue|)
    ensures old(|t.fl.queue| > t.nlevels) ==> ok
    ensures ok ==> Kept(t, o, old(Reserve(t, o)), old(t.fl.btreeblks + |t.fl.queue|)) && Held(t) == old(Held(t)) + {old(cur.rec)}
    ensures ok ==> Drew(t, old(t.lv), t.lv, old(cur.pos[0]), old(|t.fl.queue|) - |t.fl.queue|)
    ensures ok ==> t.Recs() == Ins(old(t.Recs()), old(cur.At(t.lv, 0)), old(cur.rec))
    ensures ok ==> cur.Fits() && cur.nlevels == t.nlevels
    ensures ok ==> old(t.nlevels) <= t.nlevels <= old(t.nlevels) + 1
    ensures ok ==> |t.fl.queue| <= old(|t.fl.queue|) <= |t.fl.queue| + old(t.nlevels) + 1
  {
    hide Pair, Good, Kept, Between, Reserve, Owned, FreeList.Valid, Btree.Valid;
    PairParts(t, o);
    ghost var own, total, counted := Owned(t), |t.store| + |t.fl.queue|, t.fl.btreeblks + |t.fl.queue|;
    ok := InsertOne(t, cur);
    if ok {
      BalanceParts(t, own, total, counted);
      ApartQueue(t, o, own);
      OtherGood(o);
      StaysPair(t, o, own, total, counted);
    }
  }

  lemma GoodQueue(t: Btree)
    requires Good(t)
    ensures t.fl.flcount == |t.fl.queue|
  {
  }

  /** Delete the record at the cursor in one tree. */
  method DeleteOne(t: Btree, cur: Cursor)
    requires Good(t) && AtLeaf(t, cur) && 1 <= cur.ptrs[0] <= |t.lv[0][cur.pos[0]].ents|
    requires t.fl.flcount + t.nlevels <= t.fl.slots.Length
    modifies t`store, t`lv, t`root, t`nlevels, t`longest, t.fl, t.fl.slots, cur
    ensures Good(t) && AtLeaf(t, cur) && cur.ptrs[0] >= 1 && cur.rec == old(cur.rec)
    ensures 0 <= cur.At(t.lv, 0) == old(cur.At(t.lv, 0)) < old(|t.Recs()|)
    ensures t.Recs() == Del(old(t.Recs()), old(cur.At(t.lv, 0)))
    ensures Held(t) == old(Held(t)) - {old(t.Recs()[cur.At(t.lv, 0)])}
    ensures Balance(t, old(Owned(t)), |old(t.store)| + old(|t.fl.queue|), old(t.fl.btreeblks) + old(|t.fl.queue|))
    ensures old(t.nlevels) - 1 <= t.nlevels <= old(t.nlevels)
    ensures old(|t.lv[0][cur.pos[0]].ents| > t.MinRecs(0)) ==>
              Thinned(old(t.lv), t.lv, old(cur.pos[0])) && t.fl.queue == old(t.fl.queue)
    ensures old(|t.fl.queue|) <= |t.fl.queue| <= old(|t.fl.queue|) + old(t.nlevels)
  {
    hide Tied, AllTied, Stores;
    ghost var recs, at := t.Recs(), cur.At(t.lv, 0);
    AtRecord(t, cur);
    SortedDel(t.kind, recs, at);
    ElemsDel(t.kind, recs, at);
    var stat := Delete(t, cur);
  }

  /** Delete the record at the cursor; false if the freelist has no room for the blocks it may get. */
  method DeleteAt(t: Btree, o: Btree, cur: Cursor) returns (ok: bool)
    requires Pair(t, o) && AtLeaf(t, cur) && 1 <= cur.ptrs[0] <= |t.lv[0][cur.pos[0]].ents|
    modifies t`store, t`lv, t`root, t`nlevels, t`longest, t.fl, t.fl.slots, cur
    ensures ok == old(|t.fl.queue| + t.nlevels <= t.fl.slots.Length)
    ensures ok ==> Kept(t, o, old(Reserve(t, o)), old(t.fl.btreeblks + |t.fl.queue|))
                   && AtLeaf(t, cur) && cur.ptrs[0] >= 1 && cur.rec == old(cur.rec)
    ensures ok ==> 0 <= cur.At(t.lv, 0) == old(cur.At(t.lv, 0)) < old(|t.Recs()|)
    ensures ok ==> t.Recs() == Del(old(t.Recs()), old(cur.At(t.lv, 0)))
    ensures ok ==> Held(t) == old(Held(t)) - {old(t.Recs()[cur.At(t.lv, 0)])}
    ensures ok ==> old(t.nlevels) - 1 <= t.nlevels <= old(t.nlevels)
    ensures ok && old(|t.lv[0][cur.pos[0]].ents| > t.MinRecs(0)) ==>
              Thinned(old(t.lv), t.lv, old(cur.pos[0])) && t.fl.queue == old(t.fl.queue)
    ensures ok ==> old(|t.fl.queue|) <= |t.fl.queue| <= old(|t.fl.queue|) + old(t.nlevels)
  {
    hide Pair, Good, Kept, Reserve, Owned, Btree.Valid, Held;
    PairParts(t, o);
    ghost var own, total, counted := Owned(t), |t.store| + |t.fl.queue|, t.fl.btreeblks + |t.fl.queue|;
    GoodQueue(t);
    ok := t.fl.flcount + t.nlevels <= t.fl.slots.Length;
    if !ok {
      return;
    }
    DeleteOne(t, cur);
    BalanceParts(t, own, total, counted);
    ApartQueue(t, o, own);
    OtherGood(o);
    StaysPair(t, o, own, total, counted);
  }

  /** A cursor at an entry of its leaf is at a record. */
  lemma AtRecord(t: Btree, cur: Cursor)
    requires AtLeaf(t, cur) && 1 <= cur.ptrs[0] <= |t.lv[0][cur.pos[0]].ents|
    ensures 0 <= cur.At(t.lv, 0) < |t.Recs()|
  {
    FlatIndex(t.lv[0], cur.pos[0], cur.ptrs[0] - 1);
  }

  /** Overwrite the record at the cursor with one that keeps the order. */
  method UpdateAt(t: Btree, o: Btree, cur: Cursor, rec: Rec)
    requires Pair(t, o) && AtLeaf(t, cur) && 1 <= cur.ptrs[0] <= |t.lv[0][cur.pos[0]].ents|
    requires 0 <= cur.At(t.lv, 0) < |t.Recs()| && Sorted(t.kind, t.Recs()[cur.At(t.lv, 0) := rec])
    modifies t`store, t`lv, t`longest
    ensures Kept(t, o, old(Reserve(t, o)), old(t.fl.btreeblks + |t.fl.queue|)) && AtLeaf(t, cur) && t.nlevels == old(t.nlevels)
    ensures ShapeFrom(old(t.lv), t.lv, 0)
    ensures t.Recs() == old(t.Recs())[old(cur.At(t.lv, 0)) := rec]
    ensures Held(t) == old(Held(t)) - {old(t.Recs()[cur.At(t.lv, 0)])} + {rec}
  {
    ElemsUpd(t.kind, t.Recs(), cur.At(t.lv, 0), rec);
    ghost var own, total, counted := Owned(t), |t.store| + |t.fl.queue|, t.fl.btreeblks + |t.fl.queue|;
    Update(t, cur, rec);
    SameKeys(old(t.store), t.store);
    OtherStays(o);
    StaysPair(t, o, own, total, counted);
  }

  /** The cursor is at this record of the tree. */
  ghost predicate AtRec(t: Btree, cur: Cursor, r: Rec)
    reads t`lv, cur
  {
    && |t.lv| > 0 && cur.On(t.lv, 0) && cur.pos[0] < |t.lv[0]|
    && 1 <= cur.ptrs[0] <= |t.lv[0][cur.pos[0]].ents|
    && 0 <= cur.At(t.lv, 0) < |t.Recs()| && t.Recs()[cur.At(t.lv, 0)] == r
  }

  /** Put in a record that is not there yet; it goes to place k, into leaf b. */
  method Add(t: Btree, o: Btree, cur: Cursor, r: Rec) returns (ok: bool, ghost k: nat, ghost b: nat)
    requires Pair(t, o) && cur.Fits() && cur.nlevels == t.nlevels
    requires Absent(t.kind, Held(t), r)
    modifies t`store, t`lv, t`root, t`nlevels, t`longest, t.fl, cur
    ensures old(|t.fl.queue| > t.nlevels) ==> ok
    ensures Between(t.kind, old(t.Recs()), k, r) && b < |old(t.lv[0])| && forall c :: Inside(old(t.lv[0]), c, k) ==> c == b
    ensures ok ==> Kept(t, o, old(Reserve(t, o)), old(t.fl.btreeblks + |t.fl.queue|)) && Held(t) == old(Held(t)) + {r}
    ensures ok ==> Drew(t, old(t.lv), t.lv, b, old(|t.fl.queue|) - |t.fl.queue|) && t.Recs() == Ins(old(t.Recs()), k, r)
    ensures ok ==> cur.Fits() && cur.nlevels == t.nlevels
    ensures ok ==> old(t.nlevels) <= t.nlevels <= old(t.nlevels) + 1
    ensures ok ==> |t.fl.queue| <= old(|t.fl.queue|) <= |t.fl.queue| + old(t.nlevels) + 1
  {
    var stat := Find(t, cur, r);
    k, b := cur.At(t.lv, 0), cur.pos[0];
    forall c | Inside(t.lv[0], c, k) ensures c == b {
      InsideOne(t.lv[0], c, b, cur.ptrs[0]);
    }
    ok := InsertAt(t, o, cur);
  }

  /** Set the cursor to a record that is there. */
  method Seek(t: Btree, cur: Cursor, r: Rec)
    requires Good(t) && cur.Fits() && cur.nlevels == t.nlevels
    requires r in Held(t)
    modifies cur
    ensures AtRec(t, cur, r) && cur.rec == r
  {
    ghost var k :| 0 <= k < |t.Recs()| && t.Recs()[k] == r;
    var stat := Find(t, cur, r);
    SameKey(t.kind, t.Recs(), k, cur.At(t.lv, 0), stat);
  }

  lemma SameKey(kind: Kind, recs: seq<Rec>, k: nat, at: int, stat: bool)
    requires Sorted(kind, recs) && k < |recs| && 0 <= at <= |recs|
    requires stat ==> at < |recs| && KeyDiff(kind, recs[at], recs[k]) == 0
    requires !stat ==> Between(kind, recs, at, recs[k])
    ensures stat && at == k
  {
    Distinct(kind, recs, k);
    assert forall i :: 0 <= i < |recs| && i != k ==> Before(kind, recs[i], recs[k]) || Before(kind, recs[k], recs[i]);
  }
}
