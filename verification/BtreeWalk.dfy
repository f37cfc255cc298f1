/** The records of a tree as a walk from the root finds them. */
module BtreeWalk {
  import opened Records
  import opened Levels
  import opened Btrees

  /** The records under block p of level l, following the entries from left to right. */
  ghost function Under(store: Store, p: Ptr, l: nat): seq<Rec>
    decreases l, 0
  {
    if p !in store then []
    else if l == 0 then Keys(store[p].ents)
    else UnderAll(store, store[p].ents, l - 1)
  }

  /** The records under the children of entries. */
  ghost function UnderAll(store: Store, es: seq<Entry>, l: nat): seq<Rec>
    decreases l, |es| + 1
  {
    if es == [] then [] else UnderAll(store, es[..|es| - 1], l) + Under(store, es[|es| - 1].child, l)
  }

  /** The records under the blocks of a level. */
  ghost function UnderLevel(store: Store, lv: Level, l: nat): seq<Rec> {
    if lv == [] then [] else UnderLevel(store, lv[..|lv| - 1], l) + Under(store, lv[|lv| - 1].id, l)
  }

  ghost predicate Stored(store: Store, lv: Level) {
    forall i :: 0 <= i < |lv| ==> lv[i].id in store && store[lv[i].id].ents == lv[i].ents
  }

  lemma {:induction false} UnderConcat(store: Store, a: seq<Entry>, b: seq<Entry>, l: nat)
    ensures UnderAll(store, a + b, l) == UnderAll(store, a, l) + UnderAll(store, b, l)
    decreases |b|
  {
    hide Under;
    if b == [] {
      assert a + b == a;
    } else {
      assert (a + b)[..|a + b| - 1] == a + b[..|b| - 1];
      UnderConcat(store, a, b[..|b| - 1], l);
    }
  }

  lemma {:induction false} UnderFlat(store: Store, lv: Level, l: nat)
    requires Stored(store, lv)
    ensures UnderLevel(store, lv, l + 1) == UnderAll(store, Flat(lv), l)
    decreases |lv|
  {
    if lv != [] {
      var up := lv[..|lv| - 1];
      UnderFlat(store, up, l);
      UnderConcat(store, Flat(up), lv[|lv| - 1].ents, l);
    }
  }

  lemma {:induction false} UnderChildren(store: Store, es: seq<Entry>, lo: Level, l: nat)
    requires |es| == |lo| && forall k :: 0 <= k < |lo| ==> es[k].child == lo[k].id
    ensures UnderAll(store, es, l) == UnderLevel(store, lo, l)
    decreases |es|
  {
    hide Under;
    if es != [] {
      UnderChildren(store, es[..|es| - 1], lo[..|lo| - 1], l);
    }
  }

  lemma {:induction false} UnderLeaves(store: Store, lv: Level)
    requires Stored(store, lv)
    ensures UnderLevel(store, lv, 0) == Keys(Flat(lv))
    decreases |lv|
  {
    if lv != [] {
      UnderLeaves(store, lv[..|lv| - 1]);
    }
  }

  lemma TiedStored(store: Store, lv: Level, l: nat)
    requires Tied(store, lv, l)
    ensures Stored(store, lv)
  {
    forall i | 0 <= i < |lv| ensures lv[i].id in store && store[lv[i].id].ents == lv[i].ents {
      assert BlkTied(store, lv, l, i);
    }
  }

  lemma {:induction false} UnderTree(t: Btree, l: nat)
    requires t.Valid() && l < t.nlevels
    ensures UnderLevel(t.store, t.lv[l], l) == t.Recs()
    decreases l
  {
    hide Under, UnderAll, UnderLevel, Flat;
    assert Tied(t.store, t.lv[l], l);
    TiedStored(t.store, t.lv[l], l);
    if l == 0 {
      UnderLeaves(t.store, t.lv[0]);
    } else {
      UnderTree(t, l - 1);
      assert LinkAt(t.lv, l);
      UnderFlat(t.store, t.lv[l], l - 1);
      UnderChildren(t.store, Flat(t.lv[l]), t.lv[l - 1], l - 1);
    }
  }

  /** A walk down from the root meets exactly the records of the tree, in their order. */
  lemma RootWalk(t: Btree)
    requires t.Valid()
    ensures Under(t.store, t.root, t.nlevels - 1) == t.Recs()
  {
    hide Under;
    var top := t.lv[t.nlevels - 1];
    UnderTree(t, t.nlevels - 1);
    assert top[..0] == [];
  }
}
