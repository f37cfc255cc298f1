/** Moving one entry between neighbouring blocks of a level. */
module BtreeShift {
  import opened Records
  import opened Levels
  import opened FreeLists
  import opened Btrees

  /** The last entry of block b moved to the front of block b + 1. */
  ghost function ShiftedRight(lv: Level, b: nat): Level
    requires b + 1 < |lv| && lv[b].ents != []
  {
    var l, r := lv[b].ents, lv[b + 1].ents;
    lv[b := Blk(lv[b].id, l[..|l| - 1])][b + 1 := Blk(lv[b + 1].id, [l[|l| - 1]] + r)]
  }

  /** The first entry of block b + 1 moved to the end of block b. */
  ghost function ShiftedLeft(lv: Level, b: nat): Level
    requires b + 1 < |lv| && lv[b + 1].ents != []
  {
    var l, r := lv[b].ents, lv[b + 1].ents;
    lv[b := Blk(lv[b].id, l + [r[0]])][b + 1 := Blk(lv[b + 1].id, r[1..])]
  }

  /** A shift at level p: the keys of the right block's parents are the only ones out of date. */
  lemma ShiftLinks(lv: seq<Level>, p: nat, b: nat, l: seq<Entry>, r: seq<Entry>)
    requires p < |lv| && LinksFrom(lv, p) && b + 1 < |lv[p]|
    requires p + 1 < |lv|
    requires l != [] && r != [] && lv[p][b].ents != [] && l[0] == lv[p][b].ents[0]
    requires l + r == lv[p][b].ents + lv[p][b + 1].ents
    ensures var lv' := lv[p := lv[p][b := Blk(lv[p][b].id, l)][b + 1 := Blk(lv[p][b + 1].id, r)]];
            LinksBut(lv', p, p + 1, b + 1) && Flat(lv'[p]) == Flat(lv[p])
  {
    var lv' := lv[p := lv[p][b := Blk(lv[p][b].id, l)][b + 1 := Blk(lv[p][b + 1].id, r)]];
    FlatShift(lv[p], b, l, r);
    assert LinkAt(lv, p + 1);
    forall m | p < m < |lv| && m != p + 1 ensures LinkAt(lv', m) {
      assert LinkAt(lv, m);
    }
  }

  /** Mend the parent keys of the cursor's block, the only ones out of date. */
  method UpdKeyAt(t: Btree, cur: Cursor, key: Rec, level: nat)
    requires t.Core() && t.Rooted() && level + 1 < t.nlevels && cur.On(t.lv, level)
    requires cur.pos[level] < |t.lv[level]|
    requires LinksBut(t.lv, level, level + 1, cur.pos[level])
    requires t.lv[level][cur.pos[level]].ents != [] && t.lv[level][cur.pos[level]].ents[0].key == key
    modifies t`store, t`lv
    ensures t.Core() && t.Rooted() && LinksFrom(t.lv, level)
    ensures ShapeFrom(old(t.lv), t.lv, level + 1)
    ensures t.store.Keys == old(t.store).Keys
  {
    ghost var lv := t.lv;
    assert AtEntry(lv, cur.ptrs, cur.pos, level + 1);
    PathUp(lv, cur.bufs, cur.ptrs, cur.pos, level, level + 1);
    assert LinksFrom(lv, level + 1);
    UpdKey(t, cur, key, level + 1, lv[level], cur.pos[level]);
    ShapeFromFacts(lv, t.lv, level + 1);
    assert SameShape(lv[|lv| - 1], t.lv[|lv| - 1]);
    assert LinkAt(t.lv, level + 1);
  }

  lemma LinksButChild(lv: seq<Level>, p: nat, l: nat, k: nat)
    requires p < l && LinksBut(lv, p, l, k)
    ensures ChildLinksFrom(lv, p)
  {
    forall m | p < m < |lv| ensures ChildLinkAt(lv, m) {
      assert m != l ==> LinkAt(lv, m);
    }
  }

  lemma LinksChild(lv: seq<Level>, p: nat)
    requires LinksFrom(lv, p)
    ensures ChildLinksFrom(lv, p)
  {
    forall m | p < m < |lv| ensures ChildLinkAt(lv, m) {
      assert LinkAt(lv, m);
    }
  }

  /** A path survives a change to the entries of its lowest level. */
  lemma OnPathLevel(lv: seq<Level>, x: Level, bufs: seq<Ptr>, ptrs: seq<int>, pos: seq<nat>, p: nat)
    requires OnPath(lv, bufs, ptrs, pos, p) && p < |lv| && |x| == |lv[p]|
    requires forall i :: 0 <= i < |x| ==> x[i].id == lv[p][i].id
    ensures OnPath(lv[p := x], bufs, ptrs, pos, p)
  {
    var lv' := lv[p := x];
    forall l | p <= l < |lv| ensures AtBlk(lv', bufs, pos, l) {
      assert AtBlk(lv, bufs, pos, l);
    }
    forall l | p < l < |lv| ensures AtEntry(lv', ptrs, pos, l) {
      assert AtEntry(lv, ptrs, pos, l);
    }
  }

  lemma OnPathShapeAbove(lv: seq<Level>, lv': seq<Level>, bufs: seq<Ptr>, ptrs: seq<int>, pos: seq<nat>, p: nat)
    requires OnPath(lv, bufs, ptrs, pos, p) && p < |lv|
    requires ShapeFrom(lv, lv', p + 1)
    ensures OnPath(lv', bufs, ptrs, pos, p)
  {
    assert lv[..p + 1][..p] == lv[..p] && lv'[..p + 1][..p] == lv'[..p];
    assert lv[..p + 1][p] == lv'[..p + 1][p];
    assert SameShape(lv[p], lv'[p]);
    OnPathShape(lv, lv', bufs, ptrs, pos, p);
  }

  /** Whether a shift out of the block at the cursor is possible. */
  ghost predicate CanRshift(t: Btree, cur: Cursor, level: nat)
    requires level < |t.lv| && |cur.pos| == |cur.ptrs| == |t.lv| && cur.pos[level] < |t.lv[level]|
    reads t, cur
  {
    var b := cur.pos[level];
    && b + 1 < |t.lv[level]|
    && cur.ptrs[level] < |t.lv[level][b].ents|
    && |t.lv[level][b + 1].ents| != t.MaxRecs(level)
  }

  ghost predicate CanLshift(t: Btree, cur: Cursor, level: nat)
    requires level < |t.lv| && |cur.pos| == |cur.ptrs| == |t.lv| && cur.pos[level] < |t.lv[level]|
    reads t, cur
  {
    var b := cur.pos[level];
    && b > 0
    && cur.ptrs[level] > 1
    && |t.lv[level][b - 1].ents| != t.MaxRecs(level)
  }

  /** Move the last entry of the cursor's block right, unless the cursor is at it or past it. */
  method Rshift(t: Btree, cur: Cursor, level: nat) returns (stat: bool)
    requires t.Core() && t.Rooted() && level < t.nlevels && cur.On(t.lv, level) && LinksFrom(t.lv, level)
    requires cur.pos[level] < |t.lv[level]| && cur.ptrs[level] >= 1
    modifies t`store, t`lv
    ensures t.Core() && t.Rooted() && cur.On(t.lv, level) && LinksFrom(t.lv, level)
    ensures stat == old(CanRshift(t, cur, level))
    ensures !stat ==> t.lv == old(t.lv) && t.store == old(t.store)
    ensures t.store.Keys == old(t.store).Keys
    ensures stat ==> ShapeFrom(old(t.lv)[level := ShiftedRight(old(t.lv[level]), cur.pos[level])], t.lv, level + 1)
  {
    ghost var lv0, b := t.lv, cur.pos[level];
    assert AtBlk(lv0, cur.bufs, cur.pos, level);
    var left := t.ReadBlock(cur.bufs[level], level, b);
    if left.right == NULLAGBLOCK {
      return false;
    }
    var lrecs := |left.ents|;
    if cur.ptrs[level] >= lrecs {
      return false;
    }
    var right := t.ReadBlock(left.right, level, b + 1);
    if |right.ents| == t.MaxRecs(level) {
      return false;
    }
    MoveRight(t, cur, level, left.right, left.ents, right.ents);
    stat := true;
  }

  /** The last entry of the cursor's block becomes the first of its right neighbour. */
  method MoveRight(t: Btree, cur: Cursor, level: nat, rbp: Ptr, left: seq<Entry>, right: seq<Entry>)
    requires t.Core() && t.Rooted() && level < t.nlevels && cur.On(t.lv, level) && LinksFrom(t.lv, level)
    requires cur.pos[level] + 1 < |t.lv[level]|
    requires rbp == t.lv[level][cur.pos[level] + 1].id && rbp in t.store && cur.bufs[level] in t.store
    requires left == t.lv[level][cur.pos[level]].ents && |left| >= 2
    requires right == t.lv[level][cur.pos[level] + 1].ents
    modifies t`store, t`lv
    ensures t.Core() && t.Rooted() && cur.On(t.lv, level) && LinksFrom(t.lv, level)
    ensures t.store.Keys == old(t.store).Keys
    ensures ShapeFrom(old(t.lv)[level := ShiftedRight(old(t.lv[level]), cur.pos[level])], t.lv, level + 1)
  {
    ghost var lv0, b := t.lv, cur.pos[level];
    var moved := left[|left| - 1];
    assert AtBlk(lv0, cur.bufs, cur.pos, level);
    t.SetPair(cur.bufs[level], left[..|left| - 1], rbp, [moved] + right, level, b);
    ghost var lv1 := t.lv;
    ShiftLinks(lv0, level, b, left[..|left| - 1], [moved] + right);
    OnPathLevel(lv0, lv1[level], cur.bufs, cur.ptrs, cur.pos, level);
    UpdKeyRight(t, cur, level, moved.key);
    OnPathShapeAbove(lv1, t.lv, cur.bufs, cur.ptrs, cur.pos, level);
  }

  /** With a temporary cursor, update the parent keys of the block to the right. */
  method UpdKeyRight(t: Btree, cur: Cursor, level: nat, key: Rec)
    requires t.Core() && t.Rooted() && level < t.nlevels && cur.On(t.lv, level)
    requires cur.pos[level] + 1 < |t.lv[level]|
    requires t.lv[level][cur.pos[level] + 1].ents != [] && t.lv[level][cur.pos[level] + 1].ents[0].key == key
    requires LinksBut(t.lv, level, level + 1, cur.pos[level] + 1)
    modifies t`store, t`lv
    ensures t.Core() && t.Rooted() && LinksFrom(t.lv, level)
    ensures ShapeFrom(old(t.lv), t.lv, level + 1)
    ensures t.store.Keys == old(t.store).Keys
  {
    hide AllTied, Stores, FreeList.Valid, Flat, Off;
    var tcur := new Cursor.Dup(cur);
    assert AtBlk(t.lv, cur.bufs, cur.pos, level);
    var left := t.ReadBlock(cur.bufs[level], level, cur.pos[level]);
    tcur.ptrs := tcur.ptrs[level := |left.ents|];
    PathSetPtr(t.lv, cur.bufs, cur.ptrs, cur.pos, level, |left.ents|);
    LinksButChild(t.lv, level, level + 1, cur.pos[level] + 1);
    var i := Increment(t, tcur, level);
    UpdKeyAt(t, tcur, key, level);
  }

  /** The first entry of the cursor's block becomes the last of its left neighbour. */
  method MoveLeft(t: Btree, cur: Cursor, level: nat, lbp: Ptr, left: seq<Entry>, right: seq<Entry>)
    requires t.Core() && t.Rooted() && level < t.nlevels && cur.On(t.lv, level) && LinksFrom(t.lv, level)
    requires 0 < cur.pos[level] < |t.lv[level]|
    requires lbp == t.lv[level][cur.pos[level] - 1].id && lbp in t.store && cur.bufs[level] in t.store
    requires left == t.lv[level][cur.pos[level] - 1].ents != []
    requires right == t.lv[level][cur.pos[level]].ents && |right| >= 2
    modifies t`store, t`lv
    ensures t.Core() && t.Rooted() && cur.On(t.lv, level) && LinksFrom(t.lv, level)
    ensures t.store.Keys == old(t.store).Keys
    ensures ShapeFrom(old(t.lv)[level := ShiftedLeft(old(t.lv[level]), cur.pos[level] - 1)], t.lv, level + 1)
  {
    ghost var lv0, b := t.lv, cur.pos[level];
    assert AtBlk(lv0, cur.bufs, cur.pos, level);
    t.SetPair(lbp, left + [right[0]], cur.bufs[level], right[1..], level, b - 1);
    ghost var lv1 := t.lv;
    ShiftLinks(lv0, level, b - 1, left + [right[0]], right[1..]);
    OnPathLevel(lv0, lv1[level], cur.bufs, cur.ptrs, cur.pos, level);
    UpdKeyAt(t, cur, right[1].key, level);
    OnPathShapeAbove(lv1, t.lv, cur.bufs, cur.ptrs, cur.pos, level);
  }

  /** Move the first entry of the cursor's block left, unless the cursor is at it. */
  method Lshift(t: Btree, cur: Cursor, level: nat) returns (stat: bool)
    requires t.Core() && t.Rooted() && level < t.nlevels && cur.On(t.lv, level) && LinksFrom(t.lv, level)
    requires cur.pos[level] < |t.lv[level]| && |t.lv[level][cur.pos[level]].ents| >= 2
    requires cur.pos[level] > 0 ==> t.lv[level][cur.pos[level] - 1].ents != []
    modifies t`store, t`lv, cur`ptrs
    ensures t.Core() && t.Rooted() && cur.On(t.lv, level) && LinksFrom(t.lv, level)
    ensures stat == old(CanLshift(t, cur, level))
    ensures !stat ==> t.lv == old(t.lv) && t.store == old(t.store) && cur.ptrs == old(cur.ptrs)
    ensures t.store.Keys == old(t.store).Keys
    ensures stat ==> ShapeFrom(old(t.lv)[level := ShiftedLeft(old(t.lv[level]), cur.pos[level] - 1)], t.lv, level + 1)
    ensures stat ==> cur.ptrs == old(cur.ptrs)[level := old(cur.ptrs[level]) - 1]
  {
    hide AllTied, Stores, FreeList.Valid, Flat, Off;
    ghost var lv0, b := t.lv, cur.pos[level];
    assert AtBlk(lv0, cur.bufs, cur.pos, level);
    var right := t.ReadBlock(cur.bufs[level], level, b);
    if right.left == NULLAGBLOCK {
      return false;
    }
    if cur.ptrs[level] <= 1 {
      return false;
    }
    var left := t.ReadBlock(right.left, level, b - 1);
    if |left.ents| == t.MaxRecs(level) {
      return false;
    }
    MoveLeft(t, cur, level, right.left, left.ents, right.ents);
    PathSetPtr(t.lv, cur.bufs, cur.ptrs, cur.pos, level, cur.ptrs[level] - 1);
    cur.ptrs := cur.ptrs[level := cur.ptrs[level] - 1];
    stat := true;
  }
}
