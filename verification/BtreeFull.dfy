/** What an insertion draws from the freelist where blocks are full. */
module BtreeFull {
  import opened Levels
  import opened Btrees
  import opened BtreeInsert

  ghost predicate FullLevel(lv: Level, max: nat) {
    forall i :: 0 <= i < |lv| ==> |lv[i].ents| == max
  }

  /** All blocks above the leaves are full. */
  ghost predicate FullNodes(t: Btree, lv: seq<Level>) {
    forall l :: 0 < l < |lv| ==> FullLevel(lv[l], t.MaxRecs(l))
  }

  ghost predicate AllFull(t: Btree, lv: seq<Level>) {
    0 < |lv| && FullLevel(lv[0], t.mxr) && FullNodes(t, lv)
  }

  lemma FullShape(t: Btree, lv: seq<Level>, lv': seq<Level>)
    requires |lv| == |lv'| && FullNodes(t, lv) && forall m :: 0 < m < |lv| ==> SameShape(lv[m], lv'[m])
    ensures FullNodes(t, lv')
    ensures 0 < |lv| && AllFull(t, lv) && SameShape(lv[0], lv'[0]) ==> AllFull(t, lv')
  {
    forall m | 0 <= m < |lv| && SameShape(lv[m], lv'[m]) && FullLevel(lv[m], t.MaxRecs(m))
      ensures FullLevel(lv'[m], t.MaxRecs(m))
    {
      assert forall i :: 0 <= i < |lv[m]| ==> SameBlk(lv[m][i], lv'[m][i]);
    }
  }

  /** Block b and its neighbours are full. */
  ghost predicate FullAround(lv: Level, b: nat, max: nat) {
    && b < |lv| && |lv[b].ents| == max
    && (b > 0 ==> |lv[b - 1].ents| == max) && (b + 1 < |lv| ==> |lv[b + 1].ents| == max)
  }

  lemma FullStuck(lv: Level, b: nat, ptr: int, max: nat)
    requires FullAround(lv, b, max)
    ensures Stuck(lv, b, ptr, max)
  {
  }

  /** From a full level up, every block of the path is split. */
  lemma {:induction false} DrawsFull(t: Btree, lv: seq<Level>, pos: seq<nat>, ptrs: seq<int>, l: nat, ptr: int)
    requires l <= |lv| == |pos| && forall m :: l <= m < |lv| ==> pos[m] < |lv[m]| && FullLevel(lv[m], t.MaxRecs(m))
    ensures Draws(t, lv, pos, ptrs, l, ptr) == |lv| - l + 1
    decreases |lv| - l
  {
    if l < |lv| {
      FullStuck(lv[l], pos[l], ptr, t.MaxRecs(l));
      DrawsFull(t, lv, pos, ptrs, l + 1, PlaceAt(ptrs, l + 1) + 1);
    }
  }

  /** What an insertion into a leaf draws that has full neighbours, and below full nodes. */
  lemma DueFull(t: Btree, cur: Cursor)
    requires cur.On(t.lv, 0) && 0 < |t.lv| && FullAround(t.lv[0], cur.pos[0], t.mxr)
    ensures Stuck(t.lv[0], cur.pos[0], cur.ptrs[0], t.mxr) && Due(t, cur, 0) >= 1
    ensures FullNodes(t, t.lv) ==> Due(t, cur, 0) == |t.lv| + 1
  {
    FullStuck(t.lv[0], cur.pos[0], cur.ptrs[0], t.mxr);
    forall m | 0 <= m < |t.lv| ensures cur.pos[m] < |t.lv[m]| {
      assert AtBlk(t.lv, cur.bufs, cur.pos, m);
    }
    if FullNodes(t, t.lv) {
      DrawsFull(t, t.lv, cur.pos, cur.ptrs, 1, PlaceAt(cur.ptrs, 1) + 1);
    }
  }

  /** What an insertion into leaf b did to the leaves, and how many blocks it drew, where blocks are full. */
  ghost predicate Drew(t: Btree, lv: seq<Level>, lv': seq<Level>, b: nat, drew: int) {
    0 < |lv| && 0 < |lv'| && (FullAround(lv[0], b, t.mxr) ==>
                                && Halved(lv[0], lv'[0], b) && drew >= 1
                                && (FullNodes(t, lv) ==> drew == |lv| + 1))
  }

  lemma DrewFull(t: Btree, lv: seq<Level>, lv': seq<Level>, b: nat, drew: int)
    requires AllFull(t, lv) && b < |lv[0]| && Drew(t, lv, lv', b, drew)
    ensures drew == |lv| + 1
  {
  }

  /** Place k of a level lies between two entries of block b. */
  ghost predicate Inside(lv: Level, b: nat, k: int) {
    b < |lv| && Off(lv, b) < k < Off(lv, b) + |lv[b].ents|
  }

  /** Then no other block has it. */
  lemma InsideOne(lv: Level, b: nat, c: nat, ptr: int)
    requires c < |lv| && 1 <= ptr <= |lv[c].ents| + 1 && Inside(lv, b, Off(lv, c) + ptr - 1)
    ensures b == c
  {
    hide Off;
    if b < c {
      OffMono(lv, b + 1, c);
      OffNext(lv, b);
    } else if c < b {
      OffMono(lv, c + 1, b);
      OffNext(lv, c);
    }
  }

  lemma OffNext(lv: Level, b: nat)
    requires b < |lv|
    ensures Off(lv, b + 1) == Off(lv, b) + |lv[b].ents|
  {
    FlatAt(lv, b);
  }

  /** A place before a block that was cut in two stays where it is, with its surroundings. */
  lemma HalvedBefore(lv: Level, lv': Level, b: nat, c: nat, k: int, max: nat)
    requires Halved(lv, lv', b) && c + 2 <= b && Inside(lv, c, k) && FullAround(lv, c, max)
    ensures Inside(lv', c, k) && FullAround(lv', c, max)
  {
    assert lv'[..b][..c] == lv[..b][..c];
    assert lv'[..c] == lv[..c];
    assert forall i :: 0 <= i < b ==> lv'[i] == lv'[..b][i] == lv[..b][i];
  }

  lemma HalvedMoves(lv: Level, lv': Level, b: nat, i: nat)
    requires Halved(lv, lv', b) && b < i < |lv|
    ensures lv'[i + 1] == lv[i]
  {
    assert lv'[i + 1] == lv'[b + 2..][i - b - 1] == lv[b + 1..][i - b - 1];
  }

  lemma HalvedRest(lv: Level, lv': Level, b: nat, c: nat)
    requires Halved(lv, lv', b) && b < c <= |lv|
    ensures lv'[c + 1..] == lv[c..]
  {
    forall i | 0 <= i < |lv| - c ensures lv'[c + 1..][i] == lv[c..][i] {
      HalvedMoves(lv, lv', b, c + i);
    }
  }

  /** A place after it moves on by one. */
  lemma HalvedAfter(lv: Level, lv': Level, b: nat, c: nat, k: int, max: nat)
    requires Halved(lv, lv', b) && b + 2 <= c && Inside(lv, c, k) && FullAround(lv, c, max)
    requires |Flat(lv')| == |Flat(lv)| + 1
    ensures Inside(lv', c + 1, k + 1) && FullAround(lv', c + 1, max)
  {
    hide Flat, Off;
    assert |lv'| == |lv| + 1;
    HalvedMoves(lv, lv', b, c - 1);
    HalvedMoves(lv, lv', b, c);
    if c + 1 < |lv| {
      HalvedMoves(lv, lv', b, c + 1);
    }
    HalvedRest(lv, lv', b, c);
    FlatCut(lv, c);
    FlatCut(lv', c + 1);
  }

  /** What lies before a block and what comes from it on. */
  lemma FlatCut(lv: Level, c: nat)
    requires c <= |lv|
    ensures |Flat(lv)| == Off(lv, c) + |Flat(lv[c..])|
  {
    FlatConcat(lv[..c], lv[c..]);
    assert lv == lv[..c] + lv[c..];
  }

  /** A place well before a leaf that lost an entry stays where it is. */
  lemma ThinnedBefore(lv: Level, lv': Level, b: nat, c: nat, k: int, max: nat)
    requires |lv'| == |lv| && forall i :: 0 <= i < |lv| && i != b ==> lv'[i] == lv[i]
    requires c + 2 <= b < |lv| && Inside(lv, c, k) && FullAround(lv, c, max)
    ensures Inside(lv', c, k) && FullAround(lv', c, max)
  {
    assert lv'[..c] == lv[..c];
  }
}
