/** Changing the flags of entries, and removing entries. */
module AttrFlags {
  import opened DaTree
  import opened DaLookup
  import opened AttrView
  import opened AttrFork
  import opened AttrSteps

  /** Overwriting an entry with one of the same name. */
  lemma SetFlat(leaves: seq<Tree>, b: nat, index: nat, e: Ent)
    requires b < |leaves| && leaves[b].Leaf? && index < |leaves[b].ents|
    ensures Off(leaves, b) + index < |Flat(leaves)| && Flat(leaves)[Off(leaves, b) + index] == leaves[b].ents[index]
    ensures Flat(leaves[b := Leaf(leaves[b].blkno, leaves[b].ents[index := e])]) == Flat(leaves)[Off(leaves, b) + index := e]
  {
    var leaves' := leaves[b := Leaf(leaves[b].blkno, leaves[b].ents[index := e])];
    FlatAt(leaves, b);
    FlatAt(leaves', b);
    assert leaves'[..b] == leaves[..b] && leaves'[b + 1..] == leaves[b + 1..];
    SetMiddle(Flat(leaves[..b]), leaves[b].ents, Flat(leaves[b + 1..]), index, e);
  }

  lemma SetOff(leaves: seq<Tree>, b: nat, index: nat, e: Ent, c: nat)
    requires b < |leaves| && leaves[b].Leaf? && index < |leaves[b].ents| && c <= |leaves|
    ensures Off(leaves[b := Leaf(leaves[b].blkno, leaves[b].ents[index := e])], c) == Off(leaves, c)
  {
    var leaves' := leaves[b := Leaf(leaves[b].blkno, leaves[b].ents[index := e])];
    if c > b {
      OffSet(leaves, b, leaves[b].ents[index := e], c);
    } else {
      assert leaves'[..c] == leaves[..c];
    }
  }

  lemma SetOne(leaves: seq<Tree>, leaves': seq<Tree>, b: nat, blkno: nat, index: nat, at: nat, e: Ent)
    requires GoodLeaves(leaves) && DistinctBlks(leaves) && Spot(leaves, b, blkno, index, at) && index < |leaves[b].ents|
    requires e.hash == leaves[b].ents[index].hash && e.name == leaves[b].ents[index].name
    requires leaves' == leaves[b := Leaf(blkno, leaves[b].ents[index := e])]
    ensures at < |Flat(leaves)| && Flat(leaves') == Flat(leaves)[at := e] && Flat(leaves)[at] == leaves[b].ents[index]
    ensures GoodLeaves(leaves') && DistinctBlks(leaves')
    ensures forall c: nat, blkno2: nat, index2: nat, at2: nat {:trigger Spot(leaves', c, blkno2, index2, at2)} ::
              Spot(leaves, c, blkno2, index2, at2) ==> Spot(leaves', c, blkno2, index2, at2)
    ensures forall c: nat :: 0 <= c < |leaves| && leaves[c].Leaf? ==> leaves'[c].Leaf? && |leaves'[c].ents| == |leaves[c].ents|
  {
    hide Flat, Off, Hashed;
    SetFlat(leaves, b, index, e);
    HashedSet(Flat(leaves), at, e);
    LeafSet(leaves, b, leaves[b].ents[index := e]);
    forall c: nat | c <= |leaves| ensures Off(leaves', c) == Off(leaves, c) {
      SetOff(leaves, b, index, e, c);
    }
  }

  lemma SetMiddle(a: seq<Ent>, ents: seq<Ent>, c: seq<Ent>, index: nat, e: Ent)
    requires index < |ents|
    ensures a + ents[index := e] + c == (a + ents + c)[|a| + index := e]
  {
  }

  lemma HashedSet(ents: seq<Ent>, at: nat, e: Ent)
    requires Hashed(ents) && at < |ents| && e.hash == ents[at].hash && e.name == ents[at].name
    ensures Hashed(ents[at := e])
  {
  }

  /** Overwrite the entry at a place with one of the same name and hash. */
  method SetEnt(f: Fork, blkno: nat, index: nat, e: Ent, ghost at: nat)
    requires f.Valid() && IsEnt(f.leaves, blkno, index, at)
    requires at < |Flat(f.leaves)| && e.hash == Flat(f.leaves)[at].hash && e.name == Flat(f.leaves)[at].name
    modifies f`leaves
    ensures GoodLeaves(f.leaves) && DistinctBlks(f.leaves) && f.leaves != []
    ensures Flat(f.leaves) == Flat(old(f.leaves))[at := e]
    ensures forall b2: nat, i2: nat, at2: nat {:trigger IsEnt(f.leaves, b2, i2, at2)} ::
              IsEnt(old(f.leaves), b2, i2, at2) ==> IsEnt(f.leaves, b2, i2, at2)
  {
    hide Flat, Tidy, Hashed;
    ghost var leaves := f.leaves;
    var b := f.FindLeaf(blkno, index, at);
    EntOnce(leaves, b, blkno, index, at);
    SpotFlat(leaves, b, blkno, index, at);
    f.SetLeaf(b, f.leaves[b].ents[index := e]);
    SetOne(leaves, f.leaves, b, blkno, index, at, e);
    KeepEnts(leaves, f.leaves);
  }

  lemma EntOnce(leaves: seq<Tree>, b: nat, blkno: nat, index: nat, at: nat)
    requires DistinctBlks(leaves) && Spot(leaves, b, blkno, index, at) && IsEnt(leaves, blkno, index, at)
    ensures index < |leaves[b].ents|
  {
    var c: nat :| Spot(leaves, c, blkno, index, at) && index < |leaves[c].ents|;
    SpotOnce(leaves, b, c, blkno, index, at);
  }

  lemma KeepEnts(leaves: seq<Tree>, leaves': seq<Tree>)
    requires forall c: nat, blkno2: nat, index2: nat, at2: nat {:trigger Spot(leaves', c, blkno2, index2, at2)} ::
               Spot(leaves, c, blkno2, index2, at2) ==> Spot(leaves', c, blkno2, index2, at2)
    requires |leaves'| == |leaves|
    requires forall c: nat :: 0 <= c < |leaves| && leaves[c].Leaf? ==> leaves'[c].Leaf? && |leaves'[c].ents| == |leaves[c].ents|
    ensures forall b2: nat, i2: nat, at2: nat {:trigger IsEnt(leaves', b2, i2, at2)} ::
              IsEnt(leaves, b2, i2, at2) ==> IsEnt(leaves', b2, i2, at2)
  {
    forall b2: nat, i2: nat, at2: nat | IsEnt(leaves, b2, i2, at2) ensures IsEnt(leaves', b2, i2, at2) {
      var c: nat :| Spot(leaves, c, b2, i2, at2) && i2 < |leaves[c].ents|;
      assert Spot(leaves', c, b2, i2, at2);
    }
  }

  /** The new entry, complete; the old one, not complete any more. */
  function Completed(e: Ent, rmtblkno: nat, len: nat): (d: Ent)
    ensures !d.incomplete && d.name == e.name && d.hash == e.hash
    ensures rmtblkno > 0 ==> d.value.Remote? && d.value.blk == rmtblkno && d.value.len == len
  {
    if rmtblkno > 0 then e.(incomplete := false, value := Remote(rmtblkno, len)) else e.(incomplete := false)
  }

  /** It names no blocks any more. */
  function Dropped(e: Ent): (d: Ent)
    ensures d.incomplete && d.name == e.name && d.hash == e.hash
    ensures d.value.Remote? ==> d.value.blk == 0 == d.value.len
  {
    if e.value.Remote? then e.(incomplete := true, value := Remote(0, 0)) else e.(incomplete := true)
  }

  /** Read the entry at a place. */
  method GetEnt(f: Fork, blkno: nat, index: nat, ghost at: nat) returns (e: Ent)
    requires f.Valid() && IsEnt(f.leaves, blkno, index, at)
    ensures at < |Flat(f.leaves)| && e == Flat(f.leaves)[at]
  {
    var b := f.FindLeaf(blkno, index, at);
    EntOnce(f.leaves, b, blkno, index, at);
    SpotFlat(f.leaves, b, blkno, index, at);
    e := f.leaves[b].ents[index];
  }

  /** Remove the entry at a place. A leaf left empty goes, unless it is the only one. */
  method LeafRemove(f: Fork, blkno: nat, index: nat, ghost at: nat)
    requires f.Valid() && IsEnt(f.leaves, blkno, index, at)
    modifies f`leaves
    ensures f.Valid() && at < |Flat(old(f.leaves))| && Flat(f.leaves) == DelEnt(Flat(old(f.leaves)), at)
    ensures |f.leaves| <= |old(f.leaves)|
  {
    hide Hashed, Tidy;
    ghost var leaves := f.leaves;
    var b := f.FindLeaf(blkno, index, at);
    EntOnce(leaves, b, blkno, index, at);
    SpotFlat(leaves, b, blkno, index, at);
    var ents := f.leaves[b].ents;
    f.SetLeaf(b, ents[..index] + ents[index + 1..]);
    DelMiddle(Flat(leaves[..b]), ents, Flat(leaves[b + 1..]), index);
    FlatAt(leaves, b);
    HashedDel(Flat(leaves), at);
    TidyDel(Flat(leaves), at, f.data, f.bs);
    LeafSet(leaves, b, DelEnt(ents, index));
    if |f.leaves[b].ents| == 0 && |f.leaves| > 1 {
      DropEmpty(f.leaves, b);
      f.leaves := f.leaves[..b] + f.leaves[b + 1..];
    }
  }

  lemma DelMiddle(a: seq<Ent>, ents: seq<Ent>, c: seq<Ent>, index: nat)
    requires index < |ents|
    ensures a + DelEnt(ents, index) + c == DelEnt(a + ents + c, |a| + index)
  {
  }

  lemma DropEmpty(leaves: seq<Tree>, b: nat)
    requires b < |leaves| && |leaves| > 1 && GoodBut(leaves, b) && DistinctBlks(leaves) && leaves[b].Leaf? && leaves[b].ents == []
    ensures var leaves' := leaves[..b] + leaves[b + 1..];
            && leaves' != [] && GoodLeaves(leaves') && DistinctBlks(leaves') && Flat(leaves') == Flat(leaves)
  {
    var leaves' := leaves[..b] + leaves[b + 1..];
    FlatAt(leaves, b);
    FlatConcat(leaves[..b], leaves[b + 1..]);
    assert Flat(leaves') == Flat(leaves);
    assert forall p {:trigger leaves'[p]} :: 0 <= p < |leaves'| ==> leaves'[p] == leaves[if p < b then p else p + 1];
  }

  /** Two neighbouring leaves made one, under the block number that stays. */
  method JoinLeaves(f: Fork, b: nat, keepLeft: bool)
    requires f.Valid() && b + 1 < |f.leaves|
    modifies f`leaves
    ensures f.Valid() && Flat(f.leaves) == Flat(old(f.leaves))
    ensures old(f.leaves[b].Leaf? && f.leaves[b + 1].Leaf?)
    ensures var l, r := old(f.leaves[b]), old(f.leaves[b + 1]);
            f.leaves == old(f.leaves)[..b] + [Leaf(if keepLeft then l.blkno else r.blkno, l.ents + r.ents)]
                        + old(f.leaves)[b + 2..]
  {
    hide Hashed, Tidy;
    var l, r := f.leaves[b], f.leaves[b + 1];
    JoinedLeaves(f.leaves, b, if keepLeft then l.blkno else r.blkno);
    f.leaves := f.leaves[..b] + [Leaf(if keepLeft then l.blkno else r.blkno, l.ents + r.ents)] + f.leaves[b + 2..];
  }

  lemma ThreeParts(a: seq<Ent>, x: seq<Ent>, y: seq<Ent>, c: seq<Ent>)
    ensures a + x + ([] + y + c) == a + (x + y) + c
  {
  }

  lemma JoinedLeaves(leaves: seq<Tree>, b: nat, blkno: nat)
    requires b + 1 < |leaves| && GoodLeaves(leaves) && DistinctBlks(leaves)
    requires leaves[b].Leaf? && leaves[b + 1].Leaf? && (blkno == leaves[b].blkno || blkno == leaves[b + 1].blkno)
    ensures var leaves' := leaves[..b] + [Leaf(blkno, leaves[b].ents + leaves[b + 1].ents)] + leaves[b + 2..];
            GoodLeaves(leaves') && DistinctBlks(leaves') && Flat(leaves') == Flat(leaves)
  {
    var ents := leaves[b].ents + leaves[b + 1].ents;
    var leaves' := leaves[..b] + [Leaf(blkno, ents)] + leaves[b + 2..];
    FlatAt(leaves, b);
    FlatAt(leaves[b + 1..], 0);
    FlatAt(leaves', b);
    assert leaves'[..b] == leaves[..b] && leaves'[b + 1..] == leaves[b + 2..] && leaves[b + 1..][1..] == leaves[b + 2..];
    assert leaves[b + 1..][..0] == [];
    ThreeParts(Flat(leaves[..b]), leaves[b].ents, leaves[b + 1].ents, Flat(leaves[b + 2..]));
    assert Flat(leaves') == Flat(leaves);
    assert forall p {:trigger leaves'[p]} :: 0 <= p < |leaves'| ==>
             leaves'[p] == if p < b then leaves[p] else if p == b then Leaf(blkno, ents) else leaves[p + 1];
    assert leaves[b].ents != [];
  }
}
