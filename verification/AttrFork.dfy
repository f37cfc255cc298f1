/** An attribute fork: leaf blocks in order of their hashes, and blocks with values. */
module AttrFork {
  import opened DaHash
  import opened DaTree
  import opened DaLookup
  import opened AttrView

  /** Entry index of leaf b is at this place among all entries; it may be one past the leaf's last. */
  ghost predicate Spot(leaves: seq<Tree>, b: nat, blkno: nat, index: nat, at: nat) {
    && b < |leaves| && leaves[b].Leaf? && leaves[b].blkno == blkno
    && index <= |leaves[b].ents| && at == Off(leaves, b) + index
  }

  /** An entry with this hash keeps the order at this place. */
  ghost predicate FitsIn(ents: seq<Ent>, at: nat, hash: nat) {
    && at <= |ents|
    && (forall i :: 0 <= i < at ==> ents[i].hash <= hash)
    && (forall i :: at <= i < |ents| ==> hash <= ents[i].hash)
  }

  ghost predicate DistinctBlks(leaves: seq<Tree>) {
    forall i, j :: 0 <= i < j < |leaves| && leaves[i].Leaf? && leaves[j].Leaf? ==> leaves[i].blkno != leaves[j].blkno
  }

  /** Leaf blocks whose entries are all in order; only leaf b, or a lone one, may be empty. */
  ghost predicate GoodBut(leaves: seq<Tree>, b: int) {
    && (forall p {:trigger leaves[p]} :: 0 <= p < |leaves| ==>
        leaves[p].Leaf? && (leaves[p].ents != [] || p == b || |leaves| == 1))
    && Hashed(Flat(leaves))
  }

  class Fork {
    const bs: nat
    var leaves: seq<Tree>
    var data: Blocks
    ghost var disk: seq<Tree>
    ghost var log: seq<Seen>

    /** A fork with one empty leaf. */
    constructor (bs: nat)
      requires bs > 0
      ensures Valid() && Clean() && this.bs == bs && Flat(leaves) == [] && |leaves| == 1 && log == []
    {
      this.bs := bs;
      leaves := [Leaf(0, [])];
      data := map[];
      disk := [Leaf(0, [])];
      log := [];
      new;
      FlatLone(0, []);
    }

    ghost predicate Valid()
      reads this
    {
      && bs > 0 && leaves != []
      && GoodLeaves(leaves) && DistinctBlks(leaves)
      && Tidy(Flat(leaves), data, bs)
    }

    /** The same, but that leaf b may be empty. */
    ghost predicate ValidBut(b: int)
      reads this
    {
      && bs > 0 && leaves != []
      && GoodBut(leaves, b) && DistinctBlks(leaves)
      && Tidy(Flat(leaves), data, bs)
    }

    /** All changes of the leaves are committed. */
    ghost predicate Clean()
      reads this
    {
      disk == leaves
    }

    /** What a reader sees now. */
    ghost function Now(): Seen
      requires bs > 0
      reads this
    {
      View(Flat(leaves), data, bs)
    }

    /** End a transaction. The log has what is seen after a crash at any moment: here, and after each direct write. */
    method Commit()
      requires bs > 0
      modifies `disk, `log
      ensures Clean() && log == old(log) + [Now()]
    {
      disk := leaves;
      log := log + [Now()];
    }

    /** Write a block of a value, past the transaction. */
    method WriteBlock(b: nat, bytes: seq<Byte>)
      requires bs > 0 && b in data
      modifies `data, `log
      ensures data == old(data)[b := bytes]
      ensures log == old(log) + [View(Flat(disk), data, bs)]
    {
      data := data[b := bytes];
      log := log + [View(Flat(disk), data, bs)];
    }

    /** Map blocks of the fork, as part of the transaction. */
    method AllocBlocks(blk: nat, n: nat)
      modifies `data
      ensures data == map b | b in old(data).Keys + Span(blk, n) :: if b in old(data) then old(data)[b] else []
    {
      data := map b | b in data.Keys + Span(blk, n) :: if b in data then data[b] else [];
    }

    method FreeBlocks(blk: nat, n: nat)
      modifies `data
      ensures data == map b | b in old(data).Keys - Span(blk, n) :: old(data)[b]
    {
      data := map b | b in data.Keys - Span(blk, n) :: data[b];
    }

    /** The leaf with a block number. */
    method FindLeaf(blkno: nat, ghost index: nat, ghost at: nat) returns (b: nat)
      requires DistinctBlks(leaves) && exists c: nat :: Spot(leaves, c, blkno, index, at)
      ensures Spot(leaves, b, blkno, index, at)
    {
      ghost var c: nat :| Spot(leaves, c, blkno, index, at);
      b := 0;
      while b < |leaves| && !(leaves[b].Leaf? && leaves[b].blkno == blkno)
        invariant b <= c
      {
        b := b + 1;
      }
    }

    /** Write new entries into leaf b. */
    method SetLeaf(b: nat, ents: seq<Ent>)
      requires b < |leaves| && leaves[b].Leaf?
      modifies `leaves
      ensures leaves == old(leaves)[b := Leaf(old(leaves)[b].blkno, ents)]
      ensures Flat(leaves) == Flat(old(leaves)[..b]) + ents + Flat(old(leaves)[b + 1..])
    {
      ghost var leaves0 := leaves;
      leaves := leaves[b := Leaf(leaves[b].blkno, ents)];
      FlatAt(leaves, b);
      assert leaves[..b] == leaves0[..b] && leaves[b + 1..] == leaves0[b + 1..];
    }
  }

  lemma FlatLone(blkno: nat, ents: seq<Ent>)
    ensures Flat([Leaf(blkno, ents)]) == ents
  {
    assert [Leaf(blkno, ents)][1..] == [];
  }

  /** Changing one leaf's entries keeps the rest. */
  lemma LeafSet(leaves: seq<Tree>, b: nat, ents: seq<Ent>)
    requires b < |leaves| && GoodBut(leaves, b) && DistinctBlks(leaves)
    ensures var leaves' := leaves[b := Leaf(leaves[b].blkno, ents)];
            && DistinctBlks(leaves')
            && (Hashed(Flat(leaves')) ==> GoodBut(leaves', b) && (ents != [] || |leaves| == 1 ==> GoodLeaves(leaves')))
  {
    assert leaves[b].Leaf?;
  }

  /** Where a place is, is unique. */
  lemma SpotFlat(leaves: seq<Tree>, b: nat, blkno: nat, index: nat, at: nat)
    requires Spot(leaves, b, blkno, index, at)
    ensures at <= |Flat(leaves)|
    ensures index < |leaves[b].ents| ==> at < |Flat(leaves)| && Flat(leaves)[at] == leaves[b].ents[index]
    ensures Flat(leaves[..b]) == Flat(leaves)[..Off(leaves, b)]
    ensures Off(leaves, b) + |leaves[b].ents| <= |Flat(leaves)|
    ensures Flat(leaves[b + 1..]) == Flat(leaves)[Off(leaves, b) + |leaves[b].ents|..]
  {
    FlatAt(leaves, b);
  }

  lemma HashedIns(ents: seq<Ent>, at: nat, e: Ent)
    requires Hashed(ents) && FitsIn(ents, at, e.hash) && e.hash == HashOf(e.name.bytes)
    ensures Hashed(InsEnt(ents, at, e))
  {
    var ents' := InsEnt(ents, at, e);
    assert forall i :: 0 <= i < |ents'| ==> ents'[i] == if i < at then ents[i] else if i == at then e else ents[i - 1];
  }

  lemma HashedDel(ents: seq<Ent>, at: nat)
    requires Hashed(ents) && at < |ents|
    ensures Hashed(DelEnt(ents, at))
  {
    var ents' := DelEnt(ents, at);
    assert forall i :: 0 <= i < |ents'| ==> ents'[i] == if i < at then ents[i] else ents[i + 1];
  }

  lemma TidyIns(ents: seq<Ent>, at: nat, e: Ent, data: Blocks, bs: nat)
    requires bs > 0 && Tidy(ents, data, bs) && at <= |ents| && RangeOf(e, bs) == {}
    ensures Tidy(InsEnt(ents, at, e), data, bs)
  {
    var ents' := InsEnt(ents, at, e);
    assert forall i {:trigger ents'[i]} :: 0 <= i < |ents'| ==>
        ents'[i] == if i < at then ents[i] else if i == at then e else ents[i - 1];
  }

  lemma TidyDel(ents: seq<Ent>, at: nat, data: Blocks, bs: nat)
    requires bs > 0 && Tidy(ents, data, bs) && at < |ents|
    ensures Tidy(DelEnt(ents, at), data, bs)
  {
    var ents' := DelEnt(ents, at);
    assert forall i {:trigger ents'[i]} :: 0 <= i < |ents'| ==> ents'[i] == if i < at then ents[i] else ents[i + 1];
  }
}
