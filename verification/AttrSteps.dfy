/** The steps of adding, replacing and removing an attribute. */
module AttrSteps {
  import opened Arith
  import opened DaHash
  import opened DaTree
  import opened DaLookup
  import opened AttrView
  import opened AttrFork

  /** A request, and where the new and the old entry are. */
  class Args {
    var name: Name
    var hash: nat
    var value: seq<Byte>
    var rename: bool
    var blkno: nat
    var index: nat
    var rmtblkno: nat
    var rmtblkcnt: nat
    var blkno2: nat
    var index2: nat
    var rmtblkno2: nat
    var rmtblkcnt2: nat

    constructor (name: Name, hash: nat, value: seq<Byte>)
      ensures this.name == name && this.hash == hash && this.value == value
      ensures !rename && rmtblkno == 0 && rmtblkno2 == 0
    {
      this.name, this.hash, this.value := name, hash, value;
      rename, rmtblkno, rmtblkno2 := false, 0, 0;
    }
  }

  /** Whether name and value are small enough to be kept in a leaf: with its header, three quarters of a block. */
  function IsLocal(namelen: nat, valuelen: nat, bs: nat): bool {
    (3 + namelen + valuelen + 3) / 4 * 4 < bs / 2 + bs / 4
  }

  /** In a block of a multiple of 16 bytes that is room for name and value up to seven bytes short of three quarters. */
  lemma LocalMost(namelen: nat, valuelen: nat, bs: nat)
    requires bs % 16 == 0
    ensures IsLocal(namelen, valuelen, bs) <==> 4 * (namelen + valuelen + 7) <= 3 * bs
  {
    var q, up := bs / 16, (3 + namelen + valuelen + 3) / 4;
    assert bs == 16 * q && bs / 2 + bs / 4 == 12 * q;
    assert IsLocal(namelen, valuelen, bs) <==> up < 3 * q;
    assert 4 * up <= namelen + valuelen + 6 < 4 * up + 4;
  }

  /** The new entry. It starts incomplete if it is to replace another, or if its value is yet to be written. */
  function NewEnt(name: Name, hash: nat, value: seq<Byte>, rename: bool, bs: nat): Ent {
    var local := IsLocal(|name.bytes|, |value|, bs);
    Ent(hash, name, rename || !local, if local then Local(value) else Remote(0, 0))
  }

  ghost predicate IsAt(leaves: seq<Tree>, blkno: nat, index: nat, at: nat) {
    exists b: nat :: Spot(leaves, b, blkno, index, at)
  }

  /** The place is that of an entry, not just one past a leaf's last. */
  ghost predicate IsEnt(leaves: seq<Tree>, blkno: nat, index: nat, at: nat) {
    exists b: nat :: Spot(leaves, b, blkno, index, at) && index < |leaves[b].ents|
  }

  /** Look a name up in the leaves, as the lookup in their tree would. */
  method Lookup(f: Fork, k: Key, hash: nat) returns (found: bool, blkno: nat, index: nat, ghost at: nat)
    requires f.Valid() && hash == HashOf(k.name.bytes)
    ensures Linear(Flat(f.leaves), k, hash, found, at) && IsAt(f.leaves, blkno, index, at)
    ensures found ==> IsEnt(f.leaves, blkno, index, at)
  {
    hide Flat, Hashed, SearchedTo, Searched, Linear, Tidy;
    var leaves := f.leaves;
    var b := 0;
    LeavesHashed(leaves);
    while b + 1 < |leaves| && LastHash(leaves[b].ents) < hash
      invariant b < |leaves| && LowBefore(leaves, b, hash)
    {
      b := b + 1;
    }
    FirstLeaf(leaves, k, hash, b);
    while true
      invariant b < |leaves| && SearchedTo(leaves, b, k, hash)
      decreases |leaves| - b
    {
      LeafHashed(leaves, b);
      found, index := LeafLookup(leaves[b].ents, k, hash);
      blkno, at := leaves[b].blkno, Off(leaves, b) + index;
      SearchedIndex(leaves[b].ents, k, hash, found, index);
      assert Spot(leaves, b, blkno, index, at);
      if found || LastHash(leaves[b].ents) != hash || b + 1 == |leaves| {
        SearchDone(leaves, k, hash, b, found, index);
        return;
      }
      SearchedNone(leaves[b].ents, k, hash, index);
      NextLeaf(leaves, k, hash, b);
      b := b + 1;
    }
  }

  lemma SearchedIndex(ents: seq<Ent>, k: Key, hash: nat, found: bool, index: nat)
    requires Searched(ents, k, hash, found, index)
    ensures index <= |ents| && (found ==> index < |ents|)
  {
  }

  /** Put the new entry into its leaf. The old one, if it is behind it there, moves up. */
  method LeafAdd(f: Fork, args: Args, ghost c: nat, ghost at: nat)
    requires f.ValidBut(c) && Spot(f.leaves, c, args.blkno, args.index, at)
    requires FitsIn(Flat(f.leaves), at, args.hash) && args.hash == HashOf(args.name.bytes)
    modifies f`leaves, args`index2, args`rmtblkno, args`rmtblkcnt
    ensures f.Valid() && |f.leaves| == |old(f.leaves)|
    ensures Flat(f.leaves) == InsEnt(Flat(old(f.leaves)), at, NewEnt(args.name, args.hash, args.value, args.rename, f.bs))
    ensures IsEnt(f.leaves, args.blkno, args.index, at)
    ensures args.rename && IsEnt(old(f.leaves), args.blkno2, old(args.index2), at) ==>
              IsEnt(f.leaves, args.blkno2, args.index2, at + 1)
    ensures if IsLocal(|args.name.bytes|, |args.value|, f.bs) then args.rmtblkno == old(args.rmtblkno)
              && args.rmtblkcnt == old(args.rmtblkcnt)
            else args.rmtblkno == 1 && args.rmtblkcnt == CeilDiv(|args.value|, f.bs)
  {
    hide Hashed, Flat, Tidy, DistinctBlks, FitsIn, HashOf, IsEnt, IsLocal, Spot;
    ghost var leaves := f.leaves;
    var b := f.FindLeaf(args.blkno, args.index, at);
    SpotOnce(leaves, b, c, args.blkno, args.index, at);
    var ents := f.leaves[b].ents;
    var e := NewEnt(args.name, args.hash, args.value, args.rename, f.bs);
    SpotFlat(leaves, b, args.blkno, args.index, at);
    f.SetLeaf(b, ents[..args.index] + [e] + ents[args.index..]);
    if args.rename && args.blkno2 == args.blkno && args.index2 <= args.index {
      args.index2 := args.index2 + 1;
    }
    if e.value.Remote? {
      args.rmtblkno, args.rmtblkcnt := 1, CeilDiv(|args.value|, f.bs);
    }
    AddedLeaf(leaves, f.leaves, b, args.blkno, args.index, e, at);
    if args.rename && IsEnt(leaves, args.blkno2, old(args.index2), at) {
      AddedOld(leaves, f.leaves, b, args.blkno, args.index, e, at, args.blkno2, old(args.index2));
    }
    HashedIns(Flat(leaves), at, e);
    TidyIns(Flat(leaves), at, e, f.data, f.bs);
  }

  lemma SpotOnce(leaves: seq<Tree>, b: nat, c: nat, blkno: nat, index: nat, at: nat)
    requires DistinctBlks(leaves) && Spot(leaves, b, blkno, index, at) && Spot(leaves, c, blkno, index, at)
    ensures b == c && leaves[b].Leaf? && leaves[b].blkno == blkno && index <= |leaves[b].ents|
  {
  }

  lemma AddedLeaf(leaves: seq<Tree>, leaves': seq<Tree>, b: nat, blkno: nat, index: nat, e: Ent, at: nat)
    requires GoodBut(leaves, b) && DistinctBlks(leaves) && Spot(leaves, b, blkno, index, at)
    requires leaves' == leaves[b := Leaf(blkno, InsEnt(leaves[b].ents, index, e))]
    ensures at <= |Flat(leaves)| && Flat(leaves') == InsEnt(Flat(leaves), at, e)
    ensures DistinctBlks(leaves') && (Hashed(Flat(leaves')) ==> GoodLeaves(leaves'))
    ensures IsEnt(leaves', blkno, index, at)
  {
    var ents, ents' := leaves[b].ents, InsEnt(leaves[b].ents, index, e);
    LeafSet(leaves, b, ents');
    FlatAt(leaves, b);
    FlatAt(leaves', b);
    assert leaves'[..b] == leaves[..b] && leaves'[b + 1..] == leaves[b + 1..];
    InsMiddle(Flat(leaves[..b]), ents, Flat(leaves[b + 1..]), index, e);
    assert Spot(leaves', b, blkno, index, at);
  }

  lemma InsMiddle(a: seq<Ent>, ents: seq<Ent>, c: seq<Ent>, index: nat, e: Ent)
    requires index <= |ents|
    ensures a + InsEnt(ents, index, e) + c == InsEnt(a + ents + c, |a| + index, e)
  {
  }

  /** The old entry was where the new one went; now it is the one after that. */
  lemma AddedOld(leaves: seq<Tree>, leaves': seq<Tree>, b: nat, blkno: nat, index: nat, e: Ent, at: nat, blkno2: nat, index2: nat)
    requires DistinctBlks(leaves) && Spot(leaves, b, blkno, index, at) && IsEnt(leaves, blkno2, index2, at)
    requires leaves' == leaves[b := Leaf(blkno, InsEnt(leaves[b].ents, index, e))]
    ensures IsEnt(leaves', blkno2, if blkno2 == blkno && index2 <= index then index2 + 1 else index2, at + 1)
  {
    var b2: nat :| Spot(leaves, b2, blkno2, index2, at) && index2 < |leaves[b2].ents|;
    FlatAt(leaves, b);
    FlatAt(leaves, b2);
    if b2 < b {
      OffMono(leaves, b2 + 1, b);
    } else if b2 == b {
      assert Spot(leaves', b, blkno, index + 1, at + 1);
    } else {
      OffSet(leaves, b, InsEnt(leaves[b].ents, index, e), b2);
      assert Spot(leaves', b2, blkno2, index2, at + 1);
    }
  }

  /** Leaves after the one changed move by what that grew. */
  lemma OffSet(leaves: seq<Tree>, b: nat, ents: seq<Ent>, p: nat)
    requires b < p <= |leaves| && leaves[b].Leaf?
    ensures Off(leaves[b := Leaf(leaves[b].blkno, ents)], p) == Off(leaves, p) + |ents| - |leaves[b].ents|
  {
    var leaves' := leaves[b := Leaf(leaves[b].blkno, ents)];
    FlatAt(leaves[..p], b);
    FlatAt(leaves'[..p], b);
    assert leaves'[..p][..b] == leaves[..p][..b] && leaves'[..p][b + 1..] == leaves[..p][b + 1..];
  }

  /** What the balancing heuristic may choose: how many entries stay, and on which side the new one goes. */
  predicate Balance(index: nat, n: nat, count: nat, inleaf: bool) {
    && 0 < count <= n
    && (index < count ==> inleaf) && (count < index ==> !inleaf)
    && (count == n ==> !inleaf)
  }

  /**
   * Split the leaf, moving all but count of its entries to a new one after it, and put the new entry in. The places
   * of the new and the old entry follow.
   */
  method SplitAdd(f: Fork, args: Args, newno: nat, count: nat, inleaf: bool, ghost c: nat, ghost at: nat)
    requires f.Valid() && Spot(f.leaves, c, args.blkno, args.index, at)
    requires FitsIn(Flat(f.leaves), at, args.hash) && args.hash == HashOf(args.name.bytes)
    requires args.rename ==> args.blkno2 == args.blkno && args.index2 == args.index < |f.leaves[c].ents|
    requires Balance(args.index, |f.leaves[c].ents|, count, inleaf)
    requires forall p :: 0 <= p < |f.leaves| && f.leaves[p].Leaf? ==> f.leaves[p].blkno != newno
    modifies f`leaves, args`blkno, args`index, args`blkno2, args`index2, args`rmtblkno, args`rmtblkcnt
    ensures f.Valid() && |f.leaves| == |old(f.leaves)| + 1
    ensures Flat(f.leaves) == InsEnt(Flat(old(f.leaves)), at, NewEnt(args.name, args.hash, args.value, args.rename, f.bs))
    ensures IsEnt(f.leaves, args.blkno, args.index, at)
    ensures args.rename ==> IsEnt(f.leaves, args.blkno2, args.index2, at + 1)
    ensures if IsLocal(|args.name.bytes|, |args.value|, f.bs) then args.rmtblkno == old(args.rmtblkno)
              && args.rmtblkcnt == old(args.rmtblkcnt)
            else args.rmtblkno == 1 && args.rmtblkcnt == CeilDiv(|args.value|, f.bs)
  {
    hide Hashed, Tidy, FitsIn, HashOf, IsLocal, NewEnt, Flat;
    ghost var leaves := f.leaves;
    var b := f.FindLeaf(args.blkno, args.index, at);
    SpotOnce(leaves, b, c, args.blkno, args.index, at);
    var blkno, ents := args.blkno, f.leaves[b].ents;
    f.leaves := f.leaves[..b] + [Leaf(blkno, ents[..count]), Leaf(newno, ents[count..])] + f.leaves[b + 1..];
    SplitLeaves(leaves, f.leaves, b, blkno, newno, count, args.index, at);
    ghost var d := if args.index < count || (args.index == count && inleaf) then b else b + 1;
    if args.index > count {
      args.index2 := args.index - count;
      args.index, args.blkno, args.blkno2 := args.index2, newno, newno;
    } else if args.index == count {
      if inleaf {
        args.index2, args.blkno2 := 0, newno;
      } else {
        args.index, args.index2, args.blkno, args.blkno2 := 0, 0, newno, newno;
      }
    } else {
      args.index2, args.blkno2 := args.index, args.blkno;
    }
    if args.rename {
      assert Spot(f.leaves, if old(args.index) < count then b else b + 1, args.blkno2, args.index2, at);
    }
    LeafAdd(f, args, d, at);
  }

  /** The leaf in two parts: the same entries in the same order. */
  lemma SplitLeaves(leaves: seq<Tree>, leaves': seq<Tree>, b: nat, blkno: nat, newno: nat, count: nat, index: nat, at: nat)
    requires GoodLeaves(leaves) && DistinctBlks(leaves) && Spot(leaves, b, blkno, index, at) && 0 < count <= |leaves[b].ents|
    requires forall p :: 0 <= p < |leaves| && leaves[p].Leaf? ==> leaves[p].blkno != newno
    requires leaves' == leaves[..b] + [Leaf(blkno, leaves[b].ents[..count]),
              Leaf(newno, leaves[b].ents[count..])] + leaves[b + 1..]
    ensures Flat(leaves') == Flat(leaves) && DistinctBlks(leaves')
    ensures GoodBut(leaves', b + 1) && (count < |leaves[b].ents| ==> GoodLeaves(leaves'))
    ensures index <= count ==> Spot(leaves', b, blkno, index, at)
    ensures index >= count ==> Spot(leaves', b + 1, newno, index - count, at)
  {
    SplitFlat(leaves, leaves', b, blkno, newno, count);
    SplitEach(leaves, leaves', b, blkno, newno, count);
    hide Flat;
  }

  lemma SplitFlat(leaves: seq<Tree>, leaves': seq<Tree>, b: nat, blkno: nat, newno: nat, count: nat)
    requires b < |leaves| && leaves[b].Leaf? && count <= |leaves[b].ents|
    requires leaves' == leaves[..b] + [Leaf(blkno, leaves[b].ents[..count]),
              Leaf(newno, leaves[b].ents[count..])] + leaves[b + 1..]
    ensures Flat(leaves') == Flat(leaves)
    ensures Off(leaves', b) == Off(leaves, b) && Off(leaves', b + 1) == Off(leaves, b) + count
  {
    FlatAt(leaves, b);
    FlatAt(leaves', b);
    FlatAt(leaves', b + 1);
    assert leaves'[..b] == leaves[..b] && leaves'[b + 2..] == leaves[b + 1..];
    assert leaves[b].ents == leaves[b].ents[..count] + leaves[b].ents[count..];
    hide Flat;
    assert leaves'[b] == Leaf(blkno, leaves[b].ents[..count]) && leaves'[b + 1] == Leaf(newno, leaves[b].ents[count..]);
    FourParts(Flat(leaves[..b]), leaves[b].ents[..count], leaves[b].ents[count..], Flat(leaves[b + 1..]),
        Flat(leaves'[b + 1..]), Flat(leaves'[..b + 1]), Flat(leaves'));
  }

  lemma FourParts(a: seq<Ent>, x: seq<Ent>, y: seq<Ent>, c: seq<Ent>, tail: seq<Ent>, head: seq<Ent>, all: seq<Ent>)
    requires all == a + x + tail && |head| == |a| + |x| && all == head + y + c
    ensures all == a + (x + y) + c
  {
    assert all[..|head|] == head && all[..|a| + |x|] == a + x;
  }

  lemma SplitEach(leaves: seq<Tree>, leaves': seq<Tree>, b: nat, blkno: nat, newno: nat, count: nat)
    requires b < |leaves| && leaves[b].Leaf? && leaves[b].blkno == blkno && DistinctBlks(leaves)
    requires forall p {:trigger leaves[p]} :: 0 <= p < |leaves| ==> leaves[p].Leaf? && (leaves[p].ents != [] || |leaves| == 1)
    requires 0 < count <= |leaves[b].ents|
    requires forall p :: 0 <= p < |leaves| && leaves[p].Leaf? ==> leaves[p].blkno != newno
    requires leaves' == leaves[..b] + [Leaf(blkno, leaves[b].ents[..count]),
              Leaf(newno, leaves[b].ents[count..])] + leaves[b + 1..]
    ensures forall p {:trigger leaves'[p]} :: 0 <= p < |leaves'| ==>
              leaves'[p].Leaf? && (leaves'[p].ents != [] || (p == b + 1 && count == |leaves[b].ents|))
    ensures DistinctBlks(leaves')
  {
    assert forall p {:trigger leaves'[p]} :: 0 <= p < |leaves'| ==>
             leaves'[p] == if p < b then leaves[p] else if p == b then Leaf(blkno, leaves[b].ents[..count])
                           else if p == b + 1 then Leaf(newno, leaves[b].ents[count..]) else leaves[p - 1];
    forall i, j | 0 <= i < j < |leaves'| ensures leaves'[i].blkno != leaves'[j].blkno {
      var i', j' := if i <= b then i else i - 1, if j <= b then j else j - 1;
      assert i != b + 1 ==> leaves'[i].blkno == leaves[i'].blkno;
      assert j != b + 1 ==> leaves'[j].blkno == leaves[j'].blkno;
    }
  }
}
