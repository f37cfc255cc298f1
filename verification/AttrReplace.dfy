/** Adding, replacing and removing a name in a leaf- or node-format attribute fork, over several transactions. */
module AttrReplace {
  import opened Arith
  import opened DaHash
  import opened DaTree
  import opened DaLookup
  import opened AttrView
  import opened AttrFork
  import opened AttrSteps
  import opened AttrFlags
  import opened AttrRemote

  lemma TidySet(ents: seq<Ent>, at: nat, e: Ent, data: Blocks, bs: nat)
    requires bs > 0 && Tidy(ents, data, bs) && at < |ents| && RangeOf(e, bs) <= data.Keys
    requires forall i {:trigger ents[i]} :: 0 <= i < |ents| && i != at ==> RangeOf(ents[i], bs) !! RangeOf(e, bs)
    ensures Tidy(ents[at := e], data, bs)
  {
    var ents' := ents[at := e];
    assert forall i {:trigger ents'[i]} :: 0 <= i < |ents'| ==> ents'[i] == if i == at then e else ents[i];
  }

  /** The blocks of the new value are there, and no complete entry has any of them. */
  ghost predicate OwnBlocks(ents: seq<Ent>, data: Blocks, bs: nat, rmtblkno: nat, len: nat)
    requires bs > 0
  {
    rmtblkno > 0 ==>
      && Span(rmtblkno, CeilDiv(len, bs)) <= data.Keys
      && forall i {:trigger ents[i]} :: 0 <= i < |ents| ==> RangeOf(ents[i], bs) !! Span(rmtblkno, CeilDiv(len, bs))
  }

  /** Completing an entry shows its value. */
  lemma CompletedView(ents: seq<Ent>, at: nat, data: Blocks, bs: nat, rmtblkno: nat, len: nat)
    requires bs > 0 && Tidy(ents, data, bs) && at < |ents| && ents[at].incomplete
    requires OwnBlocks(ents, data, bs, rmtblkno, len) && (rmtblkno == 0 ==> ents[at].value.Local?)
    ensures var e := Completed(ents[at], rmtblkno, len);
            && Tidy(ents[at := e], data, bs)
            && View(ents[at := e], data, bs) == View(ents, data, bs) + multiset{(e.name, ValueOf(e.value, data, bs))}
            && RangeOf(e, bs) == (if rmtblkno > 0 then Span(rmtblkno, CeilDiv(len, bs)) else {})
  {
    var e := Completed(ents[at], rmtblkno, len);
    TidySet(ents, at, e, data, bs);
    ViewSet(ents, at, e, data, bs);
  }

  /** Dropping an entry hides its value, and no other entry has its blocks. */
  lemma DroppedView(ents: seq<Ent>, at: nat, data: Blocks, bs: nat)
    requires bs > 0 && Tidy(ents, data, bs) && at < |ents| && !ents[at].incomplete
    ensures var e := Dropped(ents[at]);
            && Tidy(ents[at := e], data, bs)
            && View(ents[at := e], data, bs) + multiset{(ents[at].name, ValueOf(ents[at].value, data, bs))}
               == View(ents, data, bs)
            && forall i {:trigger ents[at := e][i]} :: 0 <= i < |ents| ==> RangeOf(ents[at := e][i], bs) !! RangeOf(ents[at], bs)
  {
    var e := Dropped(ents[at]);
    TidySet(ents, at, e, data, bs);
    ViewSet(ents, at, e, data, bs);
    var ents' := ents[at := e];
    forall i | 0 <= i < |ents'| ensures RangeOf(ents'[i], bs) !! RangeOf(ents[at], bs) {
      if i < at {
        assert RangeOf(ents[i], bs) !! RangeOf(ents[at], bs);
      } else if i > at {
        assert RangeOf(ents[at], bs) !! RangeOf(ents[i], bs);
      }
    }
  }

  /** In one transaction, complete the new entry and drop the old. */
  method FlipFlags(f: Fork, args: Args, ghost at: nat, ghost at2: nat)
    requires f.Valid() && f.Clean() && IsEnt(f.leaves, args.blkno, args.index, at)
              && IsEnt(f.leaves, args.blkno2, args.index2, at2)
    requires at < |Flat(f.leaves)| && at2 < |Flat(f.leaves)| && at != at2
    requires Flat(f.leaves)[at].incomplete && !Flat(f.leaves)[at2].incomplete
    requires OwnBlocks(Flat(f.leaves), f.data, f.bs, args.rmtblkno, |args.value|)
    requires args.rmtblkno == 0 ==> Flat(f.leaves)[at].value.Local?
    modifies f`leaves, f`disk, f`log
    ensures f.Valid() && f.Clean() && f.log == old(f.log) + [f.Now()]
    ensures var ents := Flat(old(f.leaves));
            var e := Completed(ents[at], args.rmtblkno, |args.value|);
            && Flat(f.leaves) == ents[at := e][at2 := Dropped(ents[at2])]
            && f.Now() + multiset{(ents[at2].name, ValueOf(ents[at2].value, f.data, f.bs))}
               == old(f.Now()) + multiset{(e.name, ValueOf(e.value, f.data, f.bs))}
            && (forall i {:trigger Flat(f.leaves)[i]} :: 0 <= i < |Flat(f.leaves)| ==>
                  RangeOf(Flat(f.leaves)[i], f.bs) !! RangeOf(ents[at2], f.bs))
    ensures IsEnt(f.leaves, args.blkno2, args.index2, at2)
  {
    hide GoodLeaves, Flat, Tidy, View, IsEnt, OwnBlocks, RangeOf, DistinctBlks;
    ghost var ents := Flat(f.leaves);
    var e1 := GetEnt(f, args.blkno, args.index, at);
    var e2 := GetEnt(f, args.blkno2, args.index2, at2);
    CompletedView(ents, at, f.data, f.bs, args.rmtblkno, |args.value|);
    SetEnt(f, args.blkno, args.index, Completed(e1, args.rmtblkno, |args.value|), at);
    DroppedView(Flat(f.leaves), at2, f.data, f.bs);
    SetEnt(f, args.blkno2, args.index2, Dropped(e2), at2);
    f.Commit();
  }

  /** Complete the new entry, there being no old one. */
  method ClearFlag(f: Fork, args: Args, ghost at: nat)
    requires f.Valid() && f.Clean() && IsEnt(f.leaves, args.blkno, args.index, at)
    requires at < |Flat(f.leaves)| && Flat(f.leaves)[at].incomplete
    requires OwnBlocks(Flat(f.leaves), f.data, f.bs, args.rmtblkno, |args.value|) && args.rmtblkno > 0
    modifies f`leaves, f`disk, f`log
    ensures f.Valid() && f.Clean() && f.log == old(f.log) + [f.Now()]
    ensures Flat(f.leaves) == Flat(old(f.leaves))[at := Completed(Flat(old(f.leaves))[at], args.rmtblkno, |args.value|)]
    ensures f.Now() == old(f.Now()) + multiset{(Flat(old(f.leaves))[at].name,
              ValueOf(Remote(args.rmtblkno, |args.value|), f.data, f.bs))}
  {
    hide GoodLeaves, Flat, Tidy, View, IsEnt, OwnBlocks, RangeOf, DistinctBlks;
    var e := GetEnt(f, args.blkno, args.index, at);
    CompletedView(Flat(f.leaves), at, f.data, f.bs, args.rmtblkno, |args.value|);
    SetEnt(f, args.blkno, args.index, Completed(e, args.rmtblkno, |args.value|), at);
    f.Commit();
  }

  /** Drop a complete entry, before its value goes. */
  method SetFlag(f: Fork, blkno: nat, index: nat, ghost at: nat)
    requires f.Valid() && f.Clean() && IsEnt(f.leaves, blkno, index, at)
    requires at < |Flat(f.leaves)| && !Flat(f.leaves)[at].incomplete
    modifies f`leaves, f`disk, f`log
    ensures f.Valid() && f.Clean() && f.log == old(f.log) + [f.Now()]
    ensures var e := Flat(old(f.leaves))[at];
            && Flat(f.leaves) == Flat(old(f.leaves))[at := Dropped(e)]
            && f.Now() + multiset{(e.name, ValueOf(e.value, f.data, f.bs))} == old(f.Now())
            && (forall i {:trigger Flat(f.leaves)[i]} :: 0 <= i < |Flat(f.leaves)| ==>
                  RangeOf(Flat(f.leaves)[i], f.bs) !! RangeOf(e, f.bs))
    ensures IsEnt(f.leaves, blkno, index, at)
  {
    hide GoodLeaves, Flat, Tidy, View, IsEnt, RangeOf, DistinctBlks;
    var e := GetEnt(f, blkno, index, at);
    DroppedView(Flat(f.leaves), at, f.data, f.bs);
    SetEnt(f, blkno, index, Dropped(e), at);
    f.Commit();
  }

  /** What the code can not know beforehand: whether there is room, how a leaf is balanced, and which blocks it gets. */
  datatype Plan = Plan(fits: bool, newno: nat, count: nat, inleaf: bool, hole: nat, got: nat -> nat, join: bool,
      joinAt: nat, keepLeft: bool)

  /** The new blocks the plan has are not in use. */
  ghost predicate Possible(f: Fork, args: Args, plan: Plan)
    reads f, args`value
  {
    && f.bs > 0 && plan.hole > 0
    && Span(plan.hole, CeilDiv(|args.value|, f.bs)) !! f.data.Keys
    && (forall p :: 0 <= p < |f.leaves| && f.leaves[p].Leaf? ==> f.leaves[p].blkno != plan.newno)
  }

  /** The old entry, if there is one, is at the place where the new one goes, complete and of the same name. */
  ghost predicate OldAt(f: Fork, args: Args, at: nat)
    reads f, args
  {
    && IsEnt(f.leaves, args.blkno, args.index, at) && args.blkno2 == args.blkno && args.index2 == args.index
    && at < |Flat(f.leaves)| && !Flat(f.leaves)[at].incomplete && Flat(f.leaves)[at].name == args.name
    && args.rmtblkno == 0
  }

  /** What the name is seen to have: nothing if there was no entry of it. */
  ghost function SeenOld(f: Fork, args: Args, at: nat): Seen
    requires f.bs > 0 && (args.rename ==> at < |Flat(f.leaves)|)
    reads f, args
  {
    if args.rename then SeenOf(Flat(f.leaves)[at], f.data, f.bs) else multiset{}
  }

  /** The plan says how to split the leaf of the place in two. */
  ghost predicate Splittable(leaves: seq<Tree>, blkno: nat, index: nat, at: nat, plan: Plan) {
    exists b: nat :: Spot(leaves, b, blkno, index, at) && Balance(index, |leaves[b].ents|, plan.count, plan.inleaf)
  }

  lemma SplittableAt(leaves: seq<Tree>, b: nat, blkno: nat, index: nat, at: nat, plan: Plan)
    requires DistinctBlks(leaves) && Spot(leaves, b, blkno, index, at)
    ensures Splittable(leaves, blkno, index, at, plan) <==> Balance(index, |leaves[b].ents|, plan.count, plan.inleaf)
  {
    hide Balance;
    forall c: nat | Spot(leaves, c, blkno, index, at) ensures c == b {
      SpotOnce(leaves, b, c, blkno, index, at);
    }
  }

  /** Put the new entry in, splitting the leaf if it is full, and commit. False if the leaf would have to be split twice. */
  method AddEntry(f: Fork, args: Args, plan: Plan, ghost at: nat) returns (ok: bool)
    requires f.Valid() && f.Clean() && Possible(f, args, plan) && IsAt(f.leaves, args.blkno, args.index, at)
    requires FitsIn(Flat(f.leaves), at, args.hash) && args.hash == HashOf(args.name.bytes) && args.rmtblkno == 0
    requires args.rename ==> OldAt(f, args, at)
    modifies f`leaves, f`disk, f`log, args`blkno, args`index, args`blkno2, args`index2, args`rmtblkno, args`rmtblkcnt
    ensures !ok ==> unchanged(f)
    ensures ok <==> plan.fits || old(Splittable(f.leaves, args.blkno, args.index, at, plan))
    ensures ok ==> |f.leaves| == |old(f.leaves)| + if plan.fits then 0 else 1
    ensures ok ==> f.Valid() && f.Clean() && f.log == old(f.log) + [f.Now()]
    ensures ok ==> Flat(f.leaves) == InsEnt(Flat(old(f.leaves)), at, NewEnt(args.name, args.hash, args.value, args.rename, f.bs))
    ensures ok ==> IsEnt(f.leaves, args.blkno, args.index, at)
    ensures ok && args.rename ==> IsEnt(f.leaves, args.blkno2, args.index2, at + 1)
    ensures ok ==> args.rmtblkno == if IsLocal(|args.name.bytes|, |args.value|, f.bs) then 0 else 1
  {
    hide GoodLeaves, Flat, Tidy, View, FitsIn, HashOf, IsLocal, NewEnt, Hashed, IsEnt, DistinctBlks;
    var b := f.FindLeaf(args.blkno, args.index, at);
    SpotIndex(f.leaves, b, args.blkno, args.index, at);
    ValidEven(f, b);
    if plan.fits {
      LeafAdd(f, args, b, at);
    } else {
      var n := |f.leaves[b].ents|;
      SplittableAt(f.leaves, b, args.blkno, args.index, at, plan);
      if !Balance(args.index, n, plan.count, plan.inleaf) {
        return false;
      }
      if args.rename {
        EntOnce(f.leaves, b, args.blkno, args.index, at);
      }
      SplitAdd(f, args, plan.newno, plan.count, plan.inleaf, b, at);
    }
    f.Commit();
    ok := true;
  }

  lemma SpotIndex(leaves: seq<Tree>, b: nat, blkno: nat, index: nat, at: nat)
    requires Spot(leaves, b, blkno, index, at)
    ensures b < |leaves| && leaves[b].Leaf? && index <= |leaves[b].ents|
  {
  }

  lemma ValidEven(f: Fork, b: nat)
    requires f.Valid()
    ensures f.ValidBut(b)
  {
  }

  /** What was seen until the log's entry cut, and what from then on. */
  ghost predicate Turns(log0: seq<Seen>, log: seq<Seen>, cut: nat, before: Seen, after: Seen) {
    && |log0| <= cut < |log| && log0 <= log
    && (forall i :: |log0| <= i < cut ==> log[i] == before)
    && (forall i :: cut <= i < |log| ==> log[i] == after)
  }

  lemma TurnsMore(log0: seq<Seen>, log1: seq<Seen>, log: seq<Seen>, cut: nat, before: Seen, after: Seen)
    requires Turns(log0, log1, cut, before, after) && log1 <= log && Steady(log, |log1|, after)
    ensures Turns(log0, log, cut, before, after)
  {
    assert forall i :: 0 <= i < |log1| ==> log[i] == log1[i];
  }

  lemma TurnsAt(log0: seq<Seen>, log1: seq<Seen>, before: Seen, after: Seen)
    requires log0 <= log1 && Steady(log1, |log0|, before)
    ensures Turns(log0, log1 + [after], |log1|, before, after)
  {
  }

  /** The new entry shows at once only if there is no old one and its value is in the leaf. */
  lemma NewSeen(ents: seq<Ent>, at: nat, e: Ent, data: Blocks, bs: nat)
    requires bs > 0 && at <= |ents|
    ensures View(InsEnt(ents, at, e), data, bs) == View(ents, data, bs) + SeenOf(e, data, bs)
    ensures |InsEnt(ents, at, e)| == |ents| + 1
    ensures InsEnt(ents, at, e)[at] == e && (at < |ents| ==> InsEnt(ents, at, e)[at + 1] == ents[at])
  {
    ViewIns(ents, at, e, data, bs);
  }

  /** A value has its blocks to itself. */
  lemma FreshBlocks(ents: seq<Ent>, data: Blocks, data': Blocks, bs: nat, blk: nat, len: nat)
    requires bs > 0 && Tidy(ents, data, bs) && Span(blk, CeilDiv(len, bs)) !! data.Keys
    requires data'.Keys == data.Keys + Span(blk, CeilDiv(len, bs))
    ensures OwnBlocks(ents, data', bs, blk, len)
  {
    forall i | 0 <= i < |ents| ensures RangeOf(ents[i], bs) !! Span(blk, CeilDiv(len, bs)) {
      assert RangeOf(ents[i], bs) <= data.Keys;
    }
  }

  /** The value of the old entry is where it was. */
  lemma KeptValue(e: Ent, data: Blocks, data': Blocks, bs: nat)
    requires bs > 0 && Keeps(data, data') && !e.incomplete && RangeOf(e, bs) <= data.Keys
    ensures ValueOf(e.value, data', bs) == ValueOf(e.value, data, bs)
  {
    if e.value.Remote? {
      CatSame(data, data', e.value.blk, CeilDiv(e.value.len, bs));
    }
  }

  /**
   * Write the value of the entry just added, if it has blocks of its own, and then show it: in place of the old one at
   * the place after it, or alone. Up to there the log says what it said, from there on it has the new value.
   */
  method ShowEntry(f: Fork, args: Args, plan: Plan, ghost at: nat) returns (ghost cut: nat)
    requires f.Valid() && f.Clean() && plan.hole > 0 && Span(plan.hole, CeilDiv(|args.value|, f.bs)) !! f.data.Keys
    requires IsEnt(f.leaves, args.blkno, args.index, at)
    requires at < |Flat(f.leaves)| && Flat(f.leaves)[at] == NewEnt(args.name, args.hash, args.value, args.rename, f.bs)
    requires args.rmtblkno == if IsLocal(|args.name.bytes|, |args.value|, f.bs) then 0 else 1
    requires args.rename || args.rmtblkno > 0
    requires args.rename ==>
               && IsEnt(f.leaves, args.blkno2, args.index2, at + 1) && at + 1 < |Flat(f.leaves)|
               && !Flat(f.leaves)[at + 1].incomplete
    requires args.rename ==> Flat(f.leaves)[at + 1].name == args.name
    modifies f`leaves, f`data, f`disk, f`log, args`rmtblkno, args`rmtblkcnt
    ensures f.Valid() && f.Clean()
    ensures f.data.Keys == old(f.data.Keys) + NewRange(args.name, args.value, plan.hole, f.bs)
    ensures var ents, e := Flat(old(f.leaves)), FullEnt(args.name, args.hash, args.value, plan.hole, f.bs);
            Flat(f.leaves) == if args.rename then ents[at := e][at + 1 := Dropped(ents[at + 1])] else ents[at := e]
    ensures Turns(old(f.log), f.log, cut, old(f.Now()), f.Now())
    ensures f.Now() + (if args.rename then SeenOf(Flat(old(f.leaves))[at + 1], old(f.data), f.bs) else multiset{})
            == old(f.Now()) + multiset{(args.name, args.value)}
    ensures args.rename ==>
              && IsEnt(f.leaves, args.blkno2, args.index2, at + 1) && at + 1 < |Flat(f.leaves)|
              && (forall i {:trigger Flat(f.leaves)[i]} :: 0 <= i < |Flat(f.leaves)| ==>
                    RangeOf(Flat(f.leaves)[i], f.bs) !! RangeOf(Flat(old(f.leaves))[at + 1], f.bs))
  {
    hide GoodLeaves, Flat, View, Hashed, DistinctBlks, IsEnt, OwnBlocks, CeilDiv, ValueOf, IsLocal;
    ghost var ents, data, log0, before := Flat(f.leaves), f.data, f.log, f.Now();
    if args.rmtblkno > 0 {
      RmtvalSet(f, args, plan.hole, plan.got);
      FreshBlocks(ents, data, f.data, f.bs, plan.hole, |args.value|);
    } else {
      NoBlocks(ents, data, f.bs, |args.value|);
    }
    ghost var log1 := f.log;
    cut := |log1|;
    NewValue(args.name, args.hash, args.value, args.rename, f.data, f.bs);
    if args.rename {
      OldRange(ents, at + 1, data, f.bs);
      KeptValue(ents[at + 1], data, f.data, f.bs);
      FlipFlags(f, args, at, at + 1);
    } else {
      ClearFlag(f, args, at);
    }
    NewFull(args.name, args.hash, args.value, args.rename, f.bs, args.rmtblkno, plan.hole);
    TurnsAt(log0, log1, before, f.Now());
  }

  /** The new entry when all is done. */
  function FullEnt(name: Name, hash: nat, value: seq<Byte>, hole: nat, bs: nat): Ent {
    Ent(hash, name, false, if IsLocal(|name.bytes|, |value|, bs) then Local(value) else Remote(hole, |value|))
  }

  /** The blocks its value takes. */
  function NewRange(name: Name, value: seq<Byte>, hole: nat, bs: nat): set<nat>
    requires bs > 0
  {
    if IsLocal(|name.bytes|, |value|, bs) then {} else Span(hole, CeilDiv(|value|, bs))
  }

  lemma NewFull(name: Name, hash: nat, value: seq<Byte>, rename: bool, bs: nat, rmtblkno: nat, hole: nat)
    requires bs > 0 && hole > 0 && rmtblkno == if IsLocal(|name.bytes|, |value|, bs) then 0 else hole
    ensures Completed(NewEnt(name, hash, value, rename, bs), rmtblkno, |value|) == FullEnt(name, hash, value, hole, bs)
    ensures NewRange(name, value, hole, bs) == if rmtblkno > 0 then Span(hole, CeilDiv(|value|, bs)) else {}
  {
  }

  lemma NewValue(name: Name, hash: nat, value: seq<Byte>, rename: bool, data: Blocks, bs: nat)
    requires bs > 0
    ensures var e := NewEnt(name, hash, value, rename, bs);
            && e.name == name
            && (IsLocal(|name.bytes|, |value|, bs) ==> e.value.Local? && ValueOf(e.value, data, bs) == value)
            && (rename || !IsLocal(|name.bytes|, |value|, bs) ==> e.incomplete)
  {
  }

  lemma NoBlocks(ents: seq<Ent>, data: Blocks, bs: nat, len: nat)
    requires bs > 0
    ensures OwnBlocks(ents, data, bs, 0, len) && Keeps(data, data)
  {
  }

  lemma OldRange(ents: seq<Ent>, at: nat, data: Blocks, bs: nat)
    requires bs > 0 && Tidy(ents, data, bs) && at < |ents|
    ensures RangeOf(ents[at], bs) <= data.Keys
  {
  }

  /** Remove an incomplete entry, collapse the leaves if that is called for, and commit. Nobody sees a difference. */
  method RemoveEnt(f: Fork, plan: Plan, blkno: nat, index: nat, ghost at: nat)
    requires f.Valid() && f.Clean() && IsEnt(f.leaves, blkno, index, at) && at < |Flat(f.leaves)| && Flat(f.leaves)[at].incomplete
    modifies f`leaves, f`disk, f`log
    ensures f.Valid() && f.Clean() && f.Now() == old(f.Now()) && f.log == old(f.log) + [f.Now()]
    ensures Flat(f.leaves) == DelEnt(Flat(old(f.leaves)), at)
    ensures plan.join ==> |f.leaves| < |old(f.leaves)| || |f.leaves| <= plan.joinAt + 1
  {
    hide GoodLeaves, Flat, Tidy, View, Hashed, DistinctBlks, IsEnt;
    ViewDel(Flat(f.leaves), at, f.data, f.bs);
    LeafRemove(f, blkno, index, at);
    if plan.join && plan.joinAt + 1 < |f.leaves| {
      JoinLeaves(f, plan.joinAt, plan.keepLeft);
    }
    f.Commit();
  }

  /** Take away the old entry's value, then the entry: in a tree it is looked up again, by its being incomplete. */
  method RemoveOld(f: Fork, args: Args, plan: Plan, byPlace: bool, ghost at: nat) returns (ghost gone: nat)
    requires f.Valid() && f.Clean() && IsEnt(f.leaves, args.blkno2, args.index2, at) && at < |Flat(f.leaves)|
    requires Flat(f.leaves)[at].incomplete && Flat(f.leaves)[at].name == args.name && args.hash == HashOf(args.name.bytes)
    requires args.rmtblkno2 > 0 ==>
               forall i {:trigger Flat(f.leaves)[i]} :: 0 <= i < |Flat(f.leaves)| ==>
                 RangeOf(Flat(f.leaves)[i], f.bs) !! Span(args.rmtblkno2, args.rmtblkcnt2)
    modifies f`leaves, f`data, f`disk, f`log
    ensures f.Valid() && f.Clean() && f.Now() == old(f.Now())
    ensures old(f.log) <= f.log && Steady(f.log, |old(f.log)|, f.Now())
    ensures FirstHidden(Flat(old(f.leaves)), args.name, at, byPlace, gone)
    ensures Flat(f.leaves) == DelEnt(Flat(old(f.leaves)), gone)
    ensures f.data.Keys == old(f.data.Keys) - if args.rmtblkno2 > 0 then Span(args.rmtblkno2, args.rmtblkcnt2) else {}
  {
    hide GoodLeaves, Flat, Tidy, View, Hashed, DistinctBlks, IsEnt, HashOf;
    if args.rmtblkno2 > 0 {
      RmtvalRemove(f, args.rmtblkno2, args.rmtblkcnt2, plan.got);
    }
    if byPlace {
      gone := at;
      RemoveEnt(f, plan, args.blkno2, args.index2, at);
    } else {
      var found, blkno, index;
      found, blkno, index, gone := Lookup(f, Key(args.name, true), args.hash);
      MustFind(Flat(f.leaves), Key(args.name, true), args.hash, found, gone, at);
      RemoveEnt(f, plan, blkno, index, gone);
    }
  }

  /** The entry removed: that at the place, or the first incomplete one of the name. */
  ghost predicate FirstHidden(ents: seq<Ent>, n: Name, at: nat, byPlace: bool, gone: nat) {
    && gone <= at < |ents| && Matches(ents[gone], Key(n, true))
    && (byPlace ==> gone == at)
    && (!byPlace ==> NoneBefore(ents, gone, Key(n, true)))
  }

  lemma MustFind(ents: seq<Ent>, k: Key, hash: nat, found: bool, at': nat, at: nat)
    requires Linear(ents, k, hash, found, at') && at < |ents| && Matches(ents[at], k)
    ensures found && at' <= at && Matches(ents[at'], k) && NoneBefore(ents, at', k)
  {
  }

  /** The blocks that go with an entry; no value lies in block 0. */
  ghost function Freed(e: Ent, bs: nat): set<nat>
    requires bs > 0
  {
    if e.value.Remote? && e.value.blk == 0 then {} else RangeOf(e, bs)
  }

  /** The blocks noted for the old value are those it lies in. */
  ghost predicate OldValue(e: Ent, bs: nat, blk: nat, cnt: nat)
    requires bs > 0
  {
    && (blk > 0 ==> RangeOf(e, bs) == Span(blk, cnt))
    && Freed(e, bs) == if blk > 0 then Span(blk, cnt) else {}
  }

  /** The new entry is in its place, complete; of the old one after it, made incomplete, one incomplete entry has gone. */
  ghost predicate SetTo(ents: seq<Ent>, ents': seq<Ent>, at: nat, e: Ent, rename: bool, byPlace: bool, gone: nat) {
    && at <= |ents|
    && if rename then
         && at < |ents|
         && FirstHidden(InsEnt(ents, at, e)[at + 1 := Dropped(ents[at])], e.name, at + 1, byPlace, gone)
         && ents' == DelEnt(InsEnt(ents, at, e)[at + 1 := Dropped(ents[at])], gone)
       else ents' == InsEnt(ents, at, e)
  }

  /** What a set does to the entries and to the blocks of values: those of the old value go, those of the new one come. */
  ghost predicate Stored(ents: seq<Ent>, ents': seq<Ent>, keys: set<nat>, keys': set<nat>, hash: nat, n: Name, value: seq<Byte>,
                         hole: nat, bs: nat, at: nat, rename: bool, byPlace: bool, gone: nat) {
    && bs > 0
    && (rename ==> at < |ents| && ents[at].name == n && !ents[at].incomplete)
    && SetTo(ents, ents', at, FullEnt(n, hash, value, hole, bs), rename, byPlace, gone)
    && keys' == keys - (if rename then Freed(ents[at], bs) else {}) + NewRange(n, value, hole, bs)
  }

  /** The entries with the new one shown, in place of the old one if there is one. */
  ghost function Flipped(ents: seq<Ent>, at: nat, e: Ent, rename: bool): seq<Ent>
    requires at < |ents| && (rename ==> at + 1 < |ents|)
  {
    if rename then ents[at := e][at + 1 := Dropped(ents[at + 1])] else ents[at := e]
  }

  /** The entry put in, shown in place of the old one, and the old one removed. */
  lemma StoredOver(ents: seq<Ent>, mid: seq<Ent>, ents': seq<Ent>, keys: set<nat>, keys': set<nat>, e0: Ent, hash: nat, n: Name,
                   value: seq<Byte>, hole: nat, bs: nat, at: nat, byPlace: bool, gone: nat)
    requires bs > 0 && at < |ents| && ents[at].name == n && !ents[at].incomplete
    requires mid == Flipped(InsEnt(ents, at, e0), at, FullEnt(n, hash, value, hole, bs), true)
    requires FirstHidden(mid, n, at + 1, byPlace, gone) && ents' == DelEnt(mid, gone)
    requires Freed(ents[at], bs) <= keys && NewRange(n, value, hole, bs) !! keys
    requires keys' == keys + NewRange(n, value, hole, bs) - Freed(ents[at], bs)
    ensures Stored(ents, ents', keys, keys', hash, n, value, hole, bs, at, true, byPlace, gone)
  {
    hide FirstHidden, IsLocal;
    var e := FullEnt(n, hash, value, hole, bs);
    assert InsEnt(ents, at, e0)[at := e] == InsEnt(ents, at, e) && InsEnt(ents, at, e0)[at + 1] == ents[at];
  }

  /** The entry put in, complete at once or shown later. */
  lemma StoredNew(ents: seq<Ent>, ents': seq<Ent>, keys: set<nat>, keys': set<nat>, e0: Ent, hash: nat, n: Name,
                  value: seq<Byte>, hole: nat, bs: nat, at: nat, byPlace: bool)
    requires bs > 0 && at <= |ents|
    requires var e := FullEnt(n, hash, value, hole, bs);
             ents' == Flipped(InsEnt(ents, at, e0), at, e, false) || ents' == InsEnt(ents, at, e)
    requires keys' == keys + NewRange(n, value, hole, bs)
    ensures Stored(ents, ents', keys, keys', hash, n, value, hole, bs, at, false, byPlace, 0)
  {
    hide IsLocal;
    var e := FullEnt(n, hash, value, hole, bs);
    assert InsEnt(ents, at, e0)[at := e] == InsEnt(ents, at, e);
  }

  /** An entry that is local and does not replace another is complete from the first. */
  lemma NewAtOnce(n: Name, hash: nat, value: seq<Byte>, hole: nat, bs: nat)
    requires bs > 0 && IsLocal(|n.bytes|, |value|, bs)
    ensures NewEnt(n, hash, value, false, bs) == FullEnt(n, hash, value, hole, bs) && NewRange(n, value, hole, bs) == {}
  {
  }

  lemma RangeFree(n: Name, value: seq<Byte>, hole: nat, bs: nat, keys: set<nat>)
    requires bs > 0 && Span(hole, CeilDiv(|value|, bs)) !! keys
    ensures NewRange(n, value, hole, bs) !! keys
  {
  }

  lemma FreedThere(ents: seq<Ent>, at: nat, data: Blocks, bs: nat)
    requires bs > 0 && Tidy(ents, data, bs) && at < |ents|
    ensures Freed(ents[at], bs) <= data.Keys
  {
  }

  lemma FreedIs(e: Ent, bs: nat, blk: nat, cnt: nat)
    requires bs > 0 && OldValue(e, bs, blk, cnt)
    ensures Freed(e, bs) == if blk > 0 then Span(blk, cnt) else {}
  {
  }

  lemma OldGone(ents: seq<Ent>, e: Ent, bs: nat, blk: nat, cnt: nat)
    requires bs > 0 && OldValue(e, bs, blk, cnt)
    requires forall i {:trigger ents[i]} :: 0 <= i < |ents| ==> RangeOf(ents[i], bs) !! RangeOf(e, bs)
    ensures blk > 0 ==> forall i {:trigger ents[i]} :: 0 <= i < |ents| ==> RangeOf(ents[i], bs) !! Span(blk, cnt)
  {
  }

  lemma FitsHere(ents: seq<Ent>, at: nat, hash: nat)
    requires FitsIn(ents, at, hash)
    ensures at <= |ents|
  {
  }

  lemma TurnsBefore(log0: seq<Seen>, log1: seq<Seen>, log: seq<Seen>, cut: nat, before: Seen, after: Seen)
    requires log1 == log0 + [before] && Turns(log1, log, cut, before, after)
    ensures Turns(log0, log, cut, before, after)
  {
    assert log[|log0|] == log1[|log0|];
  }

  lemma TurnsNow(log0: seq<Seen>, before: Seen, after: Seen)
    ensures Turns(log0, log0 + [after], |log0|, before, after)
  {
  }

  /** How a request ends: done, or refused by its own flags, or beyond what is modelled. */
  datatype Status = Done | Exists | NoAttr | DoubleSplit

  /** Show the entry just added and, if it replaces another, take that away. */
  method FinishEntry(f: Fork, args: Args, plan: Plan, byPlace: bool, ghost at: nat) returns (ghost cut: nat, ghost gone: nat)
    requires f.Valid() && f.Clean() && plan.hole > 0 && Span(plan.hole, CeilDiv(|args.value|, f.bs)) !! f.data.Keys
    requires IsEnt(f.leaves, args.blkno, args.index, at) && args.hash == HashOf(args.name.bytes)
    requires at < |Flat(f.leaves)| && Flat(f.leaves)[at] == NewEnt(args.name, args.hash, args.value, args.rename, f.bs)
    requires args.rmtblkno == if IsLocal(|args.name.bytes|, |args.value|, f.bs) then 0 else 1
    requires args.rename || args.rmtblkno > 0
    requires args.rename ==>
               && IsEnt(f.leaves, args.blkno2, args.index2, at + 1) && at + 1 < |Flat(f.leaves)|
               && !Flat(f.leaves)[at + 1].incomplete
    requires args.rename ==> Flat(f.leaves)[at + 1].name == args.name
    requires args.rename ==> OldValue(Flat(f.leaves)[at + 1], f.bs, args.rmtblkno2, args.rmtblkcnt2)
    modifies f`leaves, f`data, f`disk, f`log, args`rmtblkno, args`rmtblkcnt
    ensures f.Valid() && f.Clean()
    ensures Turns(old(f.log), f.log, cut, old(f.Now()), f.Now())
    ensures f.Now() + (if args.rename then SeenOf(Flat(old(f.leaves))[at + 1], old(f.data), f.bs) else multiset{})
            == old(f.Now()) + multiset{(args.name, args.value)}
    ensures var mid := Flipped(Flat(old(f.leaves)), at, FullEnt(args.name, args.hash, args.value, plan.hole, f.bs), args.rename);
            if args.rename then FirstHidden(mid, args.name, at + 1, byPlace, gone) && Flat(f.leaves) == DelEnt(mid, gone)
            else Flat(f.leaves) == mid && gone == 0
    ensures f.data.Keys == old(f.data.Keys) + NewRange(args.name, args.value, plan.hole, f.bs)
                           - if args.rename then Freed(Flat(old(f.leaves))[at + 1], f.bs) else {}
  {
    hide GoodLeaves, Flat, Tidy, View, Hashed, DistinctBlks, IsEnt, HashOf, IsLocal, Turns, Steady, OldValue,
      FullEnt, NewRange, Freed, FirstHidden, Span, RangeOf;
    gone := 0;
    ghost var log0, before, old1 := f.log, f.Now(), Flat(f.leaves);
    if args.rename {
      FreedIs(old1[at + 1], f.bs, args.rmtblkno2, args.rmtblkcnt2);
    }
    cut := ShowEntry(f, args, plan, at);
    if args.rename {
      ghost var log1 := f.log;
      OldGone(Flat(f.leaves), old1[at + 1], f.bs, args.rmtblkno2, args.rmtblkcnt2);
      gone := RemoveOld(f, args, plan, byPlace, at + 1);
      TurnsMore(log0, log1, f.log, cut, before, f.Now());
    }
  }

  /**
   * The transactions of a set, once it is known where the entry goes and whether there is an old one. What is seen is
   * the old state up to one moment, and from then on the old state with the old value replaced by the new.
   */
  method SetEntry(f: Fork, args: Args, plan: Plan, byPlace: bool, ghost at: nat)
    returns (st: Status, ghost cut: nat, ghost gone: nat)
    requires f.Valid() && f.Clean() && Possible(f, args, plan) && IsAt(f.leaves, args.blkno, args.index, at)
    requires FitsIn(Flat(f.leaves), at, args.hash) && args.hash == HashOf(args.name.bytes) && args.rmtblkno == 0
    requires args.rename ==> OldAt(f, args, at) && at < |Flat(f.leaves)|
    requires args.rename ==> OldValue(Flat(f.leaves)[at], f.bs, args.rmtblkno2, args.rmtblkcnt2)
    modifies f`leaves, f`data, f`disk, f`log
    modifies args`blkno, args`index, args`blkno2, args`index2, args`rmtblkno, args`rmtblkcnt
    ensures st == Done || st == DoubleSplit
    ensures st == DoubleSplit ==> unchanged(f) && !plan.fits
    ensures st == Done ==>
              && f.Valid() && f.Clean()
              && Turns(old(f.log), f.log, cut, old(f.Now()), f.Now())
              && f.Now() + old(SeenOld(f, args, at)) == old(f.Now()) + multiset{(args.name, args.value)}
    ensures st == Done ==>
              Stored(old(Flat(f.leaves)), Flat(f.leaves), old(f.data.Keys), f.data.Keys, args.hash, args.name, args.value,
                  plan.hole, f.bs, at, args.rename, byPlace, gone)
  {
    hide GoodLeaves, Flat, Tidy, View, Hashed, DistinctBlks, IsEnt, HashOf, FitsIn, IsLocal, Turns, Steady, OldValue, Stored,
      FullEnt, NewRange, Freed, FirstHidden, Span, RangeOf, Flipped;
    ghost var ents, log0, before, keys := Flat(f.leaves), f.log, f.Now(), f.data.Keys;
    RangeFree(args.name, args.value, plan.hole, f.bs, keys);
    if args.rename {
      FreedThere(ents, at, f.data, f.bs);
    }
    ghost var e := NewEnt(args.name, args.hash, args.value, args.rename, f.bs);
    FitsHere(ents, at, args.hash);
    NewSeen(ents, at, e, f.data, f.bs);
    NewValue(args.name, args.hash, args.value, args.rename, f.data, f.bs);
    cut, gone := 0, 0;
    var ok := AddEntry(f, args, plan, at);
    if !ok {
      return DoubleSplit, 0, 0;
    }
    st := Done;
    ghost var log1, seen1 := f.log, f.Now();
    assert f.Now() == before + SeenOf(e, f.data, f.bs);
    if args.rename || args.rmtblkno > 0 {
      assert e.incomplete && f.Now() == before;
      ghost var mid := Flipped(Flat(f.leaves), at, FullEnt(args.name, args.hash, args.value, plan.hole, f.bs), args.rename);
      cut, gone := FinishEntry(f, args, plan, byPlace, at);
      TurnsBefore(log0, log1, f.log, cut, before, f.Now());
      if args.rename {
        StoredOver(ents, mid, Flat(f.leaves), keys, f.data.Keys, e, args.hash, args.name, args.value, plan.hole, f.bs, at,
            byPlace, gone);
      } else {
        StoredNew(ents, Flat(f.leaves), keys, f.data.Keys, e, args.hash, args.name, args.value, plan.hole, f.bs, at, byPlace);
      }
    } else {
      NewAtOnce(args.name, args.hash, args.value, plan.hole, f.bs);
      StoredNew(ents, Flat(f.leaves), keys, f.data.Keys, e, args.hash, args.name, args.value, plan.hole, f.bs, at, byPlace);
      cut := |log0|;
      TurnsNow(log0, before, f.Now());
    }
  }

  /**
   * Set an attribute in a leaf- or node-format fork. A crash after any commit, or between the direct writes of a
   * value, shows the name as it was or with all of its new value, and every other name as it was.
   */
  method NodeAddName(f: Fork, args: Args, create: bool, replace: bool, plan: Plan)
      returns (st: Status, ghost old1: Seen, ghost cut: nat, ghost at: nat, ghost gone: nat)
    requires f.Valid() && f.Clean() && Possible(f, args, plan) && args.hash == HashOf(args.name.bytes)
    modifies f`leaves, f`data, f`disk, f`log, args
    ensures st == NoAttr ==> unchanged(f) && replace && !Shown(old(f.Now()), args.name)
    ensures st == Exists ==> unchanged(f) && create && Shown(old(f.Now()), args.name)
    ensures st == DoubleSplit ==> unchanged(f) && !plan.fits
    ensures st == Done ==>
              && f.Valid() && f.Clean()
              && (create ==> !Shown(old(f.Now()), args.name)) && (replace ==> Shown(old(f.Now()), args.name))
              && old1 <= old(f.Now()) && (if Shown(old(f.Now()), args.name) then IsOne(old1, args.name) else old1 == multiset{})
              && f.Now() + old1 == old(f.Now()) + multiset{(args.name, args.value)}
              && Turns(old(f.log), f.log, cut, old(f.Now()), f.Now())
    ensures st == Done ==>
              Stored(old(Flat(f.leaves)), Flat(f.leaves), old(f.data.Keys), f.data.Keys, args.hash, args.name, args.value,
                  plan.hole, f.bs, at, Shown(old(f.Now()), args.name), false, gone)
    ensures args.name == old(args.name) && args.value == old(args.value)
  {
    hide *;
    cut, gone := 0, 0;
    var found;
    found, at, old1 := FindOld(f, args);
    if replace && !found {
      return NoAttr, old1, 0, at, 0;
    }
    if create && found {
      return Exists, old1, 0, at, 0;
    }
    st, cut, gone := SetEntry(f, args, plan, false, at);
  }

  /** Look the name up, and note where it is or goes, and what it has. */
  method FindOld(f: Fork, args: Args) returns (found: bool, ghost at: nat, ghost old1: Seen)
    requires f.Valid() && args.hash == HashOf(args.name.bytes)
    modifies args`blkno, args`index, args`rmtblkno, args`rmtblkcnt, args`rename
    modifies args`blkno2, args`index2, args`rmtblkno2, args`rmtblkcnt2
    ensures found == Shown(f.Now(), args.name) == args.rename
    ensures IsAt(f.leaves, args.blkno, args.index, at) && FitsIn(Flat(f.leaves), at, args.hash) && args.rmtblkno == 0
    ensures args.rename ==> OldAt(f, args, at) && OldValue(Flat(f.leaves)[at], f.bs, args.rmtblkno2, args.rmtblkcnt2)
    ensures args.rename ==> at < |Flat(f.leaves)|
    ensures old1 == SeenOld(f, args, at) && old1 <= f.Now() && (if found then IsOne(old1, args.name) else old1 == multiset{})
  {
    hide Flat, Tidy, View, Hashed, DistinctBlks, IsEnt, HashOf, FitsIn, Linear;
    var blkno, index;
    found, blkno, index, at := Lookup(f, Key(args.name, false), args.hash);
    LookedUp(Flat(f.leaves), args.name, args.hash, found, at, f.data, f.bs);
    args.blkno, args.index, args.rmtblkno, args.rmtblkcnt, args.rename := blkno, index, 0, 0, found;
    args.blkno2, args.index2, args.rmtblkno2, args.rmtblkcnt2 := blkno, index, 0, 0;
    old1 := multiset{};
    if found {
      var e := GetEnt(f, blkno, index, at);
      if e.value.Remote? {
        args.rmtblkno2, args.rmtblkcnt2 := e.value.blk, CeilDiv(e.value.len, f.bs);
      }
      old1 := SeenOf(e, f.data, f.bs);
    }
  }

  /** The name is seen. */
  ghost predicate Shown(seen: Seen, n: Name) {
    exists v: seq<Byte> :: (n, v) in seen
  }

  /** Just one value of the name. */
  ghost predicate IsOne(seen: Seen, n: Name) {
    exists v: seq<Byte> :: seen == multiset{(n, v)}
  }

  lemma ShownBy(ents: seq<Ent>, i: nat, n: Name, data: Blocks, bs: nat)
    requires bs > 0 && i < |ents| && Matches(ents[i], Key(n, false))
    ensures Shown(View(ents, data, bs), n)
  {
    ViewDel(ents, i, data, bs);
    assert (n, ValueOf(ents[i].value, data, bs)) in View(ents, data, bs);
  }

  lemma {:induction false} ShowsOne(ents: seq<Ent>, n: Name, v: seq<Byte>, data: Blocks, bs: nat) returns (i: nat)
    requires bs > 0 && (n, v) in View(ents, data, bs)
    ensures i < |ents| && Matches(ents[i], Key(n, false))
  {
    if (n, v) in SeenOf(ents[0], data, bs) {
      i := 0;
    } else {
      i := ShowsOne(ents[1..], n, v, data, bs);
      i := i + 1;
    }
  }

  /** What a lookup of the complete entry tells. */
  lemma LookedUp(ents: seq<Ent>, n: Name, hash: nat, found: bool, at: nat, data: Blocks, bs: nat)
    requires bs > 0 && Linear(ents, Key(n, false), hash, found, at) && Hashed(ents) && hash == HashOf(n.bytes)
    ensures FitsIn(ents, at, hash) && found == Shown(View(ents, data, bs), n)
    ensures found ==> at < |ents| && !ents[at].incomplete && ents[at].name == n
    ensures found ==> SeenOf(ents[at], data, bs) <= View(ents, data, bs) && IsOne(SeenOf(ents[at], data, bs), n)
  {
    if Shown(View(ents, data, bs), n) {
      var v: seq<Byte> :| (n, v) in View(ents, data, bs);
      var i := ShowsOne(ents, n, v, data, bs);
    }
    if found {
      ShownBy(ents, at, n, data, bs);
      ViewDel(ents, at, data, bs);
      assert SeenOf(ents[at], data, bs) == multiset{(n, ValueOf(ents[at].value, data, bs))};
    }
  }

  /**
   * Set an attribute in a fork of one leaf block and no other: a leaf that is full becomes a tree of one leaf, under a
   * new number, and the name is looked up again.
   */
  method LeafAddName(f: Fork, args: Args, create: bool, replace: bool, plan: Plan, plan2: Plan)
    returns (st: Status, ghost old1: Seen, ghost cut: nat, ghost at: nat, ghost gone: nat)
    requires f.Valid() && f.Clean() && |f.leaves| == 1 && f.data == map[] && args.hash == HashOf(args.name.bytes)
    requires Possible(f, args, plan) && Possible(f, args, plan2) && plan2.newno != plan.newno
    modifies f`leaves, f`data, f`disk, f`log, args
    ensures st == NoAttr ==> unchanged(f) && replace && !Shown(old(f.Now()), args.name)
    ensures st == Exists ==> unchanged(f) && create && Shown(old(f.Now()), args.name)
    ensures st == DoubleSplit ==> !plan.fits && !plan2.fits
    ensures st == Done ==>
              && f.Valid() && f.Clean()
              && (create ==> !Shown(old(f.Now()), args.name)) && (replace ==> Shown(old(f.Now()), args.name))
              && old1 <= old(f.Now()) && (if Shown(old(f.Now()), args.name) then IsOne(old1, args.name) else old1 == multiset{})
              && f.Now() + old1 == old(f.Now()) + multiset{(args.name, args.value)}
              && Turns(old(f.log), f.log, cut, old(f.Now()), f.Now())
    ensures st == Done ==>
              Stored(old(Flat(f.leaves)), Flat(f.leaves), old(f.data.Keys), f.data.Keys, args.hash, args.name, args.value,
                  if plan.fits then plan.hole else plan2.hole, f.bs, at, Shown(old(f.Now()), args.name), plan.fits, gone)
  {
    hide Flat, Tidy, View, Turns, FitsIn, OldAt, OldValue, SeenOld, IsAt, IsOne, Shown, DistinctBlks, GoodLeaves, HashOf;
    cut, gone := 0, 0;
    ghost var log0, before := f.log, f.Now();
    var found;
    found, at, old1 := FindOld(f, args);
    if replace && !found {
      return NoAttr, old1, 0, at, 0;
    }
    if create && found {
      return Exists, old1, 0, at, 0;
    }
    if plan.fits {
      st, cut, gone := SetEntry(f, args, plan, true, at);
    } else {
      Renumber(f, plan.newno);
      ghost var log1 := f.log;
      st, old1, cut, at, gone := NodeAddName(f, args, create, replace, plan2);
      if st == Done {
        TurnsBefore(log0, log1, f.log, cut, before, f.Now());
      }
    }
  }

  /** Move the only leaf to a block of another number, and commit. */
  method Renumber(f: Fork, newno: nat)
    requires f.Valid() && f.Clean() && |f.leaves| == 1
    modifies f`leaves, f`disk, f`log
    ensures f.Valid() && f.Clean() && Flat(f.leaves) == Flat(old(f.leaves)) && |f.leaves| == 1
    ensures f.leaves[0].Leaf? && f.leaves[0].blkno == newno
    ensures f.Now() == old(f.Now()) && f.log == old(f.log) + [old(f.Now())]
  {
    var ents := f.leaves[0].ents;
    FlatLone(f.leaves[0].blkno, ents);
    FlatLone(newno, ents);
    assert f.leaves == [Leaf(f.leaves[0].blkno, ents)];
    f.leaves := [Leaf(newno, ents)];
    f.Commit();
  }

  /** What a remove does to the entries and to the blocks of values: the first complete entry of the name goes, and its blocks. */
  ghost predicate Unstored(ents: seq<Ent>, ents': seq<Ent>, keys: set<nat>, keys': set<nat>, n: Name, bs: nat, at: nat) {
    && bs > 0 && at < |ents| && Matches(ents[at], Key(n, false)) && NoneBefore(ents, at, Key(n, false))
    && ents' == DelEnt(ents, at) && keys' == keys - Freed(ents[at], bs)
  }

  lemma UnstoredIs(ents: seq<Ent>, e: Ent, ents': seq<Ent>, keys: set<nat>, keys': set<nat>, n: Name, bs: nat, at: nat)
    requires bs > 0 && at < |ents| && Matches(ents[at], Key(n, false)) && NoneBefore(ents, at, Key(n, false))
    requires ents' == DelEnt(ents[at := e], at) && keys' == keys - Freed(ents[at], bs)
    ensures Unstored(ents, ents', keys, keys', n, bs, at)
  {
    assert ents[at := e][..at] == ents[..at] && ents[at := e][at + 1..] == ents[at + 1..];
  }

  lemma FirstShown(ents: seq<Ent>, n: Name, hash: nat, found: bool, at: nat)
    requires Linear(ents, Key(n, false), hash, found, at)
    ensures found ==> at < |ents| && Matches(ents[at], Key(n, false)) && NoneBefore(ents, at, Key(n, false))
  {
  }

  /**
   * Remove an attribute. A value with blocks of its own goes first, the entry being made incomplete before that: up to
   * there it is seen as it was, and from then on it is not seen.
   */
  method RemoveName(f: Fork, args: Args, plan: Plan) returns (found: bool, ghost old1: Seen, ghost cut: nat, ghost at: nat)
    requires f.Valid() && f.Clean() && args.hash == HashOf(args.name.bytes)
    modifies f`leaves, f`data, f`disk, f`log
    ensures found == Shown(old(f.Now()), args.name)
    ensures !found ==> unchanged(f)
    ensures found ==>
              && f.Valid() && f.Clean() && old1 <= old(f.Now()) && IsOne(old1, args.name)
              && f.Now() + old1 == old(f.Now())
              && Turns(old(f.log), f.log, cut, old(f.Now()), f.Now())
    ensures found ==>
              Unstored(Flat(old(f.leaves)), Flat(f.leaves), old(f.data.Keys), f.data.Keys, args.name, f.bs, at)
  {
    hide Flat, Tidy, View, Hashed, DistinctBlks, IsEnt, HashOf, FitsIn, Turns, Linear, Unstored;
    old1, cut := multiset{}, |f.log|;
    ghost var log0, before, ents := f.log, f.Now(), Flat(f.leaves);
    ghost var keys := f.data.Keys;
    var blkno, index;
    found, blkno, index, at := Lookup(f, Key(args.name, false), args.hash);
    FirstShown(ents, args.name, args.hash, found, at);
    LookedUp(ents, args.name, args.hash, found, at, f.data, f.bs);
    if !found {
      return;
    }
    var e := GetEnt(f, blkno, index, at);
    old1 := SeenOf(e, f.data, f.bs);
    if e.value.Remote? {
      SetFlag(f, blkno, index, at);
      TurnsNow(log0, before, f.Now());
      ghost var log1 := f.log;
      OldGone(Flat(f.leaves), e, f.bs, e.value.blk, CeilDiv(e.value.len, f.bs));
      if e.value.blk > 0 {
        RmtvalRemove(f, e.value.blk, CeilDiv(e.value.len, f.bs), plan.got);
      }
      ghost var log2 := f.log;
      RemoveEnt(f, plan, blkno, index, at);
      TurnsMore(log0, log1, log2, cut, before, f.Now());
      TurnsMore(log0, log2, f.log, cut, before, f.Now());
      UnstoredIs(ents, Dropped(e), Flat(f.leaves), keys, f.data.Keys, args.name, f.bs, at);
    } else {
      RemoveComplete(f, plan, blkno, index, at);
      TurnsNow(log0, before, f.Now());
      UnstoredIs(ents, e, Flat(f.leaves), keys, f.data.Keys, args.name, f.bs, at);
    }
  }

  /** Remove a complete entry at once. */
  method RemoveComplete(f: Fork, plan: Plan, blkno: nat, index: nat, ghost at: nat)
    requires f.Valid() && f.Clean() && IsEnt(f.leaves, blkno, index, at) && at < |Flat(f.leaves)|
    modifies f`leaves, f`disk, f`log
    ensures f.Valid() && f.Clean() && f.log == old(f.log) + [f.Now()]
    ensures f.Now() + old(SeenOf(Flat(f.leaves)[at], f.data, f.bs)) == old(f.Now())
    ensures Flat(f.leaves) == DelEnt(Flat(old(f.leaves)), at)
    ensures plan.join ==> |f.leaves| < |old(f.leaves)| || |f.leaves| <= plan.joinAt + 1
  {
    hide GoodLeaves, Flat, Tidy, View, Hashed, DistinctBlks, IsEnt;
    ViewDel(Flat(f.leaves), at, f.data, f.bs);
    LeafRemove(f, blkno, index, at);
    if plan.join && plan.joinAt + 1 < |f.leaves| {
      JoinLeaves(f, plan.joinAt, plan.keepLeft);
    }
    f.Commit();
  }

  /** Where the name had one complete entry, so it has after the set, with the new value. */
  lemma OneEntry(before: Seen, after: Seen, old1: Seen, n: Name, vold: seq<Byte>, v: seq<Byte>)
    requires after + old1 == before + multiset{(n, v)} && IsOne(old1, n)
    requires forall w: seq<Byte> :: (n, w) in before ==> w == vold
    requires before[(n, vold)] == 1 && old1 <= before
    ensures after[(n, v)] == 1 && forall w: seq<Byte> :: (n, w) in after ==> w == v
    ensures forall m: Name, w: seq<Byte> :: m != n ==> after[(m, w)] == before[(m, w)]
  {
    var u: seq<Byte> :| old1 == multiset{(n, u)};
    assert (n, u) in old1 && (n, u) in before;
    forall m: Name, w: seq<Byte>
      ensures after[(m, w)] == before[(m, w)] + multiset{(n, v)}[(m, w)] - old1[(m, w)]
    {
      assert (after + old1)[(m, w)] == (before + multiset{(n, v)})[(m, w)];
    }
  }
}
