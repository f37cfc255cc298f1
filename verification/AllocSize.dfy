/** The search of the by-size tree. */
module AllocSize {
  import opened Arith
  import opened Records
  import opened Extents
  import opened FreeLists
  import opened Btrees
  import opened BtreeLookup
  import opened AllocTree
  import opened AllocGroup
  import opened AllocMath
  import opened AllocArgs

  /** The blocks of an extent a request can use: aligned, and no more than it wants. */
  function Usable(f: Rec, maxlen: nat, alignment: nat, minlen: nat): Rec {
    var a := Aligned(f, alignment, minlen);
    Rec(a.start, Least(maxlen, a.count))
  }

  /** From place k on, no extent has more to use than best. */
  ghost predicate BestFrom(recs: seq<Rec>, k: int, maxlen: nat, alignment: nat, minlen: nat, best: nat) {
    forall i :: 0 <= i < |recs| && k <= i ==> Usable(recs[i], maxlen, alignment, minlen).count <= best
  }

  lemma BestMore(recs: seq<Rec>, k: int, maxlen: nat, alignment: nat, minlen: nat, best: nat, best': nat)
    requires BestFrom(recs, k + 1, maxlen, alignment, minlen, best) && best <= best'
    requires 0 <= k < |recs| ==> Usable(recs[k], maxlen, alignment, minlen).count <= best'
    ensures BestFrom(recs, k, maxlen, alignment, minlen, best')
  {
  }

  /** Extents no longer than the best usable one can be passed over. */
  lemma BestBelow(recs: seq<Rec>, k: int, maxlen: nat, alignment: nat, minlen: nat, best: nat)
    requires Sorted(Cnt, recs) && alignment > 0
    requires BestFrom(recs, k + 1, maxlen, alignment, minlen, best)
    requires -1 <= k < |recs| && (k >= 0 ==> recs[k].count <= best)
    ensures BestFrom(recs, 0, maxlen, alignment, minlen, best)
  {
    forall i | 0 <= i <= k ensures Usable(recs[i], maxlen, alignment, minlen).count <= best {
      AlignedBest(recs[i], alignment, minlen);
      assert i < k ==> Before(Cnt, recs[i], recs[k]);
    }
  }

  /** The extent has less to use than f, or as much and comes before it by size. */
  ghost predicate Lesser(q: Rec, f: Rec, maxlen: nat, alignment: nat, minlen: nat) {
    var n, best := Usable(q, maxlen, alignment, minlen).count, Usable(f, maxlen, alignment, minlen).count;
    n < best || (n == best && Before(Cnt, q, f))
  }

  /** From place k on, f is the last extent with the most to use. */
  ghost predicate LastBest(recs: seq<Rec>, k: int, maxlen: nat, alignment: nat, minlen: nat, f: Rec) {
    forall i :: 0 <= i < |recs| && k <= i && recs[i] != f ==> Lesser(recs[i], f, maxlen, alignment, minlen)
  }

  /** One extent to the left, which takes the place of the best only if it has more to use. */
  lemma LastBestMore(recs: seq<Rec>, k: nat, j: nat, maxlen: nat, alignment: nat, minlen: nat, f: Rec, f': Rec)
    requires Sorted(Cnt, recs) && k < j < |recs| && recs[j] == f && LastBest(recs, k + 1, maxlen, alignment, minlen, f)
    requires BestFrom(recs, k + 1, maxlen, alignment, minlen, Usable(f, maxlen, alignment, minlen).count)
    requires var more := Usable(recs[k], maxlen, alignment, minlen).count > Usable(f, maxlen, alignment, minlen).count;
             f' == if more then recs[k] else f
    ensures LastBest(recs, k, maxlen, alignment, minlen, f')
  {
    hide Usable;
    assert Before(Cnt, recs[k], recs[j]);
  }

  /** Extents shorter than what is usable of the best are no better, nor are those before one with all that is wanted. */
  lemma LastBestBelow(recs: seq<Rec>, k: int, maxlen: nat, alignment: nat, minlen: nat, f: Rec)
    requires Sorted(Cnt, recs) && alignment > 0 && -1 <= k < |recs| && LastBest(recs, k + 1, maxlen, alignment, minlen, f)
    requires k >= 0 ==> recs[k].count < Usable(f, maxlen, alignment, minlen).count
                        || (k + 1 < |recs| && recs[k + 1] == f && Usable(f, maxlen, alignment, minlen).count == maxlen)
    ensures LastBest(recs, 0, maxlen, alignment, minlen, f)
  {
    forall i | 0 <= i <= k && recs[i] != f ensures Lesser(recs[i], f, maxlen, alignment, minlen) {
      AlignedBest(recs[i], alignment, minlen);
      assert i < k ==> Before(Cnt, recs[i], recs[k]);
      assert k + 1 < |recs| ==> Before(Cnt, recs[i], recs[k + 1]);
    }
  }

  /**
   * What the search by size settles on: the first extent that has room for all however it lies, and if there is none, the
   * last of those with the most to use.
   */
  ghost predicate Settles(s: set<Rec>, maxlen: nat, alignment: nat, minlen: nat, f: Rec) {
    && f in s
    && if exists q :: q in s && q.count >= maxlen + alignment - 1 then
         && f.count >= maxlen + alignment - 1
         && forall q :: q in s && q.count >= maxlen + alignment - 1 && q != f ==> Before(Cnt, f, q)
       else
         forall q :: q in s && q != f ==> Lesser(q, f, maxlen, alignment, minlen)
  }

  lemma FirstSettles(recs: seq<Rec>, k: nat, maxlen: nat, alignment: nat, minlen: nat)
    requires Sorted(Cnt, recs) && k < |recs| && recs[k].count >= maxlen + alignment - 1
    requires forall i :: 0 <= i < k ==> recs[i].count < maxlen + alignment - 1
    ensures Settles(Elems(recs), maxlen, alignment, minlen, recs[k])
  {
    forall q | q in Elems(recs) && q.count >= maxlen + alignment - 1 && q != recs[k] ensures Before(Cnt, recs[k], q) {
      var i :| 0 <= i < |recs| && recs[i] == q;
    }
  }

  lemma LastSettles(recs: seq<Rec>, f: Rec, maxlen: nat, alignment: nat, minlen: nat)
    requires f in recs && forall q :: q in Elems(recs) ==> q.count < maxlen + alignment - 1
    requires LastBest(recs, 0, maxlen, alignment, minlen, f)
    ensures Settles(Elems(recs), maxlen, alignment, minlen, f)
  {
    hide Lesser;
    forall q | q in Elems(recs) && q != f ensures Lesser(q, f, maxlen, alignment, minlen) {
      var i :| 0 <= i < |recs| && recs[i] == q;
    }
  }

  /** The cursor is d places off the end of the records. */
  ghost predicate AtEnd(t: Btree, cur: Cursor, d: int)
    reads t`lv, cur
  {
    && 0 < |t.lv| == |cur.pos| == |cur.ptrs| && cur.pos[0] < |t.lv[0]|
    && cur.ptrs[0] >= 1 && cur.At(t.lv, 0) == |t.Recs()| + d
  }

  /** From the cursor on, no extent has more to use than best. */
  ghost predicate BestAt(t: Btree, cur: Cursor, maxlen: nat, alignment: nat, minlen: nat, best: nat)
    reads t`lv, cur
  {
    && 0 < |t.lv| == |cur.pos| == |cur.ptrs| && cur.pos[0] < |t.lv[0]|
    && BestFrom(t.Recs(), cur.At(t.lv, 0), maxlen, alignment, minlen, best)
  }

  /** The last extent has none after it. */
  lemma LastIsBest(t: Btree, cur: Cursor, f: Rec, maxlen: nat, alignment: nat, minlen: nat)
    requires AtRec(t, cur, f) && AtEnd(t, cur, -1)
    ensures BestAt(t, cur, maxlen, alignment, minlen, Usable(f, maxlen, alignment, minlen).count)
  {
  }

  lemma LastBestAt(recs: seq<Rec>, j: nat, maxlen: nat, alignment: nat, minlen: nat)
    requires j + 1 == |recs|
    ensures LastBest(recs, j, maxlen, alignment, minlen, recs[j])
  {
  }

  /** Of the extents from place k on, f, at place j, is the last of those with the most to use. */
  ghost predicate Leads(recs: seq<Rec>, k: int, j: int, maxlen: nat, alignment: nat, minlen: nat, f: Rec) {
    && 0 <= j < |recs| && k <= j && recs[j] == f
    && BestFrom(recs, k, maxlen, alignment, minlen, Usable(f, maxlen, alignment, minlen).count)
    && LastBest(recs, k, maxlen, alignment, minlen, f)
  }

  lemma LeadsMore(recs: seq<Rec>, k: nat, j: int, maxlen: nat, alignment: nat, minlen: nat, f: Rec)
    requires Sorted(Cnt, recs) && Leads(recs, k + 1, j, maxlen, alignment, minlen, f) && k < |recs|
    ensures if Usable(recs[k], maxlen, alignment, minlen).count > Usable(f, maxlen, alignment, minlen).count
            then Leads(recs, k, k, maxlen, alignment, minlen, recs[k])
            else Leads(recs, k, j, maxlen, alignment, minlen, f)
  {
    hide Usable, LastBest, BestFrom;
    var best, u := Usable(f, maxlen, alignment, minlen).count, Usable(recs[k], maxlen, alignment, minlen).count;
    BestMore(recs, k, maxlen, alignment, minlen, best, if u > best then u else best);
    LastBestMore(recs, k, j, maxlen, alignment, minlen, f, if u > best then recs[k] else f);
  }

  lemma LeadsBelow(recs: seq<Rec>, k: int, j: int, maxlen: nat, alignment: nat, minlen: nat, f: Rec)
    requires Sorted(Cnt, recs) && alignment > 0 && -1 <= k < |recs| && Leads(recs, k + 1, j, maxlen, alignment, minlen, f)
    requires k >= 0 ==> recs[k].count < Usable(f, maxlen, alignment, minlen).count
                        || (j == k + 1 && Usable(f, maxlen, alignment, minlen).count == maxlen)
    ensures Leads(recs, 0, j, maxlen, alignment, minlen, f) && f in Elems(recs)
  {
    hide Usable;
    LastBestBelow(recs, k, maxlen, alignment, minlen, f);
    if k >= 0 && j != k + 1 {
      BestBelow(recs, k, maxlen, alignment, minlen, Usable(f, maxlen, alignment, minlen).count);
    } else if k >= 0 {
      BestFull(recs, maxlen, alignment, minlen);
      if recs[k].count < Usable(f, maxlen, alignment, minlen).count {
        BestBelow(recs, k, maxlen, alignment, minlen, Usable(f, maxlen, alignment, minlen).count);
      }
    }
  }

  lemma BestFull(recs: seq<Rec>, maxlen: nat, alignment: nat, minlen: nat)
    ensures BestFrom(recs, 0, maxlen, alignment, minlen, maxlen)
  {
  }

  /** The cursor's extent or, to its left, the last one with more to use: the best there is. */
  method SearchLeft(t: Btree, cur: Cursor, maxlen: nat, alignment: nat, minlen: nat, f0: Rec)
    returns (f: Rec, r: Rec, ghost j: int)
    requires Good(t) && t.kind == Cnt && AtRec(t, cur, f0) && alignment > 0
    requires BestAt(t, cur, maxlen, alignment, minlen, Usable(f0, maxlen, alignment, minlen).count) && AtEnd(t, cur, -1)
    modifies cur
    ensures AtRec(t, cur, f) && r == Usable(f, maxlen, alignment, minlen) && f in Held(t)
    ensures Leads(t.Recs(), 0, j, maxlen, alignment, minlen, f)
  {
    hide Sorted, Tied, LastCount, Usable, LastBest, BestFrom, Leads;
    f := f0;
    r := Usable(f, maxlen, alignment, minlen);
    j := cur.At(t.lv, 0);
    LeadsLast(t.Recs(), j, maxlen, alignment, minlen, f);
    while true
      invariant AtLeaf(t, cur) && -1 <= cur.At(t.lv, 0) < |t.Recs()|
      invariant r == Usable(f, maxlen, alignment, minlen)
      invariant Leads(t.Recs(), cur.At(t.lv, 0), j, maxlen, alignment, minlen, f)
      invariant cur.ptrs[0] >= 1
      decreases cur.At(t.lv, 0) + 1
    {
      ghost var k := cur.At(t.lv, 0);
      var i := PrevRec(t, cur);
      if !i {
        LeadsBelow(t.Recs(), -1, j, maxlen, alignment, minlen, f);
        break;
      }
      var g, stat := GetRec(t, cur);
      if g.count < r.count {
        LeadsBelow(t.Recs(), k - 1, j, maxlen, alignment, minlen, f);
        break;
      }
      var u := Usable(g, maxlen, alignment, minlen);
      LeadsMore(t.Recs(), k - 1, j, maxlen, alignment, minlen, f);
      if u.count > r.count {
        f, r, j := g, u, k - 1;
        if u.count == maxlen {
          LeadsBelow(t.Recs(), k - 2, j, maxlen, alignment, minlen, f);
          break;
        }
      }
    }
    Seek(t, cur, f);
  }

  lemma LeadsLast(recs: seq<Rec>, j: int, maxlen: nat, alignment: nat, minlen: nat, f: Rec)
    requires 0 <= j == |recs| - 1 && recs[j] == f
    requires BestFrom(recs, j, maxlen, alignment, minlen, Usable(f, maxlen, alignment, minlen).count)
    ensures Leads(recs, j, j, maxlen, alignment, minlen, f)
  {
    LastBestAt(recs, j, maxlen, alignment, minlen);
  }

  /** The freelist may serve a request when the trees are empty. */
  predicate FromFreelist(args: Args, flcount: nat)
    reads args
  {
    args.minlen == 1 && args.alignment == 1 && !args.isfl && flcount > args.minleft
  }

  /** The request got a block off the freelist, there being no free extent. */
  twostate predicate Served(ag: Ag, args: Args)
    reads ag.cnt, ag.bno, ag.cnt.fl, ag.cnt.fl.slots, ag.bno.fl, ag.bno.fl.slots, ag.fl, args
  {
    && ag.Sound() && ag.Extents() == {}
    && unchanged(ag.cnt) && unchanged(ag.bno)
    && old(ag.fl.queue) != [] && old(FromFreelist(args, ag.fl.flcount))
    && args.minlen == 1 && args.alignment == 1 && !args.isfl
    && args.wasfromfl && args.len == 1 && args.agbno != NULLAGBLOCK
    && args.agbno == old(ag.fl.queue)[0] && ag.fl.queue == old(ag.fl.queue)[1..] && ag.fl.btreeblks == old(ag.fl.btreeblks)
    && args.agbno in old(Reserve(ag.cnt, ag.bno)) && Reserve(ag.cnt, ag.bno) == old(Reserve(ag.cnt, ag.bno)) - {args.agbno}
  }

  /** With no free extent left, try the freelist. */
  method TryFreelist(ag: Ag, args: Args) returns (served: bool)
    requires ag.Sound() && ag.Extents() == {}
    modifies args`agbno, args`len, args`wasfromfl, ag.fl
    ensures served == old(FromFreelist(args, ag.fl.flcount))
    ensures if served then Served(ag, args) else unchanged(args) && unchanged(ag.fl)
  {
    hide Pair, Placed;
    served := false;
    FreelistInside(ag);
    if args.minlen == 1 && args.alignment == 1 && !args.isfl && ag.fl.flcount > args.minleft {
      var bno := GetFree(ag);
      if bno != NULLAGBLOCK {
        args.len, args.agbno, args.wasfromfl := 1, bno, true;
        served := true;
      }
    }
  }

  lemma FreelistInside(ag: Ag)
    requires ag.Sound()
    ensures ag.fl.flcount == |ag.fl.queue|
    ensures forall b :: b in ag.fl.queue ==> b < NULLAGBLOCK
  {
    FreelistFacts(ag.bno);
    forall b | b in ag.fl.queue ensures b < NULLAGBLOCK {
      assert b in Free(ag.Extents()) + Reserve(ag.cnt, ag.bno);
    }
  }

  /** Step back from the end of the by-size records to the last and longest. */
  method LastRec(t: Btree, cur: Cursor) returns (i: bool, f: Rec)
    requires Good(t) && t.kind == Cnt && AtLeaf(t, cur) && AtEnd(t, cur, 0)
    modifies cur
    ensures i == (t.Recs() != []) == (Held(t) != {})
    ensures i ==> AtRec(t, cur, f) && AtEnd(t, cur, -1) && forall q :: q in Held(t) ==> q.count <= f.count
    ensures !i ==> f == Rec(0, 0)
  {
    i := PrevRec(t, cur);
    f := Rec(0, 0);
    if i {
      var stat;
      f, stat := GetRec(t, cur);
      LastIsLongest(t.Recs());
      assert f in Held(t);
    }
  }

  /**
   * With no extent large enough, the last one before the cursor, which is the longest; or a block off the freelist if
   * there is none at all. f.count is 0 if there is none of minlen; stat is false if the freelist served.
   */
  method VextentSmall(ag: Ag, args: Args, cur: Cursor) returns (stat: bool, f: Rec)
    requires ag.Sound() && AtLeaf(ag.cnt, cur) && AtEnd(ag.cnt, cur, 0)
    requires args.minlen > 0
    modifies args`agbno, args`len, args`wasfromfl, ag.fl, cur
    ensures stat == !old(ag.cnt.Recs() == [] && FromFreelist(args, ag.fl.flcount))
    ensures !stat ==> Served(ag, args)
    ensures stat ==> unchanged(ag.fl) && unchanged(args`len) && unchanged(args`wasfromfl)
    ensures stat && f.count == 0 ==> args.agbno == NULLAGBLOCK && forall q :: q in Held(ag.cnt) ==> q.count < args.minlen
    ensures stat && f.count > 0 ==> unchanged(args) && f.count >= args.minlen
                                    && AtRec(ag.cnt, cur, f) && AtEnd(ag.cnt, cur, -1)
  {
    hide AtRec, AtEnd, Good, Placed, FromFreelist, AtLeaf;
    var i;
    i, f := LastRec(ag.cnt, cur);
    if !i {
      var served := TryFreelist(ag, args);
      if served {
        return false, f;
      }
    }
    if f.count < args.minlen {
      args.agbno := NULLAGBLOCK;
      f := Rec(f.start, 0);
    }
    stat := true;
  }

  /** No extent has room for len blocks at an aligned place. */
  ghost predicate NoRoom(s: set<Rec>, alignment: nat, len: nat)
    requires alignment > 0
  {
    forall f: Rec, b: nat {:trigger FitsAt(f, alignment, b, len)} :: f in s ==> !FitsAt(f, alignment, b, len)
  }

  lemma BestIsBest(recs: seq<Rec>, maxlen: nat, alignment: nat, minlen: nat, best: nat, n: nat)
    requires alignment > 0 && BestFrom(recs, 0, maxlen, alignment, minlen, best) && best < n <= maxlen
    ensures NoRoom(Elems(recs), alignment, n)
  {
    forall f: Rec, b: nat | f in Elems(recs) ensures !FitsAt(f, alignment, b, n) {
      AlignedBest(f, alignment, minlen);
    }
  }

  lemma ShortNoRoom(s: set<Rec>, alignment: nat, minlen: nat)
    requires alignment > 0 && forall q :: q in s ==> q.count < minlen
    ensures NoRoom(s, alignment, minlen)
  {
  }

  /** Set the cursor to the first extent of at least so many blocks, or past the last extent. */
  method LookupLong(t: Btree, cur: Cursor, want: nat) returns (i: bool, f: Rec)
    requires Good(t) && t.kind == Cnt && cur.Fits() && cur.nlevels == t.nlevels
    modifies cur
    ensures AtLeaf(t, cur)
    ensures i ==> AtRec(t, cur, f) && f.count >= want && forall k :: 0 <= k < cur.At(t.lv, 0) ==> t.Recs()[k].count < want
    ensures !i ==> AtEnd(t, cur, 0) && forall q :: q in Held(t) ==> q.count < want
  {
    cur.rec := Rec(0, want);
    i := Lookup(t, cur, GE);
    f := Rec(0, 0);
    if i {
      var stat;
      f, stat := GetRec(t, cur);
    }
  }

  /** An extent of maxlen + alignment - 1 blocks has maxlen aligned ones. */
  lemma LongIsBest(f: Rec, maxlen: nat, alignment: nat, minlen: nat)
    requires alignment > 0 && minlen <= maxlen && f.count >= maxlen + alignment - 1
    ensures Usable(f, maxlen, alignment, minlen).count == maxlen
  {
    AlignedBest(f, alignment, minlen);
  }

  /** The search by size settles on f, and nothing has more to use. */
  ghost predicate Picks(t: Btree, f: Rec, maxlen: nat, alignment: nat, minlen: nat)
    reads t`lv
  {
    && |t.lv| > 0 && Settles(Held(t), maxlen, alignment, minlen, f)
    && BestFrom(t.Recs(), 0, maxlen, alignment, minlen, Usable(f, maxlen, alignment, minlen).count)
  }

  lemma PicksFirst(t: Btree, cur: Cursor, f: Rec, maxlen: nat, alignment: nat, minlen: nat)
    requires Good(t) && t.kind == Cnt && AtRec(t, cur, f) && alignment > 0 && minlen <= maxlen
    requires f.count >= maxlen + alignment - 1
    requires forall k :: 0 <= k < cur.At(t.lv, 0) ==> t.Recs()[k].count < maxlen + alignment - 1
    ensures Picks(t, f, maxlen, alignment, minlen) && Usable(f, maxlen, alignment, minlen).count == maxlen
  {
    hide Usable, Btree.Valid;
    LongIsBest(f, maxlen, alignment, minlen);
    FirstSettles(t.Recs(), cur.At(t.lv, 0), maxlen, alignment, minlen);
    BestFull(t.Recs(), maxlen, alignment, minlen);
  }

  lemma PicksLast(t: Btree, cur: Cursor, f: Rec, maxlen: nat, alignment: nat, minlen: nat)
    requires Good(t) && t.kind == Cnt && AtRec(t, cur, f) && AtEnd(t, cur, -1) && alignment > 0
    requires Usable(f, maxlen, alignment, minlen).count == maxlen
    requires forall q :: q in Held(t) ==> q.count < maxlen + alignment - 1
    ensures Picks(t, f, maxlen, alignment, minlen)
  {
    hide Usable, Btree.Valid;
    var recs := t.Recs();
    LastBestAt(recs, |recs| - 1, maxlen, alignment, minlen);
    LastBestBelow(recs, |recs| - 2, maxlen, alignment, minlen, f);
    LastSettles(recs, f, maxlen, alignment, minlen);
    BestFull(recs, maxlen, alignment, minlen);
  }

  lemma PicksLeader(t: Btree, f: Rec, maxlen: nat, alignment: nat, minlen: nat, j: int)
    requires |t.lv| > 0 && Leads(t.Recs(), 0, j, maxlen, alignment, minlen, f)
    requires forall q :: q in Held(t) ==> q.count < maxlen + alignment - 1
    ensures Picks(t, f, maxlen, alignment, minlen)
  {
    hide Usable;
    LastSettles(t.Recs(), f, maxlen, alignment, minlen);
  }

  lemma PicksMost(t: Btree, f: Rec, maxlen: nat, alignment: nat, minlen: nat, n: nat)
    requires Picks(t, f, maxlen, alignment, minlen) && alignment > 0 && Usable(f, maxlen, alignment, minlen).count < n <= maxlen
    ensures NoRoom(Held(t), alignment, n)
  {
    BestIsBest(t.Recs(), maxlen, alignment, minlen, Usable(f, maxlen, alignment, minlen).count, n);
  }

  lemma UsableWhole(f: Rec, maxlen: nat, alignment: nat, minlen: nat)
    ensures Usable(f, maxlen, alignment, minlen).count <= maxlen
  {
  }

  /** The extent to allocate from, and the part of it to use: the best there is. f.count is 0 if there is none. */
  method PickBySize(ag: Ag, args: Args, cur: Cursor) returns (stat: bool, f: Rec, r: Rec)
    requires ag.Sound() && cur.Fits() && cur.nlevels == ag.cnt.nlevels && args.Proper()
    modifies args`agbno, args`len, args`wasfromfl, ag.fl, cur
    ensures stat == !old(ag.cnt.Recs() == [] && FromFreelist(args, ag.fl.flcount))
    ensures !stat ==> Served(ag, args)
    ensures stat ==> unchanged(ag.fl)
    ensures stat && f.count == 0 ==> args.agbno == NULLAGBLOCK && NoRoom(Held(ag.cnt), args.alignment, args.minlen)
    ensures stat && f.count > 0 ==> AtRec(ag.cnt, cur, f) && r == Usable(f, args.maxlen, args.alignment, args.minlen)
                                    && Picks(ag.cnt, f, args.maxlen, args.alignment, args.minlen)
  {
    hide AtRec, NoRoom, Good, Usable, AtLeaf, Leads, Picks, Held;
    r := Rec(0, 0);
    var i;
    i, f := LookupLong(ag.cnt, cur, args.maxlen + args.alignment - 1);
    if !i {
      stat, f := VextentSmall(ag, args, cur);
      if !stat || f.count == 0 {
        if stat {
          ShortNoRoom(Held(ag.cnt), args.alignment, args.minlen);
        }
        return;
      }
      LastIsBest(ag.cnt, cur, f, args.maxlen, args.alignment, args.minlen);
    } else {
      PicksFirst(ag.cnt, cur, f, args.maxlen, args.alignment, args.minlen);
      stat := true;
    }
    r := Usable(f, args.maxlen, args.alignment, args.minlen);
    UsableWhole(f, args.maxlen, args.alignment, args.minlen);
    if r.count < args.maxlen {
      ghost var j;
      f, r, j := SearchLeft(ag.cnt, cur, args.maxlen, args.alignment, args.minlen, f);
      PicksLeader(ag.cnt, f, args.maxlen, args.alignment, args.minlen, j);
    } else if !i {
      PicksLast(ag.cnt, cur, f, args.maxlen, args.alignment, args.minlen);
    }
  }
}
