/** Allocating near a block. */
module AllocNear {
  import opened Arith
  import opened Records
  import opened Extents
  import opened Levels
  import opened FreeLists
  import opened Btrees
  import opened BtreeLookup
  import opened BtreeShift
  import opened AllocTree
  import opened AllocGroup
  import opened AllocFixup
  import opened AllocMath
  import opened AllocArgs
  import opened AllocSize
  import opened Alloc

  /** What of a request a search looks at. */
  datatype Want = Want(bno: nat, minlen: nat, maxlen: nat, alignment: nat) {
    predicate Proper() { 0 < minlen <= maxlen && alignment > 0 }
  }

  function WantOf(args: Args): Want
    reads args`agbno, args`minlen, args`maxlen, args`alignment
  {
    Want(args.agbno, args.minlen, args.maxlen, args.alignment)
  }

  /** The aligned length of an extent. */
  function Len(w: Want, f: Rec): nat {
    Aligned(f, w.alignment, w.minlen).count
  }

  /** n blocks from b on are a part of f that answers the request. */
  ghost predicate Answers(w: Want, f: Rec, b: nat, n: nat)
    requires w.Proper()
  {
    w.minlen <= n <= w.maxlen && FitsAt(f, w.alignment, b, n)
  }

  /** The length a request gets of an extent with so many aligned blocks. */
  function Gets(w: Want, mod: nat, prod: nat, count: nat): nat
    requires mod < prod
  {
    LenFixed(Least(count, w.maxlen), w.minlen, w.maxlen, mod, prod)
  }

  /** An extent gives the request no more than n blocks, and not as many any nearer than at distance diff. */
  ghost predicate NoMatch(w: Want, mod: nat, prod: nat, n: nat, diff: nat, e: Rec)
    requires w.Proper() && mod < prod
  {
    Len(w, e) >= w.minlen ==>
      && Gets(w, mod, prod, Len(w, e)) <= n
      && forall b: nat :: Gets(w, mod, prod, Len(w, e)) == n && FitsAt(e, w.alignment, b, n) ==> diff <= Dist(b, w.bno)
  }

  /** No place for n blocks in the extent is nearer than b. */
  ghost predicate Nearest(w: Want, f: Rec, b: nat, n: nat)
    requires w.Proper()
  {
    forall c: nat :: FitsAt(f, w.alignment, c, n) ==> Dist(b, w.bno) <= Dist(c, w.bno)
  }

  /**
   * The blocks are part of some extent: as many as the request gets of it, and as minleft allows, and no place there
   * for what it gets is nearer. Nothing is said of more than there is to be left.
   */
  ghost predicate NearIn(s: set<Rec>, w: Want, a: Ask, have: int, r: Rec) {
    a.minleft <= have ==>
      && a.mod < a.prod && w.Proper()
      && exists f: Rec, n: nat :: f in s && PartOf(r, f) && Suits(w, a, f, n) && r.count == Least(n, have - a.minleft)
           && Nearest(w, f, r.start, n)
  }

  /** The extent has enough, and the request gets n blocks of it. */
  ghost predicate Suits(w: Want, a: Ask, f: Rec, n: nat) {
    Len(w, f) >= w.minlen && a.mod < a.prod && n == Gets(w, a.mod, a.prod, Len(w, f))
  }

  lemma IsNear(s: set<Rec>, w: Want, a: Ask, have: int, f: Rec, n: nat, b: nat, len: nat)
    requires w.Proper() && f in s && PartOf(Rec(b, len), f) && Suits(w, a, f, n)
    requires a.minleft <= have ==> len == Least(n, have - a.minleft)
    requires Nearest(w, f, b, n) || (len <= n && Nearest(w, f, b, len))
    ensures NearIn(s, w, a, have, Rec(b, len))
  {
    hide PartOf, Dist, Multiple, Gets;
    assert forall c: nat :: FitsAt(f, w.alignment, c, n) && len <= n ==> FitsAt(f, w.alignment, c, len);
  }

  /** All extents of a tree lie below the block number that stands for none. */
  ghost predicate Low(t: Btree)
    reads t`lv
  {
    forall q :: q in Held(t) ==> q.start + q.count <= NULLAGBLOCK
  }

  /** The best start for n blocks in an extent, and its distance; none is at no distance. */
  method ComputeDiff(w: Want, n: nat, f: Rec) returns (diff: nat, b: nat)
    requires w.Proper() && w.minlen <= n <= w.maxlen && n <= Len(w, f) && w.minlen <= Len(w, f)
    requires f.start + f.count <= NULLAGBLOCK
    ensures b != NULLAGBLOCK && Answers(w, f, b, n) && diff == Dist(b, w.bno)
    ensures b == BestStart(w.bno, n, w.alignment, f.start, f.count)
    ensures Nearest(w, f, b, n)
  {
    AlignedBest(f, w.alignment, w.minlen);
    assert Aligned(f, w.alignment, n) == Aligned(f, w.alignment, w.minlen);
    BestStartNearest(w.bno, n, w.alignment, f.start, f.count);
    b := BestStart(w.bno, n, w.alignment, f.start, f.count);
    diff := Dist(b, w.bno);
  }

  /** The length wanted of an extent with enough. */
  method FixedLen(args: Args, count: nat) returns (n: nat)
    requires args.Proper() && count >= args.minlen
    modifies args`len
    ensures args.minlen <= n <= args.maxlen && n <= count && args.len == n == Gets(WantOf(args), args.mod, args.prod, count)
  {
    args.len := Least(count, args.maxlen);
    args.FixLen();
    n := args.len;
    LenFixedRange(Least(count, args.maxlen), args.minlen, args.maxlen, args.mod, args.prod);
  }

  /** Whether the leaf at the cursor is the last. */
  method IsLastBlock(t: Btree, cur: Cursor) returns (last: bool)
    requires AtLeaf(t, cur)
    ensures last == (cur.pos[0] + 1 == |t.lv[0]|)
  {
    assert AtBlk(t.lv, cur.bufs, cur.pos, 0);
    var block := t.ReadBlock(cur.bufs[0], 0, cur.pos[0]);
    last := block.right == NULLAGBLOCK;
  }

  /** The cursor is at an entry of the last leaf. */
  ghost predicate InLast(t: Btree, cur: Cursor)
    reads t`store, t`root, t`nlevels, t`lv, t.fl, t.fl.slots, cur
  {
    AtLeaf(t, cur) && cur.pos[0] + 1 == |t.lv[0]| && 1 <= cur.ptrs[0] <= |t.lv[0][cur.pos[0]].ents|
  }

  /** On to the next entry of the last leaf. */
  method StepLast(t: Btree, cur: Cursor) returns (more: bool)
    requires InLast(t, cur)
    modifies cur
    ensures AtLeaf(t, cur) && cur.pos[0] == old(cur.pos[0]) && cur.ptrs[0] == old(cur.ptrs[0]) + 1
    ensures more == (cur.ptrs[0] <= |t.lv[0][cur.pos[0]].ents|)
  {
    hide Flat, Off;
    LinksChild(t.lv, 0);
    more := Increment(t, cur, 0);
  }

  /** Set the cursor to another entry of its leaf. */
  method SetEntryNo(t: Btree, cur: Cursor, ptr: nat)
    requires AtLeaf(t, cur) && 1 <= ptr <= |t.lv[0][cur.pos[0]].ents|
    modifies cur`ptrs
    ensures AtLeaf(t, cur) && cur.ptrs[0] == ptr
  {
    hide Flat, Off;
    PathSetPtr(t.lv, cur.bufs, cur.ptrs, cur.pos, 0, ptr);
    cur.ptrs := cur.ptrs[0 := ptr];
  }

  /** The record at the cursor is an extent of the tree. */
  method GetExtent(t: Btree, cur: Cursor) returns (g: Rec)
    requires AtLeaf(t, cur) && 1 <= cur.ptrs[0] <= |t.lv[0][cur.pos[0]].ents|
    ensures AtRec(t, cur, g) && g in Held(t) && g == t.lv[0][cur.pos[0]].ents[cur.ptrs[0] - 1].key
  {
    var stat;
    g, stat := GetRec(t, cur);
    FlatIndex(t.lv[0], cur.pos[0], cur.ptrs[0] - 1);
  }

  /** The first n entries of a leaf are extents of less than min blocks. */
  ghost predicate ShortTo(ents: seq<Entry>, n: int, min: nat) {
    forall i :: 0 <= i < |ents| && i < n ==> ents[i].key.count < min
  }

  /** From the start of the last leaf, the first extent of at least minlen blocks. */
  method SkipShort(t: Btree, cur: Cursor, minlen: nat) returns (found: bool)
    requires InLast(t, cur)
    modifies cur
    ensures if found then InLast(t, cur) else AtLeaf(t, cur)
    ensures cur.pos[0] == old(cur.pos[0])
    ensures var ents := t.lv[0][old(cur.pos[0])].ents;
            && ShortTo(ents, if found then cur.ptrs[0] - 1 else |ents|, minlen)
            && (found ==> ents[cur.ptrs[0] - 1].key.count >= minlen)
  {
    hide Flat, Off;
    SetEntryNo(t, cur, 1);
    ghost var c := cur.pos[0];
    while true
      invariant InLast(t, cur) && cur.pos[0] == c
      invariant ShortTo(t.lv[0][c].ents, cur.ptrs[0] - 1, minlen)
      decreases |t.lv[0][cur.pos[0]].ents| - cur.ptrs[0]
    {
      var g := GetExtent(t, cur);
      if g.count >= minlen {
        return true;
      }
      var more := StepLast(t, cur);
      if !more {
        return false;
      }
    }
  }

  /** The entries of the cursor's leaf. */
  ghost function LeafEnts(t: Btree, cur: Cursor): seq<Entry>
    reads t`lv, cur
  {
    if 0 < |t.lv| && 0 < |cur.pos| && cur.pos[0] < |t.lv[0]| then t.lv[0][cur.pos[0]].ents else []
  }

  /** No entry of a leaf from lo to hi is a better match. */
  ghost predicate NoneMatches(w: Want, mod: nat, prod: nat, n: nat, diff: nat, ents: seq<Entry>, lo: int, hi: int) {
    w.Proper() && mod < prod && forall i :: 0 <= i < |ents| && lo <= i < hi ==> NoMatch(w, mod, prod, n, diff, ents[i].key)
  }

  lemma NoneYet(w: Want, mod: nat, prod: nat, ents: seq<Entry>, lo: int)
    requires w.Proper() && mod < prod
    ensures NoneMatches(w, mod, prod, 0, 0, ents, lo, lo)
  {
  }

  /** So far as entries were examined, a better match takes the place of the best. */
  lemma MatchesOn(w: Want, mod: nat, prod: nat, n: nat, diff: nat, ents: seq<Entry>, lo: int, hi: int, n': nat, diff': nat)
    requires w.Proper() && mod < prod && NoneMatches(w, mod, prod, n, diff, ents, lo, hi) && 0 <= hi < |ents|
    requires n < n' || (n == n' && diff' <= diff)
    requires NoMatch(w, mod, prod, n', diff', ents[hi].key)
    ensures NoneMatches(w, mod, prod, n', diff', ents, lo, hi + 1)
  {
    hide Len, Gets, FitsAt, Dist;
    forall i | 0 <= i < |ents| && lo <= i < hi ensures NoMatch(w, mod, prod, n', diff', ents[i].key) {
      assert NoMatch(w, mod, prod, n, diff, ents[i].key);
    }
  }

  /** Nothing is a better match than all blocks wanted at the block wanted. */
  lemma PerfectMatch(w: Want, mod: nat, prod: nat, n: nat, diff: nat, ents: seq<Entry>, lo: int, hi: int)
    requires w.Proper() && mod < prod && NoneMatches(w, mod, prod, n, diff, ents, lo, hi) && w.maxlen <= n && diff == 0
    ensures NoneMatches(w, mod, prod, n, diff, ents, lo, |ents|)
  {
    hide Len, FitsAt;
    forall i | 0 <= i < |ents| && lo <= i ensures NoMatch(w, mod, prod, n, diff, ents[i].key) {
      LenFixedRange(Least(Len(w, ents[i].key), w.maxlen), w.minlen, w.maxlen, mod, prod);
    }
  }

  /** With nothing found, no entry has enough. */
  lemma MatchesNone(w: Want, mod: nat, prod: nat, diff: nat, ents: seq<Entry>, lo: int)
    requires w.Proper() && mod < prod && NoneMatches(w, mod, prod, 0, diff, ents, lo, |ents|)
    ensures forall i :: 0 <= i < |ents| && lo <= i ==> Len(w, ents[i].key) < w.minlen
  {
    hide Len, FitsAt;
    forall i | 0 <= i < |ents| && lo <= i ensures Len(w, ents[i].key) < w.minlen {
      assert NoMatch(w, mod, prod, 0, diff, ents[i].key);
      LenFixedRange(Least(Len(w, ents[i].key), w.maxlen), w.minlen, w.maxlen, mod, prod);
    }
  }

  /** Some entry of a leaf has enough. */
  ghost predicate Enough(w: Want, ents: seq<Entry>) {
    exists e :: e in ents && Len(w, e.key) >= w.minlen
  }

  lemma EnoughAt(w: Want, a: Ask, ents: seq<Entry>, i: int, n: nat)
    requires 0 <= i < |ents| && Suits(w, a, ents[i].key, n)
    ensures Enough(w, ents)
  {
    hide Len;
    assert ents[i] in ents;
  }

  lemma NearestAll(w: Want, mod: nat, prod: nat, g: Rec, b: nat, n: nat)
    requires w.Proper() && mod < prod && Nearest(w, g, b, n) && Len(w, g) >= w.minlen && n == Gets(w, mod, prod, Len(w, g))
    ensures forall n': nat, diff: nat :: n < n' || (n == n' && diff <= Dist(b, w.bno)) ==> NoMatch(w, mod, prod, n', diff, g)
  {
  }

  /**
   * Examine the entries of the last leaf from the cursor on, and set it to the best: none of them gives the request
   * more blocks, and none as many any nearer. Or no entry has enough.
   */
  method ScanLast(t: Btree, args: Args, cur: Cursor) returns (blen: nat, bnew: nat, best: Rec)
    requires InLast(t, cur) && Low(t) && args.Proper()
    modifies cur, args`len
    ensures AtLeaf(t, cur)
    ensures blen > 0 ==> AtRec(t, cur, best) && Answers(WantOf(args), best, bnew, blen)
    ensures blen > 0 ==> Suits(WantOf(args), args.Asked(), best, blen) && Nearest(WantOf(args), best, bnew, blen)
    ensures blen > 0 ==> Enough(WantOf(args), t.lv[0][old(cur.pos[0])].ents)
    ensures var w, ents, from := WantOf(args), t.lv[0][old(cur.pos[0])].ents, old(cur.ptrs[0]) - 1;
            if blen > 0 then NoneMatches(w, args.mod, args.prod, blen, Dist(bnew, w.bno), ents, from, |ents|)
            else forall i :: 0 <= i < |ents| && from <= i ==> Len(w, ents[i].key) < w.minlen
  {
    hide Flat, Off, Answers, Held, AtRec, Btree.Core, NoneMatches, Gets, Len, Dist, Nearest, Enough;
    var w := WantOf(args);
    ghost var c, ents, from := cur.pos[0], t.lv[0][cur.pos[0]].ents, cur.ptrs[0] - 1;
    NoneYet(w, args.mod, args.prod, ents, from);
    var j := true;
    var bdiff, besti := 0, 0;
    blen, bnew, best := 0, 0, Rec(0, 0);
    while j && (blen < args.maxlen || bdiff > 0)
      invariant AtLeaf(t, cur) && cur.pos[0] == c && 1 <= cur.ptrs[0]
      invariant j ==> InLast(t, cur)
      invariant !j ==> cur.ptrs[0] == |ents| + 1
      invariant WantOf(args) == w && args.Proper()
      invariant blen > 0 ==>
                  && 1 <= besti <= |ents| && ents[besti - 1].key == best && Answers(w, best, bnew, blen)
                  && bdiff == Dist(bnew, w.bno) && Suits(w, args.Asked(), best, blen) && Nearest(w, best, bnew, blen)
      invariant NoneMatches(w, args.mod, args.prod, blen, bdiff, ents, from, cur.ptrs[0] - 1)
      decreases |ents| + 1 - cur.ptrs[0], j
    {
      var g := GetExtent(t, cur);
      ghost var n0, diff0, p := blen, bdiff, cur.ptrs[0] - 1;
      if Len(w, g) >= args.minlen {
        var n := FixedLen(args, Len(w, g));
        if n >= blen {
          var diff, b := ComputeDiff(w, n, g);
          NearestAll(w, args.mod, args.prod, g, b, n);
          if b != NULLAGBLOCK && (n > blen || diff < bdiff) {
            bdiff, bnew, blen, besti, best := diff, b, n, cur.ptrs[0], g;
          }
        }
      }
      j := StepLast(t, cur);
      MatchesOn(w, args.mod, args.prod, n0, diff0, ents, from, p, blen, bdiff);
    }
    if blen > 0 {
      if j {
        PerfectMatch(w, args.mod, args.prod, blen, bdiff, ents, from, cur.ptrs[0] - 1);
      }
      EnoughAt(w, args.Asked(), ents, besti - 1, blen);
      SetEntryNo(t, cur, besti);
      best := GetExtent(t, cur);
    } else {
      MatchesNone(w, args.mod, args.prod, bdiff, ents, from);
    }
  }

  /** The cursor is at record k. */
  ghost predicate AtIdx(t: Btree, cur: Cursor, k: int)
    reads t`store, t`root, t`nlevels, t`lv, t.fl, t.fl.slots, cur
  {
    && AtLeaf(t, cur) && 1 <= cur.ptrs[0] <= |t.lv[0][cur.pos[0]].ents|
    && 0 <= k == cur.At(t.lv, 0) < |t.Recs()|
  }

  /** A cursor of one side: at record k, or none past the end of that side. */
  ghost predicate Side(t: Btree, cur: Cursor?, k: int, end: int)
    reads t`store, t`root, t`nlevels, t`lv, t.fl, t.fl.slots, cur
  {
    if cur == null then k == end else AtIdx(t, cur, k)
  }

  /** No extent between two places has enough. */
  ghost predicate Passed(w: Want, recs: seq<Rec>, lo: int, hi: int) {
    forall i :: 0 <= i < |recs| && lo < i < hi ==> Len(w, recs[i]) < w.minlen
  }

  method StepLeft(t: Btree, cur: Cursor, ghost k: int) returns (i: bool)
    requires AtIdx(t, cur, k)
    modifies cur
    ensures i == (k > 0) && (i ==> AtIdx(t, cur, k - 1))
  {
    hide Flat, Off;
    i := PrevRec(t, cur);
  }

  method StepRight(t: Btree, cur: Cursor, ghost k: int) returns (i: bool)
    requires AtIdx(t, cur, k)
    modifies cur
    ensures i == (k + 1 < |t.Recs()|) && (i ==> AtIdx(t, cur, k + 1))
  {
    hide Flat, Off;
    i := NextRec(t, cur);
  }

  method Look(t: Btree, cur: Cursor, ghost k: int) returns (f: Rec)
    requires |t.lv| > 0 && AtIdx(t, cur, k)
    ensures 0 <= k < |t.Recs()| && f == t.Recs()[k] && f in Held(t) && AtRec(t, cur, f)
  {
    hide Flat, Off;
    var stat;
    f, stat := GetRec(t, cur);
  }

  /** Extents up to place k start no later than the target, all others later. */
  ghost predicate Parts(recs: seq<Rec>, bno: nat, k: int) {
    && -1 <= k < |recs|
    && forall i :: 0 <= i < |recs| ==> (recs[i].start <= bno <==> i <= k)
  }

  lemma PartsAt(recs: seq<Rec>, r: Rec, k: int, stat: bool)
    requires Sorted(Bno, recs) && Found(Bno, LE, recs, r, k, stat)
    ensures Parts(recs, r.start, k)
  {
  }

  /** Cursors at the last extent that starts no later than the target, and at the one after it. */
  method StartSides(t: Btree, w: Want) returns (lcur: Cursor?, gcur: Cursor?, ghost k: int)
    requires Good(t) && t.nlevels > 0 && t.kind == Bno
    ensures |t.lv| > 0 && -1 <= k < |t.Recs()| && Parts(t.Recs(), w.bno, k)
    ensures Side(t, lcur, k, -1) && Side(t, gcur, k + 1, |t.Recs()|)
    ensures (lcur != null ==> fresh(lcur)) && (gcur != null ==> fresh(gcur)) && (lcur != null ==> lcur != gcur)
  {
    hide Flat, Off, Sorted, Tied;
    lcur := new Cursor(t);
    lcur.rec := Rec(w.bno, w.maxlen);
    var i := Lookup(t, lcur, LE);
    k := lcur.At(t.lv, 0);
    PartsAt(t.Recs(), Rec(w.bno, w.maxlen), k, i);
    AtBounds(t, lcur);
    if !i {
      gcur := lcur;
      lcur := null;
    } else {
      gcur := new Cursor.Dup(lcur);
    }
    i := NextRec(t, gcur);
    if !i {
      gcur := null;
    }
  }

  /** Go left and right until an extent with enough turns up, or both sides are at an end. */
  method SearchBoth(t: Btree, w: Want, lcur0: Cursor?, gcur0: Cursor?, ghost k: int)
    returns (lcur: Cursor?, gcur: Cursor?, left: bool, f: Rec, g: Rec, ghost lo: int, ghost hi: int)
    requires |t.lv| > 0 && -1 <= k < |t.Recs()| && Side(t, lcur0, k, -1) && Side(t, gcur0, k + 1, |t.Recs()|)
    requires lcur0 != null ==> lcur0 != gcur0
    modifies lcur0, gcur0
    ensures lcur == null || lcur == lcur0
    ensures gcur == null || gcur == gcur0
    ensures Side(t, lcur, lo, -1) && Side(t, gcur, hi, |t.Recs()|)
    ensures -1 <= lo <= k < hi <= |t.Recs()| && Passed(w, t.Recs(), lo, hi)
    ensures if left then 0 <= lo && t.Recs()[lo] == f else gcur != null ==> hi < |t.Recs()| && t.Recs()[hi] == g
    ensures lcur == null && gcur == null ==> Passed(w, t.Recs(), -1, |t.Recs()|)
    ensures left ==> lcur != null && f in Held(t) && AtRec(t, lcur, f) && Len(w, f) >= w.minlen
    ensures !left && (lcur != null || gcur != null) ==>
              gcur != null && g in Held(t) && AtRec(t, gcur, g) && Len(w, g) >= w.minlen
  {
    hide Len, AtRec, Held, AtIdx, Flat, Off;
    lcur, gcur, left, f, g := lcur0, gcur0, false, Rec(0, 0), Rec(0, 0);
    lo, hi := k, k + 1;
    while lcur != null || gcur != null
      invariant lcur == null || lcur == lcur0
      invariant gcur == null || gcur == gcur0
      invariant -1 <= lo <= k < hi <= |t.Recs()| && Side(t, lcur, lo, -1) && Side(t, gcur, hi, |t.Recs()|)
      invariant Passed(w, t.Recs(), lo, hi) && !left
      decreases lo + 1 + |t.Recs()| - hi
    {
      if lcur != null {
        f := Look(t, lcur, lo);
        if Len(w, f) >= w.minlen {
          left := true;
          break;
        }
        var i := StepLeft(t, lcur, lo);
        lo := lo - 1;
        if !i {
          lcur := null;
        }
      }
      if gcur != null {
        g := Look(t, gcur, hi);
        if Len(w, g) >= w.minlen {
          break;
        }
        var i := StepRight(t, gcur, hi);
        hi := hi + 1;
        if !i {
          gcur := null;
        }
      }
    }
  }

  /** Whether the far side, at distance diff, rules out an extent that starts at start on the right, or on the left. */
  predicate ClearlyLeft(w: Want, diff: nat, start: nat) { start >= (w.bno + diff) % U32 }

  predicate ClearlyRight(w: Want, diff: nat, start: nat) { start <= (w.bno + U32 - diff % U32) % U32 }

  /** How far the best start is for what the request gets of an extent with enough. */
  function Diff(w: Want, a: Ask, f: Rec): nat {
    if w.Proper() && a.mod < a.prod && w.minlen <= Len(w, f) && Gets(w, a.mod, a.prod, Len(w, f)) <= f.count then
      Dist(BestStart(w.bno, Gets(w, a.mod, a.prod, Len(w, f)), w.alignment, f.start, f.count), w.bno)
    else 0
  }

  /** From place hi on, extent k is the first with enough. */
  ghost predicate Ahead(w: Want, recs: seq<Rec>, hi: int, k: int) {
    0 <= hi <= k < |recs| && Len(w, recs[k]) >= w.minlen && Passed(w, recs, hi - 1, k)
  }

  /** From place lo to the left, extent k is the first with enough. */
  ghost predicate Behind(w: Want, recs: seq<Rec>, lo: int, k: int) {
    0 <= k <= lo < |recs| && Len(w, recs[k]) >= w.minlen && Passed(w, recs, k, lo + 1)
  }

  /** No start in the first extent with enough on the right is nearer than diff, if the numbers do not wrap round. */
  ghost predicate NotRight(w: Want, a: Ask, recs: seq<Rec>, hi: int, diff: nat) {
    forall k :: Ahead(w, recs, hi, k) ==> diff <= Diff(w, a, recs[k]) || w.bno + diff >= U32
  }

  /** Some extent to the left, from place lo to k, starts so far away that the search ends there. */
  ghost predicate CutOff(w: Want, recs: seq<Rec>, lo: int, k: int, diff: nat) {
    exists x :: 0 <= k <= x <= lo < |recs| && ClearlyRight(w, diff, Aligned(recs[x], w.alignment, w.minlen).start)
  }

  /** No start in the first extent with enough on the left is nearer than diff, if the search gets there. */
  ghost predicate NotLeft(w: Want, a: Ask, recs: seq<Rec>, lo: int, diff: nat) {
    forall k :: Behind(w, recs, lo, k) ==> diff <= Diff(w, a, recs[k]) || CutOff(w, recs, lo, k, diff)
  }

  lemma AlignedStart(f: Rec, g: Rec, alignment: nat, minlen: nat, b: nat, n: nat)
    requires alignment > 0 && f.start <= g.start && FitsAt(g, alignment, b, n)
    ensures Aligned(f, alignment, minlen).start <= b
  {
    if alignment > 1 {
      RoundUpLeast(f.start, alignment);
    }
  }

  /** What the search to the right passes over, or ends at, rules out all that is beyond. */
  lemma RightOut(w: Want, a: Ask, recs: seq<Rec>, hi: int, k: int, diff: nat)
    requires w.Proper() && a.mod < a.prod && a.minlen == w.minlen && Sorted(Bno, recs) && 0 <= hi <= k < |recs|
    requires Passed(w, recs, hi - 1, k) && forall q :: q in recs ==> q.start + q.count <= NULLAGBLOCK
    requires ClearlyLeft(w, diff, Aligned(recs[k], w.alignment, w.minlen).start)
    ensures NotRight(w, a, recs, hi, diff)
  {
    forall j | Ahead(w, recs, hi, j) && w.bno + diff < U32 ensures diff <= Diff(w, a, recs[j]) {
      assert j >= k;
      assert j > k ==> Before(Bno, recs[k], recs[j]);
      DiffIs(w, a, recs[j]);
      var n := Gets(w, a.mod, a.prod, Len(w, recs[j]));
      var b := BestStart(w.bno, n, w.alignment, recs[j].start, recs[j].count);
      AlignedStart(recs[k], recs[j], w.alignment, w.minlen, b, n);
    }
  }

  lemma DiffIs(w: Want, a: Ask, f: Rec)
    requires w.Proper() && a.mod < a.prod && Len(w, f) >= w.minlen && f.start + f.count <= NULLAGBLOCK
    ensures var n := Gets(w, a.mod, a.prod, Len(w, f));
            && w.minlen <= n <= w.maxlen && n <= f.count
            && FitsAt(f, w.alignment, BestStart(w.bno, n, w.alignment, f.start, f.count), n)
            && Diff(w, a, f) == Dist(BestStart(w.bno, n, w.alignment, f.start, f.count), w.bno)
  {
    var n := Gets(w, a.mod, a.prod, Len(w, f));
    LenFixedRange(Least(Len(w, f), w.maxlen), w.minlen, w.maxlen, a.mod, a.prod);
    AlignedBest(f, w.alignment, w.minlen);
    assert Aligned(f, w.alignment, n) == Aligned(f, w.alignment, w.minlen);
    BestStartNearest(w.bno, n, w.alignment, f.start, f.count);
  }

  /** The first extent with enough decides. */
  lemma RightIs(w: Want, a: Ask, recs: seq<Rec>, hi: int, k: int, diff: nat)
    requires 0 <= hi <= k <= |recs| && Passed(w, recs, hi - 1, k)
    requires k < |recs| ==> Len(w, recs[k]) >= w.minlen && diff <= Diff(w, a, recs[k])
    ensures NotRight(w, a, recs, hi, diff)
  {
    hide Len, Diff;
  }

  lemma LeftIs(w: Want, a: Ask, recs: seq<Rec>, lo: int, k: int, diff: nat)
    requires -1 <= k <= lo < |recs| && Passed(w, recs, k, lo + 1)
    requires k >= 0 ==> Len(w, recs[k]) >= w.minlen && diff <= Diff(w, a, recs[k])
    ensures NotLeft(w, a, recs, lo, diff)
  {
    hide Len, Diff;
  }

  lemma LeftOut(w: Want, a: Ask, recs: seq<Rec>, lo: int, k: int, diff: nat)
    requires 0 <= k <= lo < |recs| && Passed(w, recs, k, lo + 1)
    requires ClearlyRight(w, diff, Aligned(recs[k], w.alignment, w.minlen).start)
    ensures NotLeft(w, a, recs, lo, diff)
  {
    hide Diff, ClearlyRight, Aligned;
    forall j | Behind(w, recs, lo, j) ensures CutOff(w, recs, lo, j, diff) {
      assert 0 <= j <= k;
    }
  }

  /** The left side has enough at distance diff: is there a better extent on the right before that is out of the question? */
  method LookRight(t: Btree, args: Args, gcur: Cursor, diff: nat, ghost hi: int) returns (right: bool, g: Rec, ghost k: int)
    requires |t.lv| > 0 && AtIdx(t, gcur, hi) && args.Proper() && Low(t) && Sorted(Bno, t.Recs())
    modifies gcur, args`len
    ensures right ==> g in Held(t) && AtRec(t, gcur, g) && Len(WantOf(args), g) >= args.minlen
    ensures right ==> Ahead(WantOf(args), t.Recs(), hi, k) && t.Recs()[k] == g && Diff(WantOf(args), args.Asked(), g) < diff
    ensures !right ==> NotRight(WantOf(args), args.Asked(), t.Recs(), hi, diff)
  {
    hide Len, AtRec, Held, AtIdx, Answers, Diff, NotRight, Sorted, Aligned, Flat, Off, Gets, ClearlyLeft;
    var w := WantOf(args);
    k := hi;
    AtPlace(t, gcur, hi);
    while true
      invariant AtIdx(t, gcur, k) && WantOf(args) == w && args.Proper() && 0 <= hi <= k
      invariant Passed(w, t.Recs(), hi - 1, k)
      decreases |t.Recs()| - k
    {
      g := Look(t, gcur, k);
      if ClearlyLeft(w, diff, Aligned(g, w.alignment, w.minlen).start) {
        LowRecs(t);
        RightOut(w, args.Asked(), t.Recs(), hi, k, diff);
        return false, g, k;
      }
      if Len(w, g) >= w.minlen {
        var gdiff := DiffOf(args, g);
        if gdiff >= diff {
          RightIs(w, args.Asked(), t.Recs(), hi, k, diff);
        }
        return gdiff < diff, g, k;
      }
      var i := StepRight(t, gcur, k);
      if !i {
        RightIs(w, args.Asked(), t.Recs(), hi, k + 1, diff);
        return false, g, k;
      }
      k := k + 1;
    }
  }

  lemma LowRecs(t: Btree)
    requires |t.lv| > 0 && Low(t)
    ensures forall q :: q in t.Recs() ==> q.start + q.count <= NULLAGBLOCK
  {
    assert forall q :: q in t.Recs() ==> q in Held(t);
  }

  /** The distance of the best start in an extent with enough. */
  method DiffOf(args: Args, f: Rec) returns (diff: nat)
    requires args.Proper() && Len(WantOf(args), f) >= args.minlen && f.start + f.count <= NULLAGBLOCK
    modifies args`len
    ensures diff == Diff(WantOf(args), args.Asked(), f)
  {
    hide Len, Gets, BestStart;
    var w := WantOf(args);
    LenInside(w, f);
    var n := FixedLen(args, Len(w, f));
    var b;
    diff, b := ComputeDiff(w, n, f);
  }

  lemma NotCutOff(w: Want, recs: seq<Rec>, lo: int, k: int, diff: nat)
    requires 0 <= k <= lo < |recs| && !CutOff(w, recs, lo, k + 1, diff)
    requires !ClearlyRight(w, diff, Aligned(recs[k], w.alignment, w.minlen).start)
    ensures !CutOff(w, recs, lo, k, diff)
  {
    hide ClearlyRight, Aligned;
  }

  lemma NotCutYet(w: Want, recs: seq<Rec>, lo: int, diff: nat)
    ensures !CutOff(w, recs, lo, lo + 1, diff)
  {
  }

  /** The mirror of LookRight, but that an extent which starts too far away ends the search even if it reaches near. */
  method LookLeft(t: Btree, args: Args, lcur: Cursor, diff: nat, ghost lo: int) returns (left: bool, f: Rec, ghost k: int)
    requires |t.lv| > 0 && AtIdx(t, lcur, lo) && args.Proper() && Low(t)
    modifies lcur, args`len
    ensures left ==> f in Held(t) && AtRec(t, lcur, f) && Len(WantOf(args), f) >= args.minlen
    ensures left ==> Behind(WantOf(args), t.Recs(), lo, k) && t.Recs()[k] == f && Diff(WantOf(args), args.Asked(), f) < diff
    ensures left ==> !CutOff(WantOf(args), t.Recs(), lo, k, diff)
    ensures !left ==> NotLeft(WantOf(args), args.Asked(), t.Recs(), lo, diff)
  {
    hide Len, AtRec, Held, AtIdx, Answers, Diff, NotLeft, Aligned, Flat, Off, Gets, ClearlyRight, CutOff;
    var w := WantOf(args);
    NotCutYet(w, t.Recs(), lo, diff);
    k := lo;
    AtPlace(t, lcur, lo);
    while true
      invariant AtIdx(t, lcur, k) && WantOf(args) == w && args.Proper() && 0 <= k <= lo < |t.Recs()|
      invariant Passed(w, t.Recs(), k, lo + 1) && !CutOff(w, t.Recs(), lo, k + 1, diff)
      decreases k
    {
      f := Look(t, lcur, k);
      if ClearlyRight(w, diff, Aligned(f, w.alignment, w.minlen).start) {
        LeftOut(w, args.Asked(), t.Recs(), lo, k, diff);
        return false, f, k;
      }
      NotCutOff(w, t.Recs(), lo, k, diff);
      if Len(w, f) >= w.minlen {
        var fdiff := DiffOf(args, f);
        if fdiff >= diff {
          LeftIs(w, args.Asked(), t.Recs(), lo, k, diff);
        }
        return fdiff < diff, f, k;
      }
      var i := StepLeft(t, lcur, k);
      if !i {
        LeftIs(w, args.Asked(), t.Recs(), lo, k - 1, diff);
        return false, f, k;
      }
      k := k - 1;
    }
  }

  lemma AtPlace(t: Btree, cur: Cursor, k: int)
    requires |t.lv| > 0 && AtIdx(t, cur, k)
    ensures 0 <= k < |t.Recs()|
  {
    hide Flat, Off, AtLeaf;
  }

  lemma LowTrees(ag: Ag)
    requires ag.Valid()
    ensures Low(ag.cnt) && Low(ag.bno) && Good(ag.bno) && Good(ag.cnt) && ag.bno.nlevels > 0 && ag.cnt.nlevels > 0
    ensures |ag.bno.lv| > 0 && |ag.cnt.lv| > 0 && Held(ag.bno) == Held(ag.cnt) == ag.Extents()
  {
    hide Sorted, Tied;
    forall q | q in ag.Extents() ensures q.start + q.count <= NULLAGBLOCK {
      InGroup(ag.Extents(), Reserve(ag.cnt, ag.bno), ag.length, q);
    }
  }

  lemma FitsPart(w: Want, f: Rec, b: nat, n: nat, m: nat)
    requires w.Proper() && Answers(w, f, b, n) && 0 < m && b + m <= f.start + f.count
    ensures PartOf(Rec(b, m), f) && Multiple(b, w.alignment) && n <= f.count
  {
  }

  /** Keep minleft; false if it can not be kept. A length that wrapped round is more than any extent has. */
  method KeepMinleft(ag: Ag, args: Args, n: nat) returns (go: bool)
    requires args.Proper() && args.Small() && args.minlen <= n <= args.maxlen
    requires n <= ag.freeblks + ag.fl.flcount < 0x8000_0000
    modifies args`len, args`agbno
    ensures !go ==> args.agbno == NULLAGBLOCK && args.Lacks(ag.freeblks + ag.fl.flcount)
    ensures go ==> args.Leaves(ag.freeblks + ag.fl.flcount) || args.len > ag.freeblks + ag.fl.flcount
    ensures go ==> args.agbno == old(args.agbno) && args.minlen <= args.len
                   && (args.len <= n || args.len > ag.freeblks + ag.fl.flcount)
    ensures go && args.minleft <= ag.freeblks + ag.fl.flcount ==>
              args.len == Least(n, ag.freeblks + ag.fl.flcount - args.minleft)
  {
    args.len := n;
    go := args.FixMinleft(ag.freeblks, ag.fl.flcount);
  }

  /** The request was answered with blocks of the group, or refused for want of minleft. */
  twostate predicate Answered(ag: Ag, args: Args)
    reads ag, ag.cnt, ag.bno, ag.cnt.fl, ag.cnt.fl.slots, ag.bno.fl, ag.bno.fl.slots, ag.fl, ag.fl.slots, args
  {
    if args.agbno == NULLAGBLOCK then Refused(ag, args)
    else
      && args.alignment > 0 && args.minlen <= args.len <= args.maxlen && Multiple(args.agbno, args.alignment)
      && Took(ag, old(ag.Extents()), old(Reserve(ag.cnt, ag.bno)), old(ag.fl.btreeblks + |ag.fl.queue|),
          old(|ag.fl.queue|), Rec(args.agbno, args.len))
  }

  /** The cursor is at the first extent of its leaf with as many blocks as wanted. */
  ghost predicate FirstLong(t: Btree, cur: Cursor, want: nat)
    reads t`lv, cur
  {
    && 0 < |t.lv| && 0 < |cur.pos| == |cur.ptrs| && cur.pos[0] < |t.lv[0]|
    && 1 <= cur.ptrs[0] <= |t.lv[0][cur.pos[0]].ents|
    && ShortTo(t.lv[0][cur.pos[0]].ents, cur.ptrs[0] - 1, want)
    && t.lv[0][cur.pos[0]].ents[cur.ptrs[0] - 1].key.count >= want
  }

  lemma LongLeaf(t: Btree, cur: Cursor, f: Rec, want: nat)
    requires AtLeaf(t, cur) && AtRec(t, cur, f) && f.count >= want
    requires forall k :: 0 <= k < cur.At(t.lv, 0) ==> t.Recs()[k].count < want
    ensures FirstLong(t, cur, want)
  {
    hide Flat, Off, Tied;
    var b, ents := cur.pos[0], t.lv[0][cur.pos[0]].ents;
    forall i | 0 <= i < |ents| ensures Off(t.lv[0], b) + i < |t.Recs()| && t.Recs()[Off(t.lv[0], b) + i] == ents[i].key {
      FlatIndex(t.lv[0], b, i);
    }
    forall i | 0 <= i < cur.ptrs[0] - 1 ensures ents[i].key.count < want {
      assert t.Recs()[Off(t.lv[0], b) + i].count < want;
    }
  }

  /** Extents too short for the request, before the ones examined, are no better match. */
  lemma MatchesShort(w: Want, mod: nat, prod: nat, n: nat, diff: nat, ents: seq<Entry>, from: int)
    requires w.Proper() && mod < prod && NoneMatches(w, mod, prod, n, diff, ents, from, |ents|) && ShortTo(ents, from, w.minlen)
    ensures NoneMatches(w, mod, prod, n, diff, ents, 0, |ents|)
  {
    hide FitsAt, Gets;
    forall i | 0 <= i < |ents| ensures NoMatch(w, mod, prod, n, diff, ents[i].key) {
      AlignedBest(ents[i].key, w.alignment, w.minlen);
    }
  }

  /** Nor are extents of less than maxlen, without alignment, before one of maxlen. */
  lemma MatchesLong(w: Want, mod: nat, prod: nat, n: nat, diff: nat, ents: seq<Entry>, from: int)
    requires w.Proper() && mod < prod && NoneMatches(w, mod, prod, n, diff, ents, from, |ents|) && ShortTo(ents, from, w.maxlen)
    requires w.alignment == 1 && 0 <= from < |ents| && ents[from].key.count >= w.maxlen
    ensures NoneMatches(w, mod, prod, n, diff, ents, 0, |ents|)
  {
    hide FitsAt;
    assert NoMatch(w, mod, prod, n, diff, ents[from].key);
    forall i | 0 <= i < |ents| ensures NoMatch(w, mod, prod, n, diff, ents[i].key) {
      if i < from {
        LenFixedRange(Least(Len(w, ents[i].key), w.maxlen), w.minlen, w.maxlen, mod, prod);
      }
    }
  }

  /** Of n blocks, as many as minleft allows; nothing is said of more than there is to be left. */
  predicate Leaving(n: nat, minleft: nat, have: int, len: nat) {
    minleft <= have ==> len == Least(n, have - minleft)
  }

  /** Take the blocks chosen of an extent, or as many of them as minleft allows. */
  method TakeFound(ag: Ag, args: Args, ccur: Cursor, f: Rec, b: nat, n: nat) returns (ok: bool)
    requires ag.Valid() && args.Proper() && args.Small() && AtRec(ag.cnt, ccur, f) && Answers(WantOf(args), f, b, n)
    requires Suits(WantOf(args), args.Asked(), f, n) && Nearest(WantOf(args), f, b, n)
    modifies ag.cnt`store, ag.cnt`lv, ag.cnt`root, ag.cnt`nlevels, ag.cnt`longest
    modifies ag.bno`store, ag.bno`lv, ag.bno`root, ag.bno`nlevels, ag.bno`longest
    modifies ag.fl, ag.fl.slots, ccur, args`len, args`agbno
    ensures ok ==> Answered(ag, args)
    ensures ok && args.agbno == NULLAGBLOCK ==> args.Lacks(old(ag.freeblks + ag.fl.flcount))
    ensures ok && args.agbno != NULLAGBLOCK ==> args.Leaves(old(ag.freeblks + ag.fl.flcount))
    ensures ok && args.agbno != NULLAGBLOCK ==>
              args.agbno == b && Leaving(n, args.minleft, old(ag.freeblks + ag.fl.flcount), args.len)
    ensures ok && args.agbno != NULLAGBLOCK ==>
              NearIn(old(ag.Extents()), old(WantOf(args)), args.Asked(), old(ag.freeblks + ag.fl.flcount),
                  Rec(args.agbno, args.len))
    ensures old(Ready(ag, args, TwoSides(ag))) ==> ok
  {
    hide Pair, Apart, AtRec, PartOf, Placed, Reserve, Took, Multiple, Answers, Held, Good, Low, AllTied, Stores,
      FreeList.Valid, AtLeaf, Suits, Nearest, NearIn;
    LowTrees(ag);
    FoundFits(ag, ag.cnt, ccur, f);
    var w := WantOf(args);
    AnswersLen(w, f, b, n);
    var go := KeepMinleft(ag, args, n);
    if !go {
      return true;
    }
    if b + args.len > f.start + f.count {
      return false;
    }
    FitsPart(w, f, b, n, args.len);
    IsNear(ag.Extents(), w, args.Asked(), ag.freeblks + ag.fl.flcount, f, n, b, args.len);
    var bcur := new Cursor(ag.bno);
    ok := TakePart(ag, args, ccur, bcur, f, Rec(b, args.len), true, false);
  }

  /**
   * If the cursor of the by-size tree is in its last leaf, pick the best extent of that leaf: none of its extents gives
   * the request more blocks, and none as many any nearer. Not done if none has enough; there may be one elsewhere.
   */
  method FirstTry(ag: Ag, args: Args, ccur: Cursor, short: bool) returns (done: bool, ok: bool, ghost n: nat)
    requires ag.Valid() && args.Proper() && args.Small() && InLast(ag.cnt, ccur)
    requires !short ==> FirstLong(ag.cnt, ccur, args.maxlen)
    modifies ag.cnt`store, ag.cnt`lv, ag.cnt`root, ag.cnt`nlevels, ag.cnt`longest
    modifies ag.bno`store, ag.bno`lv, ag.bno`root, ag.bno`nlevels, ag.bno`longest
    modifies ag.fl, ag.fl.slots, ccur, args`len, args`agbno
    ensures !done ==> AtLeaf(ag.cnt, ccur) && unchanged(ag.cnt) && unchanged(ag.bno) && unchanged(ag.fl) && unchanged(ag.fl.slots)
                      && unchanged(args`agbno) && ag.Valid()
    ensures !done ==> forall e :: e in old(LeafEnts(ag.cnt, ccur)) ==> Len(old(WantOf(args)), e.key) < args.minlen
    ensures done ==> Enough(old(WantOf(args)), old(LeafEnts(ag.cnt, ccur)))
    ensures done && ok ==> Answered(ag, args)
    ensures done && ok && args.agbno == NULLAGBLOCK ==> args.Lacks(old(ag.freeblks + ag.fl.flcount))
    ensures done && ok && args.agbno != NULLAGBLOCK ==> args.Leaves(old(ag.freeblks + ag.fl.flcount))
    ensures done && ok && args.agbno != NULLAGBLOCK ==>
              var ents := old(LeafEnts(ag.cnt, ccur));
              && NoneMatches(old(WantOf(args)), args.mod, args.prod, n, Dist(args.agbno, old(args.agbno)), ents, 0, |ents|)
              && Leaving(n, args.minleft, old(ag.freeblks + ag.fl.flcount), args.len)
    ensures done && ok && args.agbno != NULLAGBLOCK ==>
              NearIn(old(ag.Extents()), old(WantOf(args)), args.Asked(), old(ag.freeblks + ag.fl.flcount),
                  Rec(args.agbno, args.len))
    ensures old(Ready(ag, args, TwoSides(ag))) ==> ok
  {
    hide Pair, Apart, AtRec, PartOf, Placed, Reserve, Took, Multiple, Answers, Held, Good, Low, Btree.Core, FreeList.Valid,
      NoneMatches, Ready, Dist, Args.Lacks, Suits, Nearest, NearIn, Leaving, Enough;
    n := 0;
    LowTrees(ag);
    var w := WantOf(args);
    ghost var ents := ag.cnt.lv[0][ccur.pos[0]].ents;
    if short || args.alignment > 1 {
      var found := SkipShort(ag.cnt, ccur, args.minlen);
      if !found {
        return false, true, 0;
      }
    }
    ghost var from := ccur.ptrs[0] - 1;
    var blen, bnew, best := ScanLast(ag.cnt, args, ccur);
    if blen == 0 {
      return false, true, 0;
    }
    n := blen;
    if short || args.alignment > 1 {
      MatchesShort(w, args.mod, args.prod, blen, Dist(bnew, w.bno), ents, from);
    } else {
      MatchesLong(w, args.mod, args.prod, blen, Dist(bnew, w.bno), ents, from);
    }
    ok := TakeFound(ag, args, ccur, best, bnew, blen);
    done := true;
  }

  lemma AnswersLen(w: Want, f: Rec, b: nat, n: nat)
    requires w.Proper() && Answers(w, f, b, n)
    ensures w.minlen <= n <= w.maxlen && f.start <= b && b + n <= f.start + f.count
  {
  }

  lemma LenInside(w: Want, f: Rec)
    requires w.Proper() && Len(w, f) >= w.minlen
    ensures Len(w, f) <= f.count
  {
    AlignedBest(f, w.alignment, w.minlen);
  }

  /** Allocate from the extent chosen, as near to the target as it allows. */
  method TakeNear(ag: Ag, args: Args, ccur: Cursor, bcur: Cursor, f: Rec) returns (ok: bool)
    requires ag.Valid() && args.Proper() && args.Small()
    requires AtRec(ag.bno, bcur, f) && Len(WantOf(args), f) >= args.minlen
    requires ccur != bcur && ccur.Fits() && ccur.nlevels == ag.cnt.nlevels
    modifies ag.cnt`store, ag.cnt`lv, ag.cnt`root, ag.cnt`nlevels, ag.cnt`longest
    modifies ag.bno`store, ag.bno`lv, ag.bno`root, ag.bno`nlevels, ag.bno`longest
    modifies ag.fl, ag.fl.slots, ccur, bcur, args`len, args`agbno
    ensures ok ==> Answered(ag, args)
    ensures ok && args.agbno == NULLAGBLOCK ==> args.Lacks(old(ag.freeblks + ag.fl.flcount))
    ensures ok && args.agbno != NULLAGBLOCK ==> args.Leaves(old(ag.freeblks + ag.fl.flcount))
    ensures ok && args.agbno != NULLAGBLOCK ==> PartOf(Rec(args.agbno, args.len), f)
    ensures ok && args.agbno != NULLAGBLOCK ==>
              NearIn(old(ag.Extents()), old(WantOf(args)), args.Asked(), old(ag.freeblks + ag.fl.flcount),
                  Rec(args.agbno, args.len))
    ensures old(Ready(ag, args, TwoSides(ag))) ==> ok
  {
    hide Pair, Apart, AtRec, PartOf, Placed, Reserve, Took, Multiple, Answers, Held, Good, Low, Len, NearIn, Nearest;
    LowTrees(ag);
    FoundFits(ag, ag.bno, bcur, f);
    var w := WantOf(args);
    LenInside(w, f);
    var n := FixedLen(args, Len(w, f));
    var go := KeepMinleft(ag, args, n);
    if !go {
      return true;
    }
    if args.len > n {
      return false;
    }
    var diff, b := ComputeDiff(w, args.len, f);
    AnswersLen(w, f, b, args.len);
    FitsPart(w, f, b, args.len, args.len);
    IsNear(ag.Extents(), w, args.Asked(), ag.freeblks + ag.fl.flcount, f, n, b, args.len);
    ok := TakePart(ag, args, ccur, bcur, f, Rec(b, args.len), false, true);
  }

  /** If all extents were passed over, none has room for minlen blocks. */
  lemma PassedNoRoom(w: Want, recs: seq<Rec>)
    requires w.Proper() && Passed(w, recs, -1, |recs|)
    ensures NoRoom(Elems(recs), w.alignment, w.minlen)
  {
    forall f: Rec, b: nat | f in Elems(recs) ensures !FitsAt(f, w.alignment, b, w.minlen) {
      AlignedBest(f, w.alignment, w.minlen);
    }
  }

  /**
   * Of both sides the first extents with enough count, and h is one of them. It is the nearer one, unless the right side
   * was found first and the search to the left ended too soon.
   */
  ghost predicate Better(w: Want, a: Ask, recs: seq<Rec>, lo: int, hi: int, h: Rec) {
    || (exists k :: Behind(w, recs, lo, k) && recs[k] == h && NotRight(w, a, recs, hi, Diff(w, a, h)))
    || (exists k :: Ahead(w, recs, hi, k) && recs[k] == h && NotLeft(w, a, recs, lo, Diff(w, a, h)))
  }

  lemma BetterLeft(w: Want, a: Ask, recs: seq<Rec>, lo: int, hi: int, k: int)
    requires Behind(w, recs, lo, k) && NotRight(w, a, recs, hi, Diff(w, a, recs[k]))
    ensures Better(w, a, recs, lo, hi, recs[k])
  {
    hide Behind, NotRight, NotLeft, Diff;
  }

  lemma BetterRight(w: Want, a: Ask, recs: seq<Rec>, lo: int, hi: int, k: int)
    requires Ahead(w, recs, hi, k) && NotLeft(w, a, recs, lo, Diff(w, a, recs[k]))
    ensures Better(w, a, recs, lo, hi, recs[k])
  {
    hide Ahead, NotRight, NotLeft, Diff;
  }

  lemma FirstBehind(w: Want, a: Ask, recs: seq<Rec>, lo: int, diff: nat)
    requires 0 <= lo < |recs| && Len(w, recs[lo]) >= w.minlen
    ensures Behind(w, recs, lo, lo) && (diff <= Diff(w, a, recs[lo]) ==> NotLeft(w, a, recs, lo, diff))
  {
    hide Len, Diff;
  }

  lemma FirstAhead(w: Want, a: Ask, recs: seq<Rec>, hi: int, diff: nat)
    requires 0 <= hi < |recs| && Len(w, recs[hi]) >= w.minlen
    ensures Ahead(w, recs, hi, hi) && (diff <= Diff(w, a, recs[hi]) ==> NotRight(w, a, recs, hi, diff))
  {
    hide Len, Diff;
  }

  lemma NoneNearer(w: Want, a: Ask, recs: seq<Rec>, lo: int, hi: int)
    ensures NotRight(w, a, recs, hi, 0) && NotLeft(w, a, recs, lo, 0)
  {
    hide Len, Diff;
  }

  /** The search to the left, from an extent g0 on the right, comes to h. */
  ghost predicate Reached(w: Want, a: Ask, recs: seq<Rec>, lo: int, h: Rec, g0: Rec) {
    exists k :: Behind(w, recs, lo, k) && recs[k] == h && !CutOff(w, recs, lo, k, Diff(w, a, g0))
  }

  lemma ReachedAt(w: Want, a: Ask, recs: seq<Rec>, lo: int, k: int, g0: Rec)
    requires Behind(w, recs, lo, k) && !CutOff(w, recs, lo, k, Diff(w, a, g0))
    ensures Reached(w, a, recs, lo, recs[k], g0)
  {
    hide Behind, CutOff, Diff;
  }

  /** Of two sides, one with enough, pick the better one. */
  method PickSide(t: Btree, args: Args, lcur: Cursor, gcur: Cursor, left: bool, f0: Rec, g0: Rec, ghost lo: int, ghost hi: int)
    returns (cur: Cursor, h: Rec)
    requires |t.lv| > 0 && Low(t) && args.Proper() && lcur != gcur && AtIdx(t, lcur, lo) && AtIdx(t, gcur, hi)
    requires Sorted(Bno, t.Recs())
    requires if left then f0 in Held(t) && AtRec(t, lcur, f0) && Len(WantOf(args), f0) >= args.minlen
             else g0 in Held(t) && AtRec(t, gcur, g0) && Len(WantOf(args), g0) >= args.minlen
    requires 0 <= lo < hi < |t.Recs()| && if left then t.Recs()[lo] == f0 else t.Recs()[hi] == g0
    modifies lcur, gcur, args`len
    ensures cur == lcur || cur == gcur
    ensures AtRec(t, cur, h) && Len(WantOf(args), h) >= args.minlen
    ensures Better(WantOf(args), args.Asked(), t.Recs(), lo, hi, h)
    ensures !left && cur == lcur ==> Reached(WantOf(args), args.Asked(), t.Recs(), lo, h, g0)
  {
    hide Len, AtRec, Held, AtIdx, Answers, Diff, NotLeft, NotRight, Ahead, Behind, Better, Sorted, Flat, Off,
      CutOff, Reached;
    var w := WantOf(args);
    ghost var a := args.Asked();
    LowRecs(t);
    NoneNearer(w, a, t.Recs(), lo, hi);
    if left {
      var diff := DiffOf(args, f0);
      FirstBehind(w, a, t.Recs(), lo, 0);
      if diff != 0 {
        var right, g, k := LookRight(t, args, gcur, diff, hi);
        if right {
          FirstBehind(w, a, t.Recs(), lo, Diff(w, a, g));
          BetterRight(w, a, t.Recs(), lo, hi, k);
          return gcur, g;
        }
      }
      BetterLeft(w, a, t.Recs(), lo, hi, lo);
      return lcur, f0;
    } else {
      var diff := DiffOf(args, g0);
      FirstAhead(w, a, t.Recs(), hi, 0);
      if diff != 0 {
        var better, f, k := LookLeft(t, args, lcur, diff, lo);
        if better {
          FirstAhead(w, a, t.Recs(), hi, Diff(w, a, f));
          BetterLeft(w, a, t.Recs(), lo, hi, k);
          ReachedAt(w, a, t.Recs(), lo, k, g0);
          return lcur, f;
        }
      }
      BetterRight(w, a, t.Recs(), lo, hi, hi);
      return gcur, g0;
    }
  }

  /** On its side of the target, no extent with enough is nearer. */
  ghost predicate Foremost(s: set<Rec>, w: Want, h: Rec) {
    && h in s && Len(w, h) >= w.minlen
    && forall q :: q in s && Len(w, q) >= w.minlen && (q.start <= w.bno <==> h.start <= w.bno) ==>
        if h.start <= w.bno then q.start <= h.start else h.start <= q.start
  }

  /** An extent from o to the target starts so far away that a search to the left with such a distance ends there. */
  ghost predicate Blocked(s: set<Rec>, w: Want, o: Rec, diff: nat) {
    exists x :: x in s && o.start <= x.start <= w.bno && ClearlyRight(w, diff, Aligned(x, w.alignment, w.minlen).start)
  }

  /**
   * The foremost extent of the other side gives no nearer start. To the left of the target it may, if the start of some
   * extent there, or the distance on the right, is such that the search is cut off; to the right only if a sum wraps round.
   */
  ghost predicate SideWins(s: set<Rec>, w: Want, a: Ask, h: Rec) {
    forall o :: Foremost(s, w, o) && (o.start <= w.bno <==> h.start > w.bno) ==>
      || Diff(w, a, h) <= Diff(w, a, o)
      || (h.start <= w.bno && w.bno + Diff(w, a, h) >= U32)
      || (h.start > w.bno && Blocked(s, w, o, Diff(w, a, h)))
  }

  lemma SideIs(recs: seq<Rec>, w: Want, a: Ask, k: int, lo: int, hi: int, h: Rec)
    requires Sorted(Bno, recs) && Parts(recs, w.bno, k) && -1 <= lo <= k < hi <= |recs| && Passed(w, recs, lo, hi)
    requires Better(w, a, recs, lo, hi, h)
    ensures Foremost(Elems(recs), w, h) && SideWins(Elems(recs), w, a, h)
  {
    hide Len, Diff, Aligned, ClearlyRight, Around, Passed, NotLeft, NotRight;
    AroundIs(recs, w, k, lo, hi);
    if j :| Behind(w, recs, lo, j) && recs[j] == h && NotRight(w, a, recs, hi, Diff(w, a, h)) {
      SideLeft(recs, w, a, k, lo, hi, j);
    } else {
      var j :| Ahead(w, recs, hi, j) && recs[j] == h && NotLeft(w, a, recs, lo, Diff(w, a, h));
      SideRight(recs, w, a, k, lo, hi, j);
    }
  }

  /** The place of the target, and the extents without enough on either side of it. */
  ghost predicate Around(recs: seq<Rec>, w: Want, k: int, lo: int, hi: int) {
    && (forall i, j :: 0 <= i < j < |recs| ==> recs[i].start < recs[j].start)
    && Parts(recs, w.bno, k) && -1 <= lo <= k < hi <= |recs| && Passed(w, recs, lo, hi)
  }

  lemma AroundIs(recs: seq<Rec>, w: Want, k: int, lo: int, hi: int)
    requires Sorted(Bno, recs) && Parts(recs, w.bno, k) && -1 <= lo <= k < hi <= |recs| && Passed(w, recs, lo, hi)
    ensures Around(recs, w, k, lo, hi)
  {
    hide Len;
    forall i, j | 0 <= i < j < |recs| ensures recs[i].start < recs[j].start {
      assert Before(Bno, recs[i], recs[j]);
    }
  }

  lemma ForemostLeft(recs: seq<Rec>, w: Want, k: int, lo: int, hi: int, j: int)
    requires Around(recs, w, k, lo, hi) && Behind(w, recs, lo, j)
    ensures 0 <= j < |recs| && Foremost(Elems(recs), w, recs[j]) && recs[j].start <= w.bno
  {
    hide Len;
    forall q | q in Elems(recs) && Len(w, q) >= w.minlen && q.start <= w.bno ensures q.start <= recs[j].start {
      var i :| 0 <= i < |recs| && recs[i] == q;
    }
  }

  lemma ForemostRight(recs: seq<Rec>, w: Want, k: int, lo: int, hi: int, j: int)
    requires Around(recs, w, k, lo, hi) && Ahead(w, recs, hi, j)
    ensures 0 <= j < |recs| && Foremost(Elems(recs), w, recs[j]) && recs[j].start > w.bno
  {
    hide Len;
    forall q | q in Elems(recs) && Len(w, q) >= w.minlen && q.start > w.bno ensures recs[j].start <= q.start {
      var i :| 0 <= i < |recs| && recs[i] == q;
    }
  }

  lemma AheadIs(recs: seq<Rec>, w: Want, k: int, lo: int, hi: int, o: Rec) returns (i: int)
    requires Around(recs, w, k, lo, hi) && Foremost(Elems(recs), w, o) && o.start > w.bno
    ensures 0 <= i < |recs| && Ahead(w, recs, hi, i) && recs[i] == o
  {
    hide Len;
    i :| 0 <= i < |recs| && recs[i] == o;
    forall m | hi - 1 < m < i ensures Len(w, recs[m]) < w.minlen {
      assert recs[m] in Elems(recs);
    }
  }

  lemma BehindIs(recs: seq<Rec>, w: Want, k: int, lo: int, hi: int, o: Rec) returns (i: int)
    requires Around(recs, w, k, lo, hi) && Foremost(Elems(recs), w, o) && o.start <= w.bno
    ensures 0 <= i < |recs| && Behind(w, recs, lo, i) && recs[i] == o
  {
    hide Len;
    i :| 0 <= i < |recs| && recs[i] == o;
    forall m | i < m < lo + 1 ensures Len(w, recs[m]) < w.minlen {
      assert recs[m] in Elems(recs);
    }
  }

  lemma SideLeft(recs: seq<Rec>, w: Want, a: Ask, k: int, lo: int, hi: int, j: int)
    requires Around(recs, w, k, lo, hi) && Behind(w, recs, lo, j) && NotRight(w, a, recs, hi, Diff(w, a, recs[j]))
    ensures Foremost(Elems(recs), w, recs[j]) && SideWins(Elems(recs), w, a, recs[j])
  {
    hide Len, Diff, Aligned, ClearlyRight, Foremost, Ahead, Behind, Around;
    ForemostLeft(recs, w, k, lo, hi, j);
    forall o | Foremost(Elems(recs), w, o) && o.start > w.bno
      ensures Diff(w, a, recs[j]) <= Diff(w, a, o) || w.bno + Diff(w, a, recs[j]) >= U32
    {
      var i := AheadIs(recs, w, k, lo, hi, o);
    }
  }

  lemma CutOffIs(recs: seq<Rec>, w: Want, k: int, lo: int, hi: int, i: int, diff: nat)
    requires Around(recs, w, k, lo, hi) && CutOff(w, recs, lo, i, diff)
    ensures Blocked(Elems(recs), w, recs[i], diff)
  {
    hide Len, Aligned, ClearlyRight;
    var m :| 0 <= i <= m <= lo < |recs| && ClearlyRight(w, diff, Aligned(recs[m], w.alignment, w.minlen).start);
    assert recs[m] in Elems(recs);
  }

  lemma SideRight(recs: seq<Rec>, w: Want, a: Ask, k: int, lo: int, hi: int, j: int)
    requires Around(recs, w, k, lo, hi) && Ahead(w, recs, hi, j) && NotLeft(w, a, recs, lo, Diff(w, a, recs[j]))
    ensures Foremost(Elems(recs), w, recs[j]) && SideWins(Elems(recs), w, a, recs[j])
  {
    hide Len, Diff, Aligned, ClearlyRight, Foremost, Ahead, Behind, Around, CutOff, Blocked;
    ForemostRight(recs, w, k, lo, hi, j);
    var diff := Diff(w, a, recs[j]);
    forall o | Foremost(Elems(recs), w, o) && o.start <= w.bno
      ensures diff <= Diff(w, a, o) || Blocked(Elems(recs), w, o, diff)
    {
      var i := BehindIs(recs, w, k, lo, hi, o);
      if diff > Diff(w, a, o) {
        CutOffIs(recs, w, k, lo, hi, i, diff);
      }
    }
  }

  /**
   * Where the right side is found first, the one taken may be farther: 10 blocks are wanted near block 100, extent 120 is 20
   * blocks away, and extent 0, whose end is 18 away, is not looked at because its start is too far off.
   */
  lemma NearMisses()
    ensures var s, w, a := {Rec(0, 92), Rec(95, 4), Rec(120, 40)}, Want(100, 10, 10, 1), Ask(10, 10, 1, 0, 1, 0);
            && Foremost(s, w, Rec(120, 40)) && Foremost(s, w, Rec(0, 92)) && SideWins(s, w, a, Rec(120, 40))
            && Diff(w, a, Rec(120, 40)) == 20 && Diff(w, a, Rec(0, 92)) == 18
  {
    var s, w, a := {Rec(0, 92), Rec(95, 4), Rec(120, 40)}, Want(100, 10, 10, 1), Ask(10, 10, 1, 0, 1, 0);
    assert Blocked(s, w, Rec(0, 92), 20);
  }

  /** With one side only, that is the better one. */
  lemma OneSided(w: Want, a: Ask, recs: seq<Rec>, lo: int, hi: int, left: bool)
    requires -1 <= lo < hi <= |recs|
    requires if left then 0 <= lo && hi == |recs| && Len(w, recs[lo]) >= w.minlen
             else lo == -1 && hi < |recs| && Len(w, recs[hi]) >= w.minlen
    ensures Better(w, a, recs, lo, hi, if left then recs[lo] else recs[hi])
  {
    hide Len, Diff;
    if left {
      FirstBehind(w, a, recs, lo, 0);
      BetterLeft(w, a, recs, lo, hi, lo);
    } else {
      FirstAhead(w, a, recs, hi, 0);
      BetterRight(w, a, recs, lo, hi, hi);
    }
  }

  /** Search from the target in both directions at once, and pick the better one of the first extents with enough. */
  method PickNear(t: Btree, args: Args) returns (cur: Cursor?, h: Rec)
    requires Good(t) && t.nlevels > 0 && t.kind == Bno && Low(t) && args.Proper()
    modifies args`len
    ensures cur == null ==> NoRoom(Held(t), args.alignment, args.minlen)
    ensures cur != null ==> fresh(cur) && AtRec(t, cur, h) && Len(WantOf(args), h) >= args.minlen
    ensures cur != null ==> Foremost(Held(t), WantOf(args), h) && SideWins(Held(t), WantOf(args), args.Asked(), h)
  {
    hide AtRec, Low, Len, AtIdx, NoRoom, Passed, Sorted, Parts, Better, Flat, Off, Foremost, SideWins, Btree.Valid;
    var w := WantOf(args);
    ghost var a := args.Asked();
    var lcur0, gcur0, k := StartSides(t, w);
    var lcur, gcur, left, f, g, lo, hi := SearchBoth(t, w, lcur0, gcur0, k);
    if lcur == null && gcur == null {
      PassedNoRoom(w, t.Recs());
      return null, f;
    }
    if lcur != null && gcur != null {
      AtPlace(t, lcur, lo);
      AtPlace(t, gcur, hi);
      cur, h := PickSide(t, args, lcur, gcur, left, f, g, lo, hi);
    } else {
      OneSided(w, a, t.Recs(), lo, hi, left);
      cur, h := if left then lcur else gcur, if left then f else g;
    }
    SideIs(t.Recs(), w, a, k, lo, hi, h);
  }

  /** Search the by-block tree from the target in both directions at once. */
  method SecondTry(ag: Ag, args: Args, ccur: Cursor) returns (ok: bool, ghost h: Rec)
    requires ag.Valid() && args.Proper() && args.Small() && ccur.Fits() && ccur.nlevels == ag.cnt.nlevels
    modifies ag.cnt`store, ag.cnt`lv, ag.cnt`root, ag.cnt`nlevels, ag.cnt`longest
    modifies ag.bno`store, ag.bno`lv, ag.bno`root, ag.bno`nlevels, ag.bno`longest
    modifies ag.fl, ag.fl.slots, ccur, args`len, args`agbno
    ensures ok ==> Answered(ag, args)
    ensures ok && args.agbno == NULLAGBLOCK ==>
              NoRoom(old(ag.Extents()), args.alignment, args.minlen) || args.Lacks(old(ag.freeblks + ag.fl.flcount))
    ensures ok && args.agbno != NULLAGBLOCK ==> args.Leaves(old(ag.freeblks + ag.fl.flcount))
    ensures ok && args.agbno != NULLAGBLOCK ==>
              NearIn(old(ag.Extents()), old(WantOf(args)), args.Asked(), old(ag.freeblks + ag.fl.flcount),
                  Rec(args.agbno, args.len))
    ensures ok && args.agbno != NULLAGBLOCK ==>
              && PartOf(Rec(args.agbno, args.len), h) && Foremost(old(ag.Extents()), old(WantOf(args)), h)
              && SideWins(old(ag.Extents()), old(WantOf(args)), args.Asked(), h)
    ensures old(Ready(ag, args, TwoSides(ag))) ==> ok
  {
    hide Pair, Apart, AtRec, PartOf, Placed, Reserve, Took, Multiple, Answers, Good, Low, Len, NoRoom, NearIn, Foremost, SideWins;
    LowTrees(ag);
    var bcur, f := PickNear(ag.bno, args);
    h := f;
    if bcur == null {
      args.agbno := NULLAGBLOCK;
      return true, h;
    }
    ok := TakeNear(ag, args, ccur, bcur, f);
  }

  lemma RecLeaf(ag: Ag, cur: Cursor, f: Rec)
    requires ag.Valid() && AtRec(ag.cnt, cur, f)
    ensures AtLeaf(ag.cnt, cur) && 1 <= cur.ptrs[0] <= |ag.cnt.lv[0][cur.pos[0]].ents|
    ensures ag.Extents() != {}
  {
    hide Sorted, Tied;
    assert f in Held(ag.cnt);
  }

  /** Set the by-size cursor to an extent of maxlen blocks, or else to the longest; go is false if the request is settled. */
  method LookupNear(ag: Ag, args: Args, ccur: Cursor) returns (go: bool, short: bool)
    requires ag.Valid() && args.Proper() && ccur.Fits() && ccur.nlevels == ag.cnt.nlevels
    modifies args`agbno, args`len, args`wasfromfl, ag.fl, ccur
    ensures go ==> AtLeaf(ag.cnt, ccur) && 1 <= ccur.ptrs[0] <= |ag.cnt.lv[0][ccur.pos[0]].ents|
    ensures go && !short ==> FirstLong(ag.cnt, ccur, args.maxlen)
    ensures go ==> ag.Valid() && unchanged(ag.fl) && unchanged(args)
    ensures !go && args.agbno != NULLAGBLOCK ==> Served(ag, args)
    ensures !go && args.agbno == NULLAGBLOCK ==> unchanged(ag.fl) && NoRoom(old(ag.Extents()), args.alignment, args.minlen)
    ensures go || args.agbno == NULLAGBLOCK ==> !old(ag.Extents() == {} && FromFreelist(args, ag.fl.flcount))
  {
    hide Pair, AtRec, AtEnd, Placed, Reserve, Good, Low, NoRoom, FromFreelist, Held;
    LowTrees(ag);
    HeldNone(ag.cnt);
    var i, f := LookupLong(ag.cnt, ccur, args.maxlen);
    if !i {
      var stat;
      stat, f := VextentSmall(ag, args, ccur);
      if !stat || f.count == 0 {
        if stat {
          ShortNoRoom(ag.Extents(), args.alignment, args.minlen);
        }
        return false, true;
      }
    }
    RecLeaf(ag, ccur, f);
    if i {
      LongLeaf(ag.cnt, ccur, f, args.maxlen);
    }
    return true, !i;
  }

  /**
   * The blocks are the best match of the last leaf of the by-size tree, if the search by size ends there and an extent of
   * it has enough; and else part of the better one of the extents around the target.
   */
  ghost predicate AsTried(s: set<Rec>, ents: seq<Entry>, last: bool, w: Want, a: Ask, have: int, r: Rec) {
    if last && Enough(w, ents) then
      exists n: nat {:trigger Leaving(n, a.minleft, have, r.count)} :: Leaving(n, a.minleft, have, r.count)
        && NoneMatches(w, a.mod, a.prod, n, Dist(r.start, w.bno), ents, 0, |ents|)
    else
      exists h: Rec :: PartOf(r, h) && Foremost(s, w, h) && SideWins(s, w, a, h)
  }

  lemma TriedFirst(s: set<Rec>, ents: seq<Entry>, w: Want, a: Ask, have: int, r: Rec, n: nat)
    requires Leaving(n, a.minleft, have, r.count) && NoneMatches(w, a.mod, a.prod, n, Dist(r.start, w.bno), ents, 0, |ents|)
    requires Enough(w, ents)
    ensures AsTried(s, ents, true, w, a, have, r)
  {
    hide Len, NoneMatches, Dist, Leaving;
  }

  lemma TriedSecond(s: set<Rec>, ents: seq<Entry>, last: bool, w: Want, a: Ask, have: int, r: Rec, h: Rec)
    requires PartOf(r, h) && Foremost(s, w, h) && SideWins(s, w, a, h)
    requires last ==> forall e :: e in ents ==> Len(w, e.key) < w.minlen
    ensures AsTried(s, ents, last, w, a, have, r)
  {
    hide Len, PartOf, Foremost, SideWins;
  }

  /** The last leaf of the by-size tree if the cursor is there, and the search from the target if that settles nothing. */
  method BothTries(ag: Ag, args: Args, ccur: Cursor, short: bool) returns (ok: bool)
    requires ag.Valid() && args.Proper() && args.Small() && AtLeaf(ag.cnt, ccur)
    requires 1 <= ccur.ptrs[0] <= |ag.cnt.lv[0][ccur.pos[0]].ents| && (!short ==> FirstLong(ag.cnt, ccur, args.maxlen))
    modifies ag.cnt`store, ag.cnt`lv, ag.cnt`root, ag.cnt`nlevels, ag.cnt`longest
    modifies ag.bno`store, ag.bno`lv, ag.bno`root, ag.bno`nlevels, ag.bno`longest
    modifies ag.fl, ag.fl.slots, ccur, args`len, args`agbno
    ensures ok ==> Answered(ag, args)
    ensures ok && args.agbno == NULLAGBLOCK ==>
              NoRoom(old(ag.Extents()), args.alignment, args.minlen) || args.Lacks(old(ag.freeblks + ag.fl.flcount))
    ensures ok && args.agbno != NULLAGBLOCK ==> args.Leaves(old(ag.freeblks + ag.fl.flcount))
    ensures ok && args.agbno != NULLAGBLOCK ==>
              NearIn(old(ag.Extents()), old(WantOf(args)), args.Asked(), old(ag.freeblks + ag.fl.flcount),
                  Rec(args.agbno, args.len))
    ensures ok && args.agbno != NULLAGBLOCK ==> AsTried(old(ag.Extents()), old(LeafEnts(ag.cnt, ccur)),
        old(ccur.pos[0] + 1 == |ag.cnt.lv[0]|), old(WantOf(args)), args.Asked(), old(ag.freeblks + ag.fl.flcount),
        Rec(args.agbno, args.len))
    ensures old(Ready(ag, args, TwoSides(ag))) ==> ok
  {
    hide Took, Multiple, NoRoom, Pair, Placed, Reserve, Flat, Off, Tied, FreeList.Valid, Good, Held,
      NearIn, NoneMatches, AsTried, Enough, Foremost, SideWins, PartOf, Leaving, Len, Dist;
    ghost var s, ents, w, have := ag.Extents(), LeafEnts(ag.cnt, ccur), WantOf(args), ag.freeblks + ag.fl.flcount;
    var last := IsLastBlock(ag.cnt, ccur);
    if last {
      var done;
      ghost var n;
      done, ok, n := FirstTry(ag, args, ccur, short);
      if done {
        if ok && args.agbno != NULLAGBLOCK {
          TriedFirst(s, ents, w, args.Asked(), have, Rec(args.agbno, args.len), n);
        }
        return;
      }
    }
    ghost var h;
    ok, h := SecondTry(ag, args, ccur);
    if ok && args.agbno != NULLAGBLOCK {
      TriedSecond(s, ents, last, w, args.Asked(), have, Rec(args.agbno, args.len), h);
    }
  }

  /** Allocate near the block asked for. */
  method VextentNear(ag: Ag, args: Args) returns (ok: bool)
    requires ag.Valid() && args.Proper() && args.Small()
    modifies ag.cnt`store, ag.cnt`lv, ag.cnt`root, ag.cnt`nlevels, ag.cnt`longest
    modifies ag.bno`store, ag.bno`lv, ag.bno`root, ag.bno`nlevels, ag.bno`longest
    modifies ag.fl, ag.fl.slots, args`len, args`agbno, args`wasfromfl
    ensures ok && args.agbno == NULLAGBLOCK ==> Refused(ag, args)
    ensures ok && args.agbno == NULLAGBLOCK ==>
              NoRoom(old(ag.Extents()), args.alignment, args.minlen) || args.Lacks(old(ag.freeblks + ag.fl.flcount))
    ensures ok && args.agbno != NULLAGBLOCK ==> args.Leaves(old(ag.freeblks + ag.fl.flcount))
    ensures ok && args.agbno != NULLAGBLOCK && !args.wasfromfl ==>
              && args.minlen <= args.len <= args.maxlen && Multiple(args.agbno, args.alignment)
              && Took(ag, old(ag.Extents()), old(Reserve(ag.cnt, ag.bno)), old(ag.fl.btreeblks + |ag.fl.queue|),
                  old(|ag.fl.queue|), Rec(args.agbno, args.len))
    ensures ok && args.agbno != NULLAGBLOCK && args.wasfromfl ==> Served(ag, args)
    ensures ok && args.agbno == NULLAGBLOCK ==> !old(ag.Extents() == {} && FromFreelist(args, ag.fl.flcount))
    ensures ok && args.agbno != NULLAGBLOCK && !args.wasfromfl ==>
              NearIn(old(ag.Extents()), old(WantOf(args)), args.Asked(), old(ag.freeblks + ag.fl.flcount),
                  Rec(args.agbno, args.len))
    ensures old(Ready(ag, args, TwoSides(ag))) ==> ok
  {
    hide Pair, Placed, Reserve, Took, Multiple, Good, NoRoom, Held, AtRec, Low, Flat, Off, Tied, FreeList.Valid,
      NearIn;
    LowTrees(ag);
    var ccur := new Cursor(ag.cnt);
    var go, short := LookupNear(ag, args, ccur);
    if !go {
      return true;
    }
    args.wasfromfl := false;
    ok := BothTries(ag, args, ccur, short);
  }
}
