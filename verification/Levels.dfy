/** The blocks of one level of a btree, in sibling order, as values. */
module Levels {
  import opened Records

  type Ptr = nat

  /** A key with the child it leads to; in a leaf, a record (the child is not used). */
  datatype Entry = Entry(key: Rec, child: Ptr)

  datatype Blk = Blk(id: Ptr, ents: seq<Entry>)

  type Level = seq<Blk>

  /** All entries of a level from left to right. */
  ghost function Flat(lv: Level): seq<Entry> {
    if lv == [] then [] else Flat(lv[..|lv| - 1]) + lv[|lv| - 1].ents
  }

  /** The number of entries to the left of block b. */
  ghost function Off(lv: Level, b: nat): nat
    requires b <= |lv|
  {
    |Flat(lv[..b])|
  }

  ghost predicate NonEmpty(lv: Level) {
    forall i :: 0 <= i < |lv| ==> lv[i].ents != []
  }

  /** The children of the upper level are the blocks of the lower level, in order. */
  ghost predicate ChildLinked(up: Level, lo: Level) {
    && |Flat(up)| == |lo|
    && forall k :: 0 <= k < |lo| ==> Flat(up)[k].child == lo[k].id
  }

  /** The entries lead to the blocks, each with the first key of its block, except perhaps that of block x. */
  ghost predicate HeadsBut(es: seq<Entry>, lo: Level, x: int) {
    && NonEmpty(lo)
    && |es| == |lo|
    && (forall k :: 0 <= k < |lo| ==> es[k].child == lo[k].id)
    && forall k :: 0 <= k < |lo| && k != x ==> es[k].key == lo[k].ents[0].key
  }

  ghost predicate LinkedBut(up: Level, lo: Level, x: int) {
    HeadsBut(Flat(up), lo, x)
  }

  ghost predicate Linked(up: Level, lo: Level) {
    LinkedBut(up, lo, -1)
  }

  /** Entry ptr (1-based) of block b is the k-th entry of the level. */
  ghost predicate Points(lv: Level, b: nat, ptr: int, k: int) {
    && b < |lv|
    && 1 <= ptr <= |lv[b].ents|
    && Off(lv, b) + ptr - 1 == k
  }

  /** Equal but for keys. */
  ghost predicate SameShape(a: Level, b: Level) {
    && |a| == |b|
    && forall i :: 0 <= i < |a| ==> SameBlk(a[i], b[i])
  }

  ghost predicate SameBlk(x: Blk, y: Blk) {
    && x.id == y.id
    && |x.ents| == |y.ents|
    && forall j :: 0 <= j < |x.ents| ==> x.ents[j].child == y.ents[j].child
  }

  ghost predicate Sized(lv: Level, lo: nat, hi: nat) {
    forall i :: 0 <= i < |lv| ==> lo <= |lv[i].ents| <= hi
  }

  /** An entry put in before the k-th. */
  ghost function Ins<T>(es: seq<T>, k: nat, e: T): seq<T>
    requires k <= |es|
  {
    es[..k] + [e] + es[k..]
  }

  /** The k-th entry taken out. */
  ghost function Del<T>(es: seq<T>, k: nat): seq<T>
    requires k < |es|
  {
    es[..k] + es[k + 1..]
  }

  lemma {:induction false} FlatConcat(a: Level, b: Level)
    ensures Flat(a + b) == Flat(a) + Flat(b)
  {
    if b == [] {
      assert a + b == a;
    } else {
      assert (a + b)[..|a + b| - 1] == a + b[..|b| - 1];
      FlatConcat(a, b[..|b| - 1]);
    }
  }

  lemma FlatAt(lv: Level, b: nat)
    requires b < |lv|
    ensures Flat(lv) == Flat(lv[..b]) + lv[b].ents + Flat(lv[b + 1..])
    ensures Off(lv, b + 1) == Off(lv, b) + |lv[b].ents|
  {
    assert lv == lv[..b + 1] + lv[b + 1..];
    assert lv[..b + 1][..b] == lv[..b];
    FlatConcat(lv[..b + 1], lv[b + 1..]);
  }

  lemma FlatIndex(lv: Level, b: nat, i: nat)
    requires b < |lv| && i < |lv[b].ents|
    ensures Off(lv, b) + i < |Flat(lv)|
    ensures Flat(lv)[Off(lv, b) + i] == lv[b].ents[i]
  {
    FlatAt(lv, b);
  }

  lemma {:induction false} SameShapeOff(x: Level, y: Level, b: nat)
    requires SameShape(x, y) && b <= |x|
    ensures Off(x, b) == Off(y, b)
  {
    if b > 0 {
      SameShapeOff(x, y, b - 1);
      FlatAt(x, b - 1);
      FlatAt(y, b - 1);
    }
  }

  lemma OffFull(lv: Level)
    ensures Off(lv, |lv|) == |Flat(lv)| && Off(lv, 0) == 0
  {
    assert lv[..|lv|] == lv;
  }

  lemma {:induction false} OffMono(lv: Level, a: nat, b: nat)
    requires a <= b <= |lv|
    ensures Off(lv, a) <= Off(lv, b)
    ensures NonEmpty(lv) ==> Off(lv, a) + (b - a) <= Off(lv, b)
    decreases b - a
  {
    if a < b {
      OffMono(lv, a, b - 1);
      FlatAt(lv, b - 1);
    }
  }

  /** What replacing the entries of one block does to the level. */
  lemma FlatReplace(lv: Level, b: nat, ents: seq<Entry>)
    requires b < |lv|
    ensures var lv' := lv[b := Blk(lv[b].id, ents)];
            && Flat(lv') == Flat(lv[..b]) + ents + Flat(lv[b + 1..])
            && forall c :: 0 <= c <= b ==> Off(lv', c) == Off(lv, c)
  {
    var lv' := lv[b := Blk(lv[b].id, ents)];
    FlatAt(lv', b);
    assert lv'[..b] == lv[..b] && lv'[b + 1..] == lv[b + 1..];
    forall c | 0 <= c <= b ensures Off(lv', c) == Off(lv, c) {
      assert lv'[..c] == lv[..c];
    }
  }

  lemma FlatSetEntry(lv: Level, b: nat, i: nat, e: Entry)
    requires b < |lv| && i < |lv[b].ents|
    ensures Off(lv, b) + i < |Flat(lv)|
    ensures Flat(lv[b := Blk(lv[b].id, lv[b].ents[i := e])]) == Flat(lv)[Off(lv, b) + i := e]
  {
    FlatAt(lv, b);
    FlatReplace(lv, b, lv[b].ents[i := e]);
    SetInMiddle(Flat(lv[..b]), lv[b].ents, Flat(lv[b + 1..]), i, e);
  }

  lemma SetInMiddle(p: seq<Entry>, m: seq<Entry>, s: seq<Entry>, i: nat, e: Entry)
    requires i < |m|
    ensures (p + m + s)[|p| + i := e] == p + m[i := e] + s
  {
  }

  /** Two neighbours and what lies around them. */
  lemma FlatPair(lv: Level, b: nat)
    requires b + 1 < |lv|
    ensures Flat(lv) == Flat(lv[..b]) + lv[b].ents + lv[b + 1].ents + Flat(lv[b + 2..])
    ensures Off(lv, b + 1) == Off(lv, b) + |lv[b].ents|
  {
    FlatAt(lv, b);
    var rest := lv[b + 1..];
    FlatAt(rest, 0);
    assert rest[..0] == [] && rest[1..] == lv[b + 2..];
  }

  /** Moving entries across the border of two neighbours leaves the level as it was. */
  lemma FlatShift(lv: Level, b: nat, l: seq<Entry>, r: seq<Entry>)
    requires b + 1 < |lv|
    requires l + r == lv[b].ents + lv[b + 1].ents
    ensures var lv' := lv[b := Blk(lv[b].id, l)][b + 1 := Blk(lv[b + 1].id, r)];
            && Flat(lv') == Flat(lv)
            && Off(lv', b) == Off(lv, b)
            && Off(lv', b + 1) == Off(lv, b) + |l|
  {
    var lv' := lv[b := Blk(lv[b].id, l)][b + 1 := Blk(lv[b + 1].id, r)];
    FlatPair(lv, b);
    FlatPair(lv', b);
    assert lv'[..b] == lv[..b] && lv'[b + 2..] == lv[b + 2..];
    Regroup(Flat(lv[..b]), l, r, Flat(lv[b + 2..]));
    Regroup(Flat(lv[..b]), lv[b].ents, lv[b + 1].ents, Flat(lv[b + 2..]));
  }

  lemma Regroup(p: seq<Entry>, l: seq<Entry>, r: seq<Entry>, q: seq<Entry>)
    ensures p + l + r + q == p + (l + r) + q
  {
  }

  /** A position past the end of a block that is not the last entry of the level has a block to its right. */
  lemma HasNext(lv: Level, b: nat)
    requires b < |lv| && Off(lv, b) + |lv[b].ents| < |Flat(lv)|
    ensures b + 1 < |lv|
  {
    FlatAt(lv, b);
  }

  /**
   * One step of writing a changed first key to the levels above: entry k of the upper
   * level gets the first key of its child.
   */
  lemma SetKeyStep(up: Level, lo: Level, b: nat, ptr: int, k: nat)
    requires LinkedBut(up, lo, k) && Points(up, b, ptr, k) && k < |lo|
    ensures var e := Entry(lo[k].ents[0].key, up[b].ents[ptr - 1].child);
            var up' := up[b := Blk(up[b].id, up[b].ents[ptr - 1 := e])];
            Linked(up', lo) && SameShape(up, up')
  {
    FlatIndex(up, b, ptr - 1);
    var e := Entry(lo[k].ents[0].key, up[b].ents[ptr - 1].child);
    FlatSetEntry(up, b, ptr - 1, e);
  }

  /** Changing a key of the lower level disturbs the upper one only at a first key. */
  lemma KeyChangeAbove(up: Level, lo: Level, b: nat, i: nat, e: Entry)
    requires Linked(up, lo) && b < |lo| && i < |lo[b].ents|
    ensures var lo' := lo[b := Blk(lo[b].id, lo[b].ents[i := e])];
            if i == 0 then LinkedBut(up, lo', b) else Linked(up, lo')
  {
  }

  lemma SameShapeTrans(x: Level, y: Level, z: Level)
    requires SameShape(x, y) && SameShape(y, z)
    ensures SameShape(x, z)
  {
    forall i | 0 <= i < |x| ensures SameBlk(x[i], z[i]) {
      assert SameBlk(x[i], y[i]) && SameBlk(y[i], z[i]);
    }
  }

  /** The last entry of a block is followed by the first of the next block. */
  lemma NextEntry(lv: Level, b: nat, ptr: int, k: int)
    requires Points(lv, b, ptr, k) && ptr == |lv[b].ents| && k + 1 < |Flat(lv)| && NonEmpty(lv)
    ensures Points(lv, b + 1, 1, k + 1)
  {
    FlatAt(lv, b);
    HasNext(lv, b);
  }

  /** The first entry of a block is preceded by the last of the block before. */
  lemma PrevEntry(lv: Level, b: nat, k: int)
    requires Points(lv, b, 1, k) && k > 0 && NonEmpty(lv)
    ensures b > 0 && Points(lv, b - 1, |lv[b - 1].ents|, k - 1)
  {
    if b > 0 {
      FlatAt(lv, b - 1);
    }
    OffFull(lv);
  }

  lemma SizedShape(x: Level, y: Level, lo: nat, hi: nat)
    requires SameShape(x, y) && Sized(x, lo, hi)
    ensures Sized(y, lo, hi)
  {
    forall i | 0 <= i < |y| ensures lo <= |y[i].ents| <= hi {
      assert SameBlk(x[i], y[i]);
    }
  }

  /** An entry put into a block is an entry put into the level. */
  lemma FlatIns(lv: Level, b: nat, i: nat, e: Entry)
    requires b < |lv| && i <= |lv[b].ents|
    ensures Off(lv, b) + i <= |Flat(lv)|
    ensures Flat(lv[b := Blk(lv[b].id, Ins(lv[b].ents, i, e))]) == Ins(Flat(lv), Off(lv, b) + i, e)
  {
    FlatAt(lv, b);
    FlatReplace(lv, b, Ins(lv[b].ents, i, e));
    InsInMiddle(Flat(lv[..b]), lv[b].ents, Flat(lv[b + 1..]), i, e);
  }

  lemma InsInMiddle(p: seq<Entry>, m: seq<Entry>, s: seq<Entry>, i: nat, e: Entry)
    requires i <= |m|
    ensures Ins(p + m + s, |p| + i, e) == p + Ins(m, i, e) + s
  {
  }

  /** An entry taken out of a block is an entry taken out of the level. */
  lemma FlatDel(lv: Level, b: nat, i: nat)
    requires b < |lv| && i < |lv[b].ents|
    ensures Off(lv, b) + i < |Flat(lv)|
    ensures Flat(lv[b := Blk(lv[b].id, Del(lv[b].ents, i))]) == Del(Flat(lv), Off(lv, b) + i)
  {
    hide Flat, Del;
    FlatAt(lv, b);
    FlatReplace(lv, b, Del(lv[b].ents, i));
    DelInMiddle(Flat(lv[..b]), lv[b].ents, Flat(lv[b + 1..]), i);
  }

  lemma DelInMiddle(p: seq<Entry>, m: seq<Entry>, s: seq<Entry>, i: nat)
    requires i < |m|
    ensures Del(p + m + s, |p| + i) == p + Del(m, i) + s
  {
  }

  /** The upper level leads to all blocks but the x-th; its entry is still to come. */
  lemma PendingIns(es: seq<Entry>, lo: Level, x: nat)
    requires 0 < x < |lo| && lo[x].ents != [] && HeadsBut(es, Del(lo, x), -1)
    ensures HeadsBut(Ins(es, x, Entry(lo[x].ents[0].key, lo[x].id)), lo, -1)
  {
    var es' := Ins(es, x, Entry(lo[x].ents[0].key, lo[x].id));
    var d := Del(lo, x);
    assert forall k :: 0 <= k < x ==> lo[k] == d[k] && es'[k] == es[k];
    assert forall k :: x < k < |lo| ==> lo[k] == d[k - 1] && es'[k] == es[k - 1];
  }
}
