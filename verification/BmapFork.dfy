/** The extents of a file fork: the list in memory, and the btree's records by the contract of its cursor. */
module BmapFork {
  import opened ExtentMap

  /**
   * A cursor on the btree of a fork: the records in order, how many are before the cursor, and the record to look
   * up or insert. Its operations promise what those of the generic btree do.
   */
  class Bmbt {
    var recs: seq<Irec>
    var at: int
    var rec: Irec

    constructor (recs: seq<Irec>)
      ensures this.recs == recs
    {
      this.recs, at := recs, 0;
    }

    /** Find the record that starts at this offset, or the place for it. */
    method LookupEq(startoff: nat, start: Start, count: nat) returns (stat: bool)
      modifies `at, `rec
      ensures 0 <= at <= |recs|
      ensures forall i :: 0 <= i < at ==> recs[i].startoff < startoff
      ensures at < |recs| ==> startoff <= recs[at].startoff
      ensures stat == (at < |recs| && recs[at].startoff == startoff)
      ensures rec == Irec(startoff, start, count, old(rec).unwritten)
    {
      rec := Irec(startoff, start, count, rec.unwritten);
      at := 0;
      while at < |recs| && recs[at].startoff < startoff
        invariant 0 <= at <= |recs| && rec == Irec(startoff, start, count, old(rec).unwritten)
        invariant forall i :: 0 <= i < at ==> recs[i].startoff < startoff
      {
        at := at + 1;
      }
      stat := at < |recs| && recs[at].startoff == startoff;
    }

    method Update(startoff: nat, start: Start, count: nat, unwritten: bool)
      requires 0 <= at < |recs|
      modifies `recs
      ensures recs == old(recs)[at := Irec(startoff, start, count, unwritten)]
    {
      recs := recs[at := Irec(startoff, start, count, unwritten)];
    }

    /** Delete the record at the cursor, which then is where that was. */
    method Delete() returns (stat: bool)
      modifies `recs
      ensures stat == (0 <= at < |old(recs)|)
      ensures recs == if stat then old(recs)[..at] + old(recs)[at + 1..] else old(recs)
    {
      stat := 0 <= at < |recs|;
      if stat {
        recs := recs[..at] + recs[at + 1..];
      }
    }

    /** Insert the cursor's record at the cursor, which afterwards can not be trusted. */
    method Insert() returns (stat: bool)
      modifies `recs, `at
      ensures stat == (0 <= old(at) <= |old(recs)|)
      ensures recs == if stat then old(recs)[..old(at)] + [rec] + old(recs)[old(at)..] else old(recs)
    {
      stat := 0 <= at <= |recs|;
      if stat {
        recs := recs[..at] + [rec] + recs[at..];
        at := -1;
      }
    }

    method Increment() returns (stat: bool)
      requires at < |recs|
      modifies `at
      ensures at == old(at) + 1 && stat == (at < |recs|)
    {
      at := at + 1;
      stat := at < |recs|;
    }

    method Decrement() returns (stat: bool)
      requires at >= 0
      modifies `at
      ensures at == old(at) - 1 && stat == (at >= 0)
    {
      at := at - 1;
      stat := at >= 0;
    }
  }

  /** The fork: extents in memory, the number of those on disk, the last one used, and the btree if there is one. */
  class Fork {
    var exts: seq<Irec>
    var nextents: int
    var lastex: int
    const tree: Bmbt?

    constructor (exts: seq<Irec>, tree: Bmbt?)
      requires Wf(exts) && (tree != null ==> tree.recs == Reals(exts))
      ensures Valid() && this.exts == exts && this.tree == tree
    {
      this.exts, nextents, lastex, this.tree := exts, |Reals(exts)|, 0, tree;
    }

    /** The list is in order, the count is right, and the btree has the extents with blocks. */
    ghost predicate Valid()
      reads this, tree
    {
      && Wf(exts)
      && nextents == |Reals(exts)|
      && (tree != null ==> tree.recs == Reals(exts))
    }

    /** Take n extents out of the list. */
    method Remove(idx: nat, n: nat)
      requires idx + n <= |exts|
      modifies `exts
      ensures exts == Splice(old(exts), idx, idx + n, [])
    {
      exts := exts[..idx] + exts[idx + n..];
    }

    /** Put extents into the list. */
    method InsertExts(idx: nat, more: seq<Irec>)
      requires idx <= |exts|
      modifies `exts
      ensures exts == Splice(old(exts), idx, idx, more)
    {
      exts := exts[..idx] + more + exts[idx..];
    }
  }

  /** The extents with blocks are extents of the list, in the same order. */
  lemma {:induction false} RealsIn(exts: seq<Irec>, r: Irec)
    requires r in Reals(exts)
    ensures r in exts
  {
    if exts[0].start.Delay? || r != exts[0] {
      RealsIn(exts[1..], r);
    }
  }

  lemma RestAbove(exts: seq<Irec>)
    requires Wf(exts) && exts != []
    ensures Wf(exts[1..]) && Above(Reals(exts[1..]), exts[0].End())
  {
    hide Reals;
    var rest := Reals(exts[1..]);
    forall k | 0 <= k < |rest| ensures exts[0].End() <= rest[k].startoff {
      RealsIn(exts[1..], rest[k]);
      var j :| 0 <= j < |exts[1..]| && exts[1..][j] == rest[k];
      assert exts[j + 1] == rest[k];
    }
  }

  lemma {:induction false} RealsWf(exts: seq<Irec>)
    requires Wf(exts)
    ensures Wf(Reals(exts))
  {
    if exts != [] {
      RestAbove(exts);
      RealsWf(exts[1..]);
      RealsFirst(exts, Reals(exts[1..]));
    }
  }

  lemma RealsFirst(exts: seq<Irec>, rest: seq<Irec>)
    requires Wf(exts) && exts != [] && Wf(rest) && Above(rest, exts[0].End())
    ensures Wf([exts[0]] + rest)
  {
    assert Wf([exts[0]]) && Below([exts[0]], exts[0].End());
    ConcatWf([exts[0]], rest, exts[0].End());
  }

  /** Looking for a record that is there. */
  method Locate(t: Bmbt, startoff: nat, start: Start, count: nat, ghost k: nat)
    requires Wf(t.recs) && k < |t.recs| && t.recs[k].startoff == startoff
    modifies t`at, t`rec
    ensures t.at == k && t.rec == Irec(startoff, start, count, old(t.rec).unwritten)
  {
    var stat := t.LookupEq(startoff, start, count);
    assert forall i :: 0 <= i < k ==> t.recs[i].startoff < t.recs[i].End() <= t.recs[k].startoff;
  }

  /** Extent lastx is the first that ends after offset bno. */
  ghost predicate FirstAfter(exts: seq<Irec>, bno: int, lastx: nat) {
    && lastx <= |exts|
    && (forall i :: 0 <= i < lastx ==> exts[i].End() <= bno)
    && (forall i :: lastx <= i < |exts| ==> bno < exts[i].End())
    && (forall i :: lastx < i < |exts| ==> bno < exts[i].startoff)
  }

  /** Find the extent that has the offset, or else the next one, by halving. */
  method SearchExtents(exts: seq<Irec>, bno: nat) returns (eof: bool, lastx: nat)
    requires Wf(exts)
    ensures FirstAfter(exts, bno, lastx) && eof == (lastx == |exts|)
  {
    hide Sized;
    if |exts| == 0 {
      return true, 0;
    }
    var low, high := 0, |exts| - 1;
    var idx := 0;
    while low <= high
      invariant 0 <= low <= high + 1 <= |exts| && 0 <= idx < |exts|
      invariant forall i :: 0 <= i < low ==> exts[i].End() <= bno
      invariant forall i :: high < i < |exts| ==> bno < exts[i].startoff
      invariant low > 0 || high < |exts| - 1 ==> idx == low - 1 || idx == high + 1
    {
      idx := (low + high) / 2;
      assert forall i :: 0 <= i < idx ==> exts[i].End() <= exts[idx].startoff;
      assert forall i :: idx < i < |exts| ==> exts[idx].End() <= exts[i].startoff;
      if bno < exts[idx].startoff {
        high := idx - 1;
      } else if bno >= exts[idx].End() {
        low := idx + 1;
      } else {
        return false, idx;
      }
    }
    if bno >= exts[idx].End() {
      idx := idx + 1;
    }
    eof, lastx := idx == |exts|, idx;
  }
}
