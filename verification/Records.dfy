/** Free-extent records and the two orders the allocation btrees keep them in. */
module Records {

  /** The null block number; no btree block lives there. */
  const NULLAGBLOCK: nat := 0xffff_ffff

  /** The most blocks of an allocation group: 1 TB of the smallest blocks, of 512 bytes. */
  const MaxAgBlocks: nat := 0x8000_0000

  /** One free extent. A btree key carries the same two fields as a record. */
  datatype Rec = Rec(start: nat, count: nat)

  /** The by-block and the by-size tree. */
  datatype Kind = Bno | Cnt

  /** Signed difference of a key to the record looked up: negative when the key is smaller. */
  function KeyDiff(kind: Kind, key: Rec, rec: Rec): int {
    if kind == Bno then key.start - rec.start
    else
      var diff := key.count - rec.count;
      if diff != 0 then diff else key.start - rec.start
  }

  predicate Before(kind: Kind, a: Rec, b: Rec) {
    KeyDiff(kind, a, b) < 0
  }

  /** The by-block tree has its extents in the order of their starts, the by-size tree in that of their lengths first. */
  lemma BeforeIs(a: Rec, b: Rec)
    ensures Before(Bno, a, b) <==> a.start < b.start
    ensures Before(Cnt, a, b) <==> a.count < b.count || (a.count == b.count && a.start < b.start)
    ensures a != b ==> Before(Cnt, a, b) || Before(Cnt, b, a)
  {
  }

  /** Strictly increasing in the order of the tree. */
  ghost predicate Sorted(kind: Kind, recs: seq<Rec>) {
    forall i, j :: 0 <= i < j < |recs| ==> Before(kind, recs[i], recs[j])
  }

  /** The length of the last extent, 0 when there is none: in by-size order, the longest. */
  ghost function LastCount(recs: seq<Rec>): nat {
    if recs == [] then 0 else recs[|recs| - 1].count
  }

  /** In by-size order the last extent is the longest. */
  lemma LastIsLongest(recs: seq<Rec>)
    requires Sorted(Cnt, recs)
    ensures forall i :: 0 <= i < |recs| ==> recs[i].count <= LastCount(recs)
  {
    forall i | 0 <= i < |recs| ensures recs[i].count <= LastCount(recs) {
      assert i < |recs| - 1 ==> Before(Cnt, recs[i], recs[|recs| - 1]);
    }
  }
}
