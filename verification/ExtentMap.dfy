/** Extent lists of a file and the map from file offsets to blocks they stand for. */
module ExtentMap {

  /** The most blocks of one extent: 21 bits hold its length. */
  const MAXEXTLEN: nat := 0x1f_ffff

  /** Where an extent starts: at a block, or nowhere yet, with blocks reserved for the btree to come. */
  datatype Start = Block(bno: nat) | Delay(indlen: nat)

  datatype Irec = Irec(startoff: nat, start: Start, count: nat, unwritten: bool) {
    function End(): nat { startoff + count }
  }

  /** What the file has at an offset. */
  datatype Mapping = Hole | Delayed | Mapped(bno: nat, unwritten: bool)

  predicate Has(r: Irec, o: int) {
    r.startoff <= o < r.End()
  }

  function MapIn(r: Irec, o: int): Mapping
    requires Has(r, o)
  {
    if r.start.Delay? then Delayed else Mapped(r.start.bno + (o - r.startoff), r.unwritten)
  }

  /** The map a list of extents stands for. */
  function MapOf(exts: seq<Irec>, o: int): Mapping {
    if exts == [] then Hole
    else if Has(exts[0], o) then MapIn(exts[0], o)
    else MapOf(exts[1..], o)
  }

  ghost predicate Sized(exts: seq<Irec>) {
    forall i :: 0 <= i < |exts| ==> 0 < exts[i].count <= MAXEXTLEN
  }

  ghost predicate Ordered(exts: seq<Irec>) {
    forall i, j :: 0 <= i < j < |exts| ==> exts[i].End() <= exts[j].startoff
  }

  /** Sorted, disjoint, none empty, none too long. */
  ghost predicate Wf(exts: seq<Irec>) {
    Sized(exts) && Ordered(exts)
  }

  /** The extents that have blocks: those the btree holds. */
  function Reals(exts: seq<Irec>): seq<Irec> {
    if exts == [] then []
    else if exts[0].start.Delay? then Reals(exts[1..])
    else [exts[0]] + Reals(exts[1..])
  }

  lemma {:induction false} MapConcat(a: seq<Irec>, b: seq<Irec>, o: int)
    ensures MapOf(a + b, o) == if MapOf(a, o) != Hole then MapOf(a, o) else MapOf(b, o)
  {
    if a == [] {
      assert a + b == b;
    } else {
      assert (a + b)[1..] == a[1..] + b;
      MapConcat(a[1..], b, o);
    }
  }

  lemma {:induction false} RealsConcat(a: seq<Irec>, b: seq<Irec>)
    ensures Reals(a + b) == Reals(a) + Reals(b)
  {
    if a == [] {
      assert a + b == b;
    } else {
      assert (a + b)[1..] == a[1..] + b;
      RealsConcat(a[1..], b);
    }
  }

  /** Where no extent has the offset there is a hole. */
  lemma {:induction false} MapHole(exts: seq<Irec>, o: int)
    ensures MapOf(exts, o) == Hole <==> forall i :: 0 <= i < |exts| ==> !Has(exts[i], o)
  {
    if exts != [] {
      MapHole(exts[1..], o);
      if MapOf(exts, o) == Hole {
        forall i | 0 <= i < |exts| ensures !Has(exts[i], o) {
          assert i > 0 ==> exts[i] == exts[1..][i - 1];
        }
      } else if !Has(exts[0], o) {
        var i :| 0 <= i < |exts[1..]| && Has(exts[1..][i], o);
        assert exts[i + 1] == exts[1..][i];
      }
    }
  }

  /** In an ordered list the extent that has the offset tells what is there. */
  lemma {:induction false} MapAt(exts: seq<Irec>, i: nat, o: int)
    requires Ordered(exts) && i < |exts| && Has(exts[i], o)
    ensures MapOf(exts, o) == MapIn(exts[i], o)
  {
    if i > 0 {
      assert exts[0].End() <= exts[i].startoff;
      MapAt(exts[1..], i - 1, o);
    }
  }

  /** The list with those from i to before j replaced. */
  function Splice(exts: seq<Irec>, i: nat, j: nat, mid: seq<Irec>): seq<Irec>
    requires i <= j <= |exts|
  {
    exts[..i] + mid + exts[j..]
  }

  /** The extents mid lie between offsets lo and hi. */
  ghost predicate Within(mid: seq<Irec>, lo: int, hi: int) {
    forall i :: 0 <= i < |mid| ==> lo <= mid[i].startoff && mid[i].End() <= hi
  }

  /** Offsets lo to hi lie between the extents before i and those from j on. */
  ghost predicate Room(exts: seq<Irec>, i: nat, j: nat, lo: int, hi: int)
    requires i <= j <= |exts|
  {
    && (i > 0 ==> exts[i - 1].End() <= lo)
    && (j < |exts| ==> hi <= exts[j].startoff)
  }

  /** The extents end before x, or start after it. */
  ghost predicate Below(a: seq<Irec>, x: int) {
    forall k :: 0 <= k < |a| ==> a[k].End() <= x
  }

  ghost predicate Above(a: seq<Irec>, x: int) {
    forall k :: 0 <= k < |a| ==> x <= a[k].startoff
  }

  lemma ConcatWf(a: seq<Irec>, b: seq<Irec>, x: int)
    requires Wf(a) && Wf(b) && Below(a, x) && Above(b, x)
    ensures Wf(a + b)
  {
  }

  /** All extents before i end no later than the last of them, and all from j on start no earlier than the first. */
  lemma RoomSides(exts: seq<Irec>, i: nat, j: nat, lo: int, hi: int)
    requires Wf(exts) && i <= j <= |exts| && Room(exts, i, j, lo, hi)
    ensures Wf(exts[..i]) && Wf(exts[j..]) && Below(exts[..i], lo) && Above(exts[j..], hi)
  {
    assert forall k :: 0 <= k < i - 1 ==> exts[k].End() <= exts[i - 1].startoff;
    assert forall k :: j < k < |exts| ==> exts[j].End() <= exts[k].startoff;
  }

  lemma SpliceWf(exts: seq<Irec>, i: nat, j: nat, mid: seq<Irec>, lo: int, hi: int)
    requires Wf(exts) && i <= j <= |exts| && Wf(mid)
    requires Room(exts, i, j, lo, hi) && Within(mid, lo, hi) && lo <= hi
    ensures Wf(Splice(exts, i, j, mid))
  {
    RoomSides(exts, i, j, lo, hi);
    ConcatWf(exts[..i], mid, lo);
    ConcatWf(exts[..i] + mid, exts[j..], hi);
  }

  /** Replacing extents changes the map only where they and their replacements are. */
  lemma SpliceMap(exts: seq<Irec>, i: nat, j: nat, mid: seq<Irec>, lo: int, hi: int, o: int)
    requires Wf(exts) && i <= j <= |exts|
    requires Room(exts, i, j, lo, hi) && Within(mid, lo, hi) && Within(exts[i..j], lo, hi)
    ensures MapOf(Splice(exts, i, j, mid), o) ==
            if lo <= o < hi then MapOf(mid, o) else MapOf(exts, o)
    ensures lo <= o < hi ==> MapOf(exts, o) == MapOf(exts[i..j], o)
  {
    MapConcat(exts[..i] + mid, exts[j..], o);
    MapConcat(exts[..i], mid, o);
    assert exts == exts[..i] + exts[i..j] + exts[j..];
    MapConcat(exts[..i] + exts[i..j], exts[j..], o);
    MapConcat(exts[..i], exts[i..j], o);
    MapHole(exts[..i], o);
    MapHole(exts[j..], o);
    MapHole(mid, o);
    MapHole(exts[i..j], o);
    RoomSides(exts, i, j, lo, hi);
  }

  lemma SpliceReals(exts: seq<Irec>, i: nat, j: nat, mid: seq<Irec>)
    requires i <= j <= |exts|
    ensures Reals(Splice(exts, i, j, mid)) == Reals(exts[..i]) + Reals(mid) + Reals(exts[j..])
    ensures Reals(exts) == Reals(exts[..i]) + Reals(exts[i..j]) + Reals(exts[j..])
  {
    RealsConcat(exts[..i] + mid, exts[j..]);
    RealsConcat(exts[..i], mid);
    assert exts == exts[..i] + exts[i..j] + exts[j..];
    RealsConcat(exts[..i] + exts[i..j], exts[j..]);
    RealsConcat(exts[..i], exts[i..j]);
  }

  /** Lists of one, two and three extents. */
  lemma MapFew(a: Irec, b: Irec, c: Irec, o: int)
    ensures MapOf([a], o) == if Has(a, o) then MapIn(a, o) else Hole
    ensures MapOf([a, b], o) == if Has(a, o) then MapIn(a, o) else if Has(b, o) then MapIn(b, o) else Hole
    ensures MapOf([a, b, c], o) == if Has(a, o) then MapIn(a, o) else if Has(b, o) then MapIn(b, o)
                                   else if Has(c, o) then MapIn(c, o) else Hole
  {
    assert [a, b, c][1..] == [b, c] && [b, c][1..] == [c] && [c][1..] == [];
    assert MapOf([c], o) == if Has(c, o) then MapIn(c, o) else Hole;
    assert MapOf([b, c], o) == if Has(b, o) then MapIn(b, o) else MapOf([c], o);
    assert [a, b][1..] == [b] && [b][1..] == [] && [a][1..] == [];
  }
}
