/** Reading the mapping of a range of a file. */
module BmapRead {
  import opened Arith
  import opened ExtentMap
  import opened BmapFork

  /** Where a piece of the range is on disk. */
  datatype Place = HoleStart | DelayStart | At(bno: nat)

  datatype Piece = Piece(startoff: nat, place: Place, count: nat, unwritten: bool) {
    function End(): nat { startoff + count }
  }

  /** The piece tells what the file has at the offset; its state may be left out of account. */
  ghost predicate Tells(p: Piece, o: int, m: Mapping, igstate: bool)
    requires p.startoff <= o
  {
    match p.place
    case HoleStart => m == Hole && !p.unwritten
    case DelayStart => m == Delayed
    case At(b) => m.Mapped? && m.bno == b + (o - p.startoff) && (igstate || m.unwritten == p.unwritten)
  }

  /** All offsets of the piece are as it tells. */
  ghost predicate TellsAll(p: Piece, exts: seq<Irec>, igstate: bool) {
    forall o: int :: p.startoff <= o < p.End() ==> Tells(p, o, MapOf(exts, o), igstate)
  }

  /** The pieces follow one another from lo to hi, none of them empty, and tell what the file has. */
  ghost predicate Tiles(mval: seq<Piece>, exts: seq<Irec>, lo: nat, hi: nat, igstate: bool) {
    && lo <= hi
    && (mval == [] ==> lo == hi)
    && (mval != [] ==> mval[0].startoff == lo && mval[|mval| - 1].End() == hi)
    && (forall i :: 0 <= i < |mval| - 1 ==> mval[i].End() == mval[i + 1].startoff)
    && (forall i :: 0 <= i < |mval| ==> mval[i].count > 0 && TellsAll(mval[i], exts, igstate))
  }

  lemma TilesMore(mval: seq<Piece>, exts: seq<Irec>, lo: nat, hi: nat, igstate: bool, p: Piece)
    requires Tiles(mval, exts, lo, hi, igstate)
    requires p.startoff == hi && p.count > 0 && TellsAll(p, exts, igstate)
    ensures Tiles(mval + [p], exts, lo, p.End(), igstate)
  {
  }

  /** Whether piece p can be made one with the last piece. */
  predicate Merges(last: Piece, p: Piece, igstate: bool) {
    if p.place.At? then
      last.place.At? && p.place.bno == last.place.bno + last.count && (igstate || last.unwritten == p.unwritten)
    else
      p.place.DelayStart? && last.place.DelayStart? && p.startoff == last.End()
  }

  /** No two pieces in a row could be made one. */
  ghost predicate Parted(mval: seq<Piece>, igstate: bool) {
    forall i :: 0 <= i < |mval| - 1 ==> !Merges(mval[i], mval[i + 1], igstate)
  }

  lemma PartedMerged(mval: seq<Piece>, igstate: bool, q: Piece)
    requires Parted(mval, igstate) && mval != []
    requires q.place == mval[|mval| - 1].place && q.startoff == mval[|mval| - 1].startoff
    requires q.place.At? ==> q.unwritten == mval[|mval| - 1].unwritten
    ensures Parted(mval[|mval| - 1 := q], igstate)
  {
  }

  /** An offset where an extent starts or ends. */
  ghost predicate Edge(exts: seq<Irec>, o: int) {
    exists i :: 0 <= i < |exts| && (exts[i].startoff == o || exts[i].End() == o)
  }

  lemma TilesMerged(mval: seq<Piece>, exts: seq<Irec>, lo: nat, hi: nat, igstate: bool, p: Piece, q: Piece)
    requires Tiles(mval, exts, lo, hi, igstate) && mval != []
    requires p.startoff == hi && p.count > 0 && TellsAll(p, exts, igstate) && Merges(mval[|mval| - 1], p, igstate)
    requires var last := mval[|mval| - 1];
             q == Piece(last.startoff, last.place, last.count + p.count, if last.place.At? then last.unwritten else p.unwritten)
    ensures Tiles(mval[|mval| - 1 := q], exts, lo, p.End(), igstate)
  {
    var last := mval[|mval| - 1];
    assert TellsAll(last, exts, igstate);
    forall o: int | q.startoff <= o < q.End() ensures Tells(q, o, MapOf(exts, o), igstate) {
      assert if o < last.End() then Tells(last, o, MapOf(exts, o), igstate) else Tells(p, o, MapOf(exts, o), igstate);
    }
  }

  /** The walk is at the first extent that ends after bno. */
  ghost predicate AtExtent(exts: seq<Irec>, bno: nat, lastx: nat) {
    && lastx <= |exts|
    && (lastx > 0 ==> exts[lastx - 1].End() <= bno)
    && (lastx < |exts| ==> bno < exts[lastx].End())
  }

  lemma HoleHere(exts: seq<Irec>, bno: nat, lastx: nat, p: Piece, igstate: bool)
    requires Wf(exts) && AtExtent(exts, bno, lastx) && p.startoff == bno && p.place == HoleStart && !p.unwritten
    requires lastx < |exts| ==> p.End() <= exts[lastx].startoff
    ensures TellsAll(p, exts, igstate)
  {
    hide Wf;
    forall o: int | p.startoff <= o < p.End() ensures MapOf(exts, o) == Hole {
      MapHole(exts, o);
      RoomSides(exts, lastx, lastx, bno, p.End());
      assert forall i :: 0 <= i < lastx ==> exts[i] == exts[..lastx][i];
      assert forall i :: lastx <= i < |exts| ==> exts[i] == exts[lastx..][i - lastx];
    }
  }

  lemma ExtentHere(exts: seq<Irec>, lastx: nat, p: Piece, igstate: bool)
    requires Wf(exts) && lastx < |exts| && exts[lastx].startoff <= p.startoff && p.End() <= exts[lastx].End()
    requires p.unwritten == exts[lastx].unwritten
    requires p.place == if exts[lastx].start.Delay? then DelayStart
              else At(exts[lastx].start.bno + (p.startoff - exts[lastx].startoff))
    ensures TellsAll(p, exts, igstate)
  {
    forall o: int | p.startoff <= o < p.End() ensures Tells(p, o, MapOf(exts, o), igstate) {
      MapAt(exts, lastx, o);
    }
  }

  /** Map the len blocks from bno0 on in at most nmap pieces; adjoining pieces are made one. */
  method Bmapi(exts: seq<Irec>, bno0: nat, len0: nat, nmap: nat, igstate: bool)
    returns (mval: seq<Piece>, ghost hi: nat)
    requires Wf(exts) && nmap >= 1
    ensures |mval| <= nmap && hi <= bno0 + len0 && Tiles(mval, exts, bno0, hi, igstate) && Parted(mval, igstate)
    ensures hi < bno0 + len0 ==> |mval| == nmap && Edge(exts, hi)
  {
    hide Wf, MapOf, Tiles, TellsAll, Parted, Edge;
    var bno: nat, len: nat, end: nat := bno0, len0, bno0 + len0;
    var eof: bool, lastx: nat := SearchExtents(exts, bno);
    SearchedAt(exts, bno, lastx);
    mval := [];
    hi := bno0;
    TilesNone(exts, bno0, igstate);
    while bno < end && |mval| < nmap
      invariant bno <= end && len == end - bno && |mval| <= nmap
      invariant AtExtent(exts, bno, lastx) && eof == (lastx == |exts|)
      invariant Tiles(mval, exts, bno0, bno, igstate) && Parted(mval, igstate) && hi == bno
      invariant mval != [] && bno < end ==> Edge(exts, bno)
      decreases end - bno
    {
      var startoff := if eof then end else exts[lastx].startoff;
      if eof || startoff > bno {
        var hole := Piece(bno, HoleStart, Least(len, startoff - bno), false);
        HoleHere(exts, bno, lastx, hole, igstate);
        TilesMore(mval, exts, bno0, bno, igstate, hole);
        PartedMore(mval, igstate, hole);
        mval := mval + [hole];
        HoleNext(exts, bno, lastx, hole.count);
        bno := bno + hole.count;
        hi := bno;
        if !eof && bno < end {
          AtEdge(exts, lastx, bno);
        }
        len := len - hole.count;
        continue;
      }
      var got := exts[lastx];
      var place := if got.start.Delay? then DelayStart else At(got.start.bno + (bno - got.startoff));
      var p := Piece(bno, place, Least(end - bno, got.count - (bno - got.startoff)), got.unwritten);
      ExtentHere(exts, lastx, p, igstate);
      mval := Emit(mval, p, exts, bno0, igstate, nmap);
      bno := p.End();
      hi := bno;
      len := end - bno;
      if bno < end {
        AtEdge(exts, lastx, bno);
      }
      if bno >= end || |mval| >= nmap {
        break;
      }
      lastx := lastx + 1;
      NextAt(exts, lastx, bno);
      eof := lastx == |exts|;
    }
  }

  lemma TilesNone(exts: seq<Irec>, lo: nat, igstate: bool)
    ensures Tiles([], exts, lo, lo, igstate) && Parted([], igstate)
  {
  }

  lemma PartedMore(mval: seq<Piece>, igstate: bool, p: Piece)
    requires Parted(mval, igstate) && (mval != [] ==> !Merges(mval[|mval| - 1], p, igstate))
    ensures Parted(mval + [p], igstate)
  {
  }

  lemma AtEdge(exts: seq<Irec>, i: nat, o: int)
    requires i < |exts| && (exts[i].startoff == o || exts[i].End() == o)
    ensures Edge(exts, o)
  {
  }

  lemma SearchedAt(exts: seq<Irec>, bno: nat, lastx: nat)
    requires FirstAfter(exts, bno, lastx)
    ensures AtExtent(exts, bno, lastx)
  {
  }

  lemma HoleNext(exts: seq<Irec>, bno: nat, lastx: nat, n: nat)
    requires Wf(exts) && AtExtent(exts, bno, lastx) && (lastx < |exts| ==> bno + n <= exts[lastx].startoff)
    ensures AtExtent(exts, bno + n, lastx)
  {
  }

  lemma NextAt(exts: seq<Irec>, lastx: nat, bno: nat)
    requires Wf(exts) && 0 < lastx <= |exts| && bno == exts[lastx - 1].End()
    ensures AtExtent(exts, bno, lastx)
  {
    assert lastx < |exts| ==> exts[lastx - 1].End() <= exts[lastx].startoff;
  }

  /** Put out a piece, joined with the last one if it can be. */
  method Emit(mval0: seq<Piece>, p: Piece, ghost exts: seq<Irec>, ghost lo: nat, igstate: bool, nmap: nat)
      returns (mval: seq<Piece>)
    requires Tiles(mval0, exts, lo, p.startoff, igstate) && p.count > 0 && TellsAll(p, exts, igstate) && |mval0| < nmap
    requires !p.place.HoleStart? && Parted(mval0, igstate)
    ensures Tiles(mval, exts, lo, p.End(), igstate) && 0 < |mval| <= nmap && Parted(mval, igstate)
  {
    var n := |mval0|;
    if n > 0 && p.startoff == mval0[n - 1].startoff {
      assert false;
    } else if n > 0 && p.place.At? && mval0[n - 1].place.At?
              && p.place.bno == mval0[n - 1].place.bno + mval0[n - 1].count
              && (igstate || mval0[n - 1].unwritten == p.unwritten) {
      var q := mval0[n - 1].(count := mval0[n - 1].count + p.count);
      TilesMerged(mval0, exts, lo, p.startoff, igstate, p, q);
      PartedMerged(mval0, igstate, q);
      mval := mval0[n - 1 := q];
    } else if n > 0 && p.place.DelayStart? && mval0[n - 1].place.DelayStart? && p.startoff == mval0[n - 1].End() {
      var q := mval0[n - 1].(count := mval0[n - 1].count + p.count, unwritten := p.unwritten);
      TilesMerged(mval0, exts, lo, p.startoff, igstate, p, q);
      PartedMerged(mval0, igstate, q);
      mval := mval0[n - 1 := q];
    } else {
      TilesMore(mval0, exts, lo, p.startoff, igstate, p);
      mval := mval0 + [p];
    }
  }

  /** The block at an offset, or that there is none. There must be no delayed extent. */
  method BmapiSingle(exts: seq<Irec>, bno: nat) returns (place: Place)
    requires Wf(exts) && MapOf(exts, bno) != Delayed
    ensures match MapOf(exts, bno) {
              case Hole => place == HoleStart
              case Mapped(b, _) => place == At(b)
              case Delayed => false
            }
  {
    var eof, lastx := SearchExtents(exts, bno);
    if eof || exts[lastx].startoff > bno {
      HoleHere(exts, bno, lastx, Piece(bno, HoleStart, 1, false), true);
      assert Tells(Piece(bno, HoleStart, 1, false), bno, MapOf(exts, bno), true);
      return HoleStart;
    }
    MapAt(exts, lastx, bno);
    place := At(exts[lastx].start.bno + (bno - exts[lastx].startoff));
  }

  /** The two ways to ask for one block give one answer. */
  method BothWays(exts: seq<Irec>, bno: nat, igstate: bool) returns (place: Place, mval: seq<Piece>)
    requires Wf(exts) && MapOf(exts, bno) != Delayed
    ensures |mval| == 1 && mval[0].startoff == bno && mval[0].count == 1 && mval[0].place == place
  {
    place := BmapiSingle(exts, bno);
    ghost var hi;
    mval, hi := Bmapi(exts, bno, 1, 1, igstate);
    OneTile(mval, exts, bno, hi, igstate, place);
  }

  lemma OneTile(mval: seq<Piece>, exts: seq<Irec>, bno: nat, hi: nat, igstate: bool, place: Place)
    requires |mval| <= 1 && hi <= bno + 1 && Tiles(mval, exts, bno, hi, igstate) && (hi < bno + 1 ==> |mval| == 1)
    requires if place.At? then MapOf(exts, bno).Mapped? && MapOf(exts, bno).bno == place.bno
             else place.HoleStart? && MapOf(exts, bno) == Hole
    ensures |mval| == 1 && mval[0].startoff == bno && mval[0].count == 1 && mval[0].place == place
  {
    assert |mval| == 1;
    assert TellsAll(mval[0], exts, igstate);
    assert Tells(mval[0], bno, MapOf(exts, bno), igstate);
  }
}
