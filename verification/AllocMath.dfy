/** The arithmetic of an allocation request: alignment, and trimming of the length. */
module AllocMath {
  import opened Records
  import opened Arith

  const U32: int := 0x1_0000_0000

  /** What a 32-bit register holds of an integer, read as signed. */
  function Int32(x: int): int {
    var u := x % U32;
    if u < 0x8000_0000 then u else u - U32
  }

  function RoundUp(x: nat, y: nat): nat
    requires y > 0
  {
    (x + (y - 1)) / y * y
  }

  /** The least multiple not below. */
  lemma RoundUpLeast(x: nat, y: nat)
    requires y > 0
    ensures RoundUp(x, y) % y == 0 && x <= RoundUp(x, y) < x + y
    ensures forall b: nat :: b % y == 0 && x <= b ==> RoundUp(x, y) <= b
  {
    var q, r := (x + (y - 1)) / y, (x + (y - 1)) % y;
    assert x + (y - 1) == q * y + r;
    ModIs(q * y, y, q, 0);
    forall b: nat | b % y == 0 && x <= b ensures q * y <= b {
      var k := b / y;
      assert b == k * y;
      if k < q {
        MulGap(k, q, y);
      }
    }
  }

  ghost predicate Multiple(b: int, y: nat)
    requires y > 0
  {
    b % y == 0
  }

  /** Rounding up finds the multiple at or above, the one before it lies below, and there is none between. */
  lemma RoundUpNext(x: nat, y: nat)
    requires y > 0
    ensures Multiple(RoundUp(x, y), y) && x <= RoundUp(x, y) < x + y
    ensures forall b: nat :: Multiple(b, y) ==> RoundUp(x, y) <= b || b + y <= RoundUp(x, y)
    ensures Multiple(RoundUp(x, y) - y, y)
  {
    RoundUpLeast(x, y);
    var up := RoundUp(x, y);
    var q := up / y;
    assert up == q * y;
    assert (q - 1) * y == q * y - y;
    ModIs(up - y, y, q - 1, 0);
    forall b: nat | Multiple(b, y) && b < up ensures b + y <= up {
      var k := b / y;
      assert b == k * y;
      if k >= q {
        MulGap(q, k + 1, y);
      }
      MulGap(k, q, y);
    }
  }

  /** The part of a free extent from its first aligned block on; unaligned where it is too short anyway. */
  function Aligned(f: Rec, alignment: nat, minlen: nat): Rec {
    if alignment > 1 && f.count >= minlen then
      var bno := RoundUp(f.start, alignment);
      var diff := bno - f.start;
      RoundUpLeast(f.start, alignment);
      Rec(bno, if diff >= f.count then 0 else f.count - diff)
    else
      f
  }

  /** n blocks from b on are in the extent, and b is a multiple of the alignment. */
  ghost predicate FitsAt(f: Rec, alignment: nat, b: nat, n: nat)
    requires alignment > 0
  {
    Multiple(b, alignment) && f.start <= b && b + n <= f.start + f.count
  }

  /** No aligned place in the extent is longer; and where the extent is long enough, this is one. */
  lemma AlignedBest(f: Rec, alignment: nat, minlen: nat)
    requires alignment > 0
    ensures var a := Aligned(f, alignment, minlen);
            && a.count <= f.count
            && (a.count > 0 ==> f.start <= a.start && a.start + a.count <= f.start + f.count)
            && (f.count >= minlen && a.count > 0 ==> FitsAt(f, alignment, a.start, a.count))
            && (f.count < minlen ==> a.count < minlen)
            && (f.count >= alignment - 1 + minlen ==> a.count >= f.count - (alignment - 1))
    ensures forall b: nat, n: nat :: n > 0 && FitsAt(f, alignment, b, n) ==> n <= Aligned(f, alignment, minlen).count
  {
    RoundUpLeast(f.start, alignment);
  }

  function Dist(a: nat, b: nat): nat {
    if a <= b then b - a else a - b
  }

  /** The best start for wantlen blocks near wantbno in a free extent; NULLAGBLOCK if it finds none. */
  function BestStart(wantbno: nat, wantlen: nat, alignment: nat, freebno: nat, freelen: nat): nat
    requires alignment > 0 && freelen >= wantlen
  {
    var freeend, wantend := freebno + freelen, wantbno + wantlen;
    RoundUpLeast(wantbno, alignment);
    if freebno >= wantbno then
      var newbno := RoundUp(freebno, alignment);
      if newbno >= freeend then NULLAGBLOCK else newbno
    else if freeend >= wantend && alignment > 1 then
      var newbno1 := RoundUp(wantbno, alignment);
      var newbno2 := newbno1 - alignment;
      if newbno1 >= freeend then
        (if newbno2 < freebno then NULLAGBLOCK else newbno2)
      else if newbno2 < freebno then
        newbno1
      else
        var newlen1, newlen2 := Least(wantlen, freeend - newbno1), Least(wantlen, freeend - newbno2);
        if newlen1 < newlen2 || (newlen1 == newlen2 && Dist(newbno1, wantbno) > Dist(newbno2, wantbno)) then newbno2
        else newbno1
    else if freeend >= wantend then
      wantbno
    else if alignment > 1 then
      var newbno := RoundUp(freeend - wantlen, alignment);
      if newbno > freeend - wantlen && newbno - alignment >= freebno then newbno - alignment
      else if newbno >= freeend then NULLAGBLOCK
      else newbno
    else
      freeend - wantlen
  }

  /** If wantlen blocks fit somewhere aligned, the best start is such a place, and none is nearer to the one wanted. */
  lemma BestStartNearest(wantbno: nat, wantlen: nat, alignment: nat, freebno: nat, freelen: nat)
    requires alignment > 0 && 0 < wantlen <= Aligned(Rec(freebno, freelen), alignment, wantlen).count
    requires freebno + freelen <= NULLAGBLOCK
    ensures Aligned(Rec(freebno, freelen), alignment, wantlen).count <= freelen
    ensures var best := BestStart(wantbno, wantlen, alignment, freebno, freelen);
            && best != NULLAGBLOCK
            && FitsAt(Rec(freebno, freelen), alignment, best, wantlen)
            && forall b: nat :: FitsAt(Rec(freebno, freelen), alignment, b, wantlen) ==> Dist(best, wantbno) <= Dist(b, wantbno)
  {
    RoundUpNext(freebno, alignment);
    RoundUpNext(wantbno, alignment);
    RoundUpNext(freebno + freelen - wantlen, alignment);
    hide RoundUp, Multiple;
  }
}
