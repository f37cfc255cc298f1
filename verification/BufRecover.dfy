/** Replay of a logged buffer. */
module BufRecover {
  import opened Bits
  import opened BufSegs
  import opened BufItem

  /** The regions hold the bytes of an image, one region for each run of dirty chunks. */
  ghost predicate Recorded(m: seq<bv32>, regions: seq<seq<Byte>>, now: seq<Byte>) {
    var s := Segs(m, {}, 32 * |m|);
    && |regions| == |s|
    && forall k: nat :: k < |s| ==>
         && CHUNK * (s[k].first + s[k].count) <= |now|
         && regions[k] == now[CHUNK * s[k].first..CHUNK * (s[k].first + s[k].count)]
  }

  /** An image with the dirty chunks below n taken from another. */
  ghost predicate Patched(m: seq<bv32>, was: seq<Byte>, now: seq<Byte>, n: nat, img: seq<Byte>) {
    && |img| == |was| == |now|
    && forall o: nat :: o < |was| ==> img[o] == if o / CHUNK < n && Set(m, o / CHUNK) then now[o] else was[o]
  }

  /** A region put in its place. */
  function Paste(img: seq<Byte>, at: nat, r: seq<Byte>): seq<Byte>
    requires at + |r| <= |img|
  {
    img[..at] + r + img[at + |r|..]
  }

  lemma PatchMore(m: seq<bv32>, was: seq<Byte>, now: seq<Byte>, n: nat, img: seq<Byte>, bit: nat, count: nat)
    requires Patched(m, was, now, n, img) && n <= bit && None(m, n, bit) && Every(m, bit, bit + count)
    requires CHUNK * (bit + count) <= |now|
    ensures Patched(m, was, now, bit + count, Paste(img, CHUNK * bit, now[CHUNK * bit..CHUNK * (bit + count)]))
  {
    hide Set;
    var r := now[CHUNK * bit..CHUNK * (bit + count)];
    var p := Paste(img, CHUNK * bit, r);
    forall o: nat | o < |was|
      ensures p[o] == if o / CHUNK < bit + count && Set(m, o / CHUNK) then now[o] else was[o] {
      if CHUNK * bit <= o < CHUNK * (bit + count) {
        assert bit <= o / CHUNK < bit + count;
      } else {
        assert p[o] == img[o];
      }
    }
  }

  lemma PatchRest(m: seq<bv32>, was: seq<Byte>, now: seq<Byte>, n: nat, img: seq<Byte>)
    requires Patched(m, was, now, n, img) && n <= 32 * |m| && None(m, n, 32 * |m|)
    ensures Patched(m, was, now, 32 * |m|, img)
  {
    hide Set;
    assert forall c: nat :: Set(m, c) ==> c < 32 * |m| by {
      forall c: nat | Set(m, c) ensures c < 32 * |m| {
        SetBelow(m, c);
      }
    }
  }

  /** The run found next is the one the next region was made for. */
  lemma NextRun(m: seq<bv32>, regions: seq<seq<Byte>>, now: seq<Byte>, n: nat, bit: nat, count: nat)
    requires Recorded(m, regions, now)
    requires n <= bit && None(m, n, bit) && Set(m, bit) && Contig(m, bit, count)
    requires n == 0 || !Set(m, n - 1) || !Set(m, n)
    ensures 0 < count && bit + count <= 32 * |m|
    ensures Segs(m, {}, bit + count) == Segs(m, {}, n) + [Seg(bit, count)]
    ensures |Segs(m, {}, n)| < |regions| && CHUNK * (bit + count) <= |now|
    ensures regions[|Segs(m, {}, n)|] == now[CHUNK * bit..CHUNK * (bit + count)]
  {
    hide Set, Segs, Heads;
    var s := Segs(m, {}, 32 * |m|);
    assert count > 0 by {
      assert bit + 0 == bit;
    }
    assert Set(m, bit + count - 1);
    SetBelow(m, bit + count - 1);
    SegsGap(m, {}, n, bit);
    assert bit == 0 || !Set(m, bit - 1);
    SegsRun(m, bit, bit + count);
    SegsPrefix(m, {}, bit + count, 32 * |m|);
    assert s[|Segs(m, {}, n)|] == Seg(bit, count);
  }

  /** Copy the regions of a logged buffer back to their places. The result is one more than the regions used. */
  method RecoverBuffer(words: array<Word>, size: nat, regions: seq<seq<Byte>>, image: array<Byte>, ghost now: seq<Byte>)
    returns (i: nat)
    requires size <= words.Length && |now| == image.Length
    requires Recorded(words[..size], regions, now)
    modifies image
    ensures i == 1 + |regions|
    ensures Patched(words[..size], old(image[..]), now, 32 * size, image[..])
  {
    hide Set, Recorded, Patched, Segs, Contig, None, Every;
    ghost var m, was := words[..size], image[..];
    var bit: int := 0;
    i := 1;
    PatchNone(m, was, now);
    while true
      invariant 0 <= bit <= 32 * size && words[..size] == m
      invariant bit == 0 || !Set(m, bit)
      invariant i == 1 + |Segs(m, {}, bit)|
      invariant Patched(m, was, now, bit, image[..])
      decreases 32 * size - bit
    {
      ghost var n: nat := bit;
      bit := NextBit(words, size, bit);
      NextNone(m, n, bit);
      if bit == -1 {
        PatchRest(m, was, now, n, image[..]);
        SegsGap(m, {}, n, 32 * |m|);
        CountRegions(m, regions, now);
        break;
      }
      SetBelow(m, bit);
      var nbits := ContigBits(words, size, bit);
      NextRun(m, regions, now, n, bit, nbits);
      ContigEvery(m, bit, nbits);
      PatchMore(m, was, now, n, image[..], bit, nbits);
      CopyIn(image, bit * CHUNK, regions[i - 1]);
      i := i + 1;
      bit := bit + nbits;
    }
  }

  lemma PatchNone(m: seq<bv32>, was: seq<Byte>, now: seq<Byte>)
    requires |now| == |was|
    ensures Patched(m, was, now, 0, was)
    ensures |Segs(m, {}, 0)| == 0
  {
  }

  lemma NextNone(m: seq<bv32>, n: nat, r: int)
    requires Next(m, n, r) && -1 <= r
    ensures r == -1 ==> n <= 32 * |m| ==> None(m, n, 32 * |m|)
    ensures r != -1 ==> None(m, n, r) && n <= r && Set(m, r)
  {
  }

  lemma ContigEvery(m: seq<bv32>, start: nat, n: nat)
    requires Contig(m, start, n)
    ensures Every(m, start, start + n) && !Set(m, start + n)
  {
  }

  lemma CountRegions(m: seq<bv32>, regions: seq<seq<Byte>>, now: seq<Byte>)
    requires Recorded(m, regions, now)
    ensures |Segs(m, {}, 32 * |m|)| == |regions|
  {
  }

  method CopyIn(image: array<Byte>, at: nat, r: seq<Byte>)
    requires at + |r| <= image.Length
    modifies image
    ensures image[..] == Paste(old(image[..]), at, r)
  {
    forall j: nat | j < |r| {
      image[at + j] := r[j];
    }
  }

  /** What is read at a vector. */
  function Region(mem: int -> Byte, v: Vec): seq<Byte> {
    match v
    case Format(_) => []
    case Chunks(addr, len) => Bytes(mem, addr, len)
  }

  function Regions(mem: int -> Byte, vs: seq<Vec>): seq<seq<Byte>> {
    seq(|vs|, i requires 0 <= i < |vs| => Region(mem, vs[i]))
  }

  /** Every vector holds the bytes of the chunks it stands for, wherever the pages lie. */
  lemma VectorBytes(b: Buf, m: seq<bv32>, t: set<nat>, mem: int -> Byte, k: nat)
    requires Sound(b) && Marks(b, m, t)
    requires k < |Segs(m, Cuts(b), 32 * |m|)|
    ensures Inside(b, Segs(m, Cuts(b), 32 * |m|))
    ensures var s := Segs(m, Cuts(b), 32 * |m|);
            Region(mem, Vectors(b, s)[k]) == Image(b, mem)[CHUNK * s[k].first..CHUNK * (s[k].first + s[k].count)]
  {
    hide Set, Cuts, Addr, Marks, Image, Segs;
    var s := Segs(m, Cuts(b), 32 * |m|);
    SegsInside(b, m, t, 32 * |m|);
    SegsUncut(m, Cuts(b), 32 * |m|);
    forall x: nat | s[k].first < x < s[k].first + s[k].count ensures x !in Cuts(b) {
      assert In(s[k], x);
    }
    SegBytes(b, mem, s[k]);
  }

  /** What the item logs is what recovery expects, exactly if no cut lies inside a run of dirty chunks. */
  lemma Handover(b: Buf, m: seq<bv32>, t: set<nat>, mem: int -> Byte)
    requires Sound(b) && Marks(b, m, t)
    ensures Inside(b, Segs(m, Cuts(b), 32 * |m|))
    ensures Recorded(m, Regions(mem, Vectors(b, Segs(m, Cuts(b), 32 * |m|))), Image(b, mem)) <==> Whole(m, Cuts(b), 32 * |m|)
  {
    hide Set, Cuts, Addr, Marks, Whole, Segs, Heads;
    SegsInside(b, m, t, 32 * |m|);
    HeadsWhole(m, Cuts(b), 32 * |m|);
    if Whole(m, Cuts(b), 32 * |m|) {
      SegsWhole(m, Cuts(b), 32 * |m|);
      var s := Segs(m, Cuts(b), 32 * |m|);
      forall k: nat | k < |s|
        ensures Regions(mem, Vectors(b, s))[k] == Image(b, mem)[CHUNK * s[k].first..CHUNK * (s[k].first + s[k].count)] {
        VectorBytes(b, m, t, mem, k);
      }
    }
  }

  /** Every byte that differs from the old image was logged. */
  ghost predicate AllLogged(t: set<nat>, was: seq<Byte>, now: seq<Byte>) {
    |was| == |now| && forall o: nat :: o < |was| && was[o] != now[o] ==> o in t
  }

  /** Replaying the dirty chunks over the old image gives the new one. */
  lemma Replay(b: Buf, m: seq<bv32>, t: set<nat>, was: seq<Byte>, now: seq<Byte>, img: seq<Byte>)
    requires Marks(b, m, t) && AllLogged(t, was, now)
    requires Patched(m, was, now, 32 * |m|, img)
    ensures img == now
  {
    hide Set;
    forall o: nat | o < |now| ensures img[o] == now[o] {
      if was[o] != now[o] {
        assert Touched(t, o / CHUNK);
        SetBelow(m, o / CHUNK);
      }
    }
  }

  /** The size noted for recovery counts the vectors exactly if no cut lies inside a run of dirty chunks. */
  lemma SizeCounts(b: Buf, m: seq<bv32>)
    requires Sound(b)
    ensures 1 + Heads(m, {}, 32 * |m|) == VecCount(false, b, m) <==> Whole(m, Cuts(b), 32 * |m|)
  {
    hide Set, Cuts, Whole, Heads;
    HeadsWhole(m, Cuts(b), 32 * |m|);
  }

  /** Two pages apart from each other, with a byte logged on either side of the boundary. */
  function TwoPages(): Buf {
    Buf(false, 0, 0, [0, 2 * PAGE], 2 * PAGE)
  }

  function BothSides(): seq<bv32> {
    [Mask(31, 32), Mask(0, 1)]
  }

  /** That takes three vectors, noted as two. */
  lemma SizeMisses()
    ensures Sound(TwoPages()) && 1 + Heads(BothSides(), {}, 64) < VecCount(false, TwoPages(), BothSides())
  {
    hide Set, Cuts, Addr, Heads, Mask, Whole;
    BothCut();
    HeadsWhole(BothSides(), Cuts(TwoPages()), 64);
  }

  /** And recovery does not get the regions it expects, whatever the bytes are. */
  lemma HandoverMisses(mem: int -> Byte)
    ensures Sound(TwoPages()) && Marks(TwoPages(), BothSides(), {PAGE - 1, PAGE})
    ensures Inside(TwoPages(), Segs(BothSides(), Cuts(TwoPages()), 64))
    ensures !Recorded(BothSides(), Regions(mem, Vectors(TwoPages(), Segs(BothSides(), Cuts(TwoPages()), 64))),
              Image(TwoPages(), mem))
  {
    hide Set, Cuts, Addr, Mask, Marks, Segs, Recorded, Whole;
    BothCut();
    BothMarked();
    Handover(TwoPages(), BothSides(), {PAGE - 1, PAGE}, mem);
  }

  lemma BothSet()
    ensures forall c: nat :: Set(BothSides(), c) <==> c == 31 || c == 32
  {
    hide Mask, Bit;
    forall c: nat | c < 64 ensures Set(BothSides(), c) <==> c == 31 || c == 32 {
      if c < 32 {
        MaskBit(31, 32, c);
      } else {
        MaskBit(0, 1, c - 32);
      }
    }
  }

  lemma BothMarked()
    ensures Marks(TwoPages(), BothSides(), {PAGE - 1, PAGE})
  {
    hide Set, Mask;
    BothSet();
    var t: set<nat> := {PAGE - 1, PAGE};
    forall c: nat ensures Touched(t, c) <==> c == 31 || c == 32 {
      if c == 31 {
        assert PAGE - 1 in t && (PAGE - 1) / CHUNK == c;
      } else if c == 32 {
        assert PAGE in t && PAGE / CHUNK == c;
      }
    }
  }

  lemma BothCut()
    ensures Sound(TwoPages()) && !Whole(BothSides(), Cuts(TwoPages()), 64)
  {
    hide Set, Mask;
    BothSet();
    assert 32 in Cuts(TwoPages());
    assert Set(BothSides(), 32) && Set(BothSides(), 32 - 1);
  }
}
