/** The stretches of dirty chunks of a buffer, and where the buffer lies in memory. */
module BufSegs {
  import opened Bits

  /** A byte of memory or of an image. */
  type Byte = b: bv8 | true

  const CHUNK := 128
  const PAGE := 4096

  /** A buffer of count bytes: one mapped area, or pages with the data starting at an offset in the first. */
  datatype Buf = Buf(mapped: bool, start: int, offset: nat, pages: seq<int>, count: nat)

  /** Buffers are whole sectors, on disk and within their pages, and so whole chunks. */
  predicate Sound(b: Buf) {
    b.count % CHUNK == 0 && b.offset % CHUNK == 0 && (b.mapped || b.offset + b.count <= PAGE * |b.pages|)
  }

  /** The address of byte o. */
  function Addr(b: Buf, o: nat): int
    requires Sound(b) && o < b.count
  {
    if b.mapped then b.start + o else b.pages[(b.offset + o) / PAGE] + (b.offset + o) % PAGE
  }

  /** Chunk c does not lie right behind the chunk before it. */
  predicate Breaks(b: Buf, c: nat)
    requires Sound(b) && 0 < c && CHUNK * c < b.count
  {
    Addr(b, CHUNK * c) != Addr(b, CHUNK * (c - 1)) + CHUNK
  }

  function Cuts(b: Buf): set<nat>
    requires Sound(b)
  {
    set c: nat | 0 < c < b.count && CHUNK * c < b.count && Breaks(b, c)
  }

  /** A stretch of chunks. */
  datatype Seg = Seg(first: nat, count: nat)

  predicate In(s: Seg, b: nat) { s.first <= b < s.first + s.count }

  /** Chunk b is dirty and is not put with the one before it. */
  predicate Head(m: seq<bv32>, cuts: set<nat>, b: nat) {
    Set(m, b) && (b == 0 || !Set(m, b - 1) || b in cuts)
  }

  /** How many stretches begin below n. */
  function Heads(m: seq<bv32>, cuts: set<nat>, n: nat): nat {
    if n == 0 then 0 else Heads(m, cuts, n - 1) + if Head(m, cuts, n - 1) then 1 else 0
  }

  /** The stretches of dirty chunks below n, split at cuts. */
  function Segs(m: seq<bv32>, cuts: set<nat>, n: nat): (r: seq<Seg>)
    ensures |r| == Heads(m, cuts, n)
    ensures n > 0 && Set(m, n - 1) ==> |r| > 0 && r[|r| - 1].first + r[|r| - 1].count == n
  {
    if n == 0 then []
    else
      var s := Segs(m, cuts, n - 1);
      if !Set(m, n - 1) then s
      else if Head(m, cuts, n - 1) then s + [Seg(n - 1, 1)]
      else s[|s| - 1 := Seg(s[|s| - 1].first, s[|s| - 1].count + 1)]
  }

  /** The stretches are in order, do not overlap and hold exactly the dirty chunks. */
  ghost predicate Tiles(m: seq<bv32>, n: nat, s: seq<Seg>) {
    && (forall k: nat :: k < |s| ==> 0 < s[k].count && s[k].first + s[k].count <= n)
    && (forall k: nat, l: nat :: k < l < |s| ==> s[k].first + s[k].count <= s[l].first)
    && (forall b: nat :: b < n ==> (Set(m, b) <==> exists k: nat :: k < |s| && In(s[k], b)))
  }

  lemma TilesApp(m: seq<bv32>, n: nat, s: seq<Seg>)
    requires Tiles(m, n, s) && Set(m, n)
    ensures Tiles(m, n + 1, s + [Seg(n, 1)])
  {
    hide Set;
    var t := s + [Seg(n, 1)];
    forall b: nat | b < n + 1 ensures Set(m, b) <==> exists k: nat :: k < |t| && In(t[k], b) {
      if b == n {
        assert In(t[|s|], b);
      } else if Set(m, b) {
        var k: nat :| k < |s| && In(s[k], b);
        assert In(t[k], b);
      }
    }
  }

  lemma TilesExt(m: seq<bv32>, n: nat, s: seq<Seg>)
    requires Tiles(m, n, s) && Set(m, n)
    requires |s| > 0 && s[|s| - 1].first + s[|s| - 1].count == n
    ensures Tiles(m, n + 1, s[|s| - 1 := Seg(s[|s| - 1].first, s[|s| - 1].count + 1)])
  {
    hide Set;
    var e := |s| - 1;
    var t := s[e := Seg(s[e].first, s[e].count + 1)];
    forall b: nat | b < n + 1 ensures Set(m, b) <==> exists k: nat :: k < |t| && In(t[k], b) {
      if b == n {
        assert In(t[e], b);
      } else if Set(m, b) {
        var k: nat :| k < |s| && In(s[k], b);
        assert In(t[k], b);
      }
    }
  }

  lemma {:induction false} SegsTile(m: seq<bv32>, cuts: set<nat>, n: nat)
    ensures Tiles(m, n, Segs(m, cuts, n))
  {
    hide Set, Tiles;
    if n == 0 {
      TilesNone(m);
    } else {
      SegsTile(m, cuts, n - 1);
      var s := Segs(m, cuts, n - 1);
      if !Set(m, n - 1) {
        TilesSkip(m, n - 1, s);
      } else if Head(m, cuts, n - 1) {
        TilesApp(m, n - 1, s);
      } else {
        TilesExt(m, n - 1, s);
      }
    }
  }

  lemma TilesNone(m: seq<bv32>)
    ensures Tiles(m, 0, [])
  {
  }

  lemma TilesSkip(m: seq<bv32>, n: nat, s: seq<Seg>)
    requires Tiles(m, n, s) && !Set(m, n)
    ensures Tiles(m, n + 1, s)
  {
    hide Set;
  }

  /** A stretch has no cut inside. */
  ghost predicate Uncut(cuts: set<nat>, s: seq<Seg>) {
    forall k: nat, b: nat :: k < |s| && In(s[k], b) && b != s[k].first ==> b !in cuts
  }

  lemma {:induction false} SegsUncut(m: seq<bv32>, cuts: set<nat>, n: nat)
    ensures Uncut(cuts, Segs(m, cuts, n))
  {
    hide Set;
    if n > 0 {
      SegsUncut(m, cuts, n - 1);
      var s, t := Segs(m, cuts, n - 1), Segs(m, cuts, n);
      forall k: nat, b: nat | k < |t| && In(t[k], b) && b != t[k].first ensures b !in cuts {
        if k < |s| && In(s[k], b) {
        } else if Set(m, n - 1) && !Head(m, cuts, n - 1) {
          assert b == n - 1;
        }
      }
    }
  }

  /** Nothing begins where nothing is dirty. */
  lemma {:induction false} SegsGap(m: seq<bv32>, cuts: set<nat>, lo: nat, hi: nat)
    requires lo <= hi && None(m, lo, hi)
    ensures Segs(m, cuts, hi) == Segs(m, cuts, lo) && Heads(m, cuts, hi) == Heads(m, cuts, lo)
    decreases hi
  {
    hide Set;
    if lo < hi {
      assert !Set(m, hi - 1);
      SegsGap(m, cuts, lo, hi - 1);
    }
  }

  /** A run of dirty chunks without cuts is one stretch. */
  lemma {:induction false} SegsRun(m: seq<bv32>, lo: nat, hi: nat)
    requires lo < hi && Every(m, lo, hi)
    requires lo == 0 || !Set(m, lo - 1)
    ensures Segs(m, {}, hi) == Segs(m, {}, lo) + [Seg(lo, hi - lo)]
    decreases hi
  {
    hide Set;
    assert Set(m, hi - 1);
    if lo + 1 < hi {
      assert Set(m, hi - 2);
      SegsRun(m, lo, hi - 1);
    }
  }

  /** What lies before a clean chunk is not changed by what comes after it. */
  lemma {:induction false} SegsPrefix(m: seq<bv32>, cuts: set<nat>, n: nat, top: nat)
    requires n <= top && !Set(m, n)
    ensures Segs(m, cuts, n) <= Segs(m, cuts, top)
    ensures top > n && Set(m, top - 1) ==> |Segs(m, cuts, n)| < |Segs(m, cuts, top)|
    decreases top
  {
    hide Set;
    if n < top {
      SegsPrefix(m, cuts, n, top - 1);
    }
  }

  /** Without cuts there are never more stretches, and as many exactly if no cut has dirty chunks on both sides. */
  ghost predicate Whole(m: seq<bv32>, cuts: set<nat>, n: nat) {
    forall b: nat :: 0 < b < n && b in cuts ==> !Set(m, b) || !Set(m, b - 1)
  }

  lemma {:induction false} HeadsWhole(m: seq<bv32>, cuts: set<nat>, n: nat)
    ensures Heads(m, {}, n) <= Heads(m, cuts, n)
    ensures Heads(m, {}, n) == Heads(m, cuts, n) <==> Whole(m, cuts, n)
  {
    hide Set;
    if n > 0 {
      HeadsWhole(m, cuts, n - 1);
      assert Whole(m, cuts, n) ==> Whole(m, cuts, n - 1);
      assert Whole(m, cuts, n - 1) && !(0 < n - 1 && n - 1 in cuts && Set(m, n - 1) && Set(m, n - 2)) ==> Whole(m, cuts, n);
    }
  }

  lemma {:induction false} SegsWhole(m: seq<bv32>, cuts: set<nat>, n: nat)
    requires Whole(m, cuts, n)
    ensures Segs(m, {}, n) == Segs(m, cuts, n)
  {
    hide Set;
    if n > 0 {
      assert Whole(m, cuts, n - 1);
      SegsWhole(m, cuts, n - 1);
    }
  }

  /** A buffer's bytes in memory. */
  function Image(b: Buf, mem: int -> Byte): seq<Byte>
    requires Sound(b)
  {
    seq(b.count, o requires 0 <= o < b.count => mem(Addr(b, o)))
  }

  function Bytes(mem: int -> Byte, addr: int, len: nat): seq<Byte> {
    seq(len, j => mem(addr + j))
  }

  /** A chunk does not cross a page. */
  lemma WithinChunk(b: Buf, c: nat, j: nat)
    requires Sound(b) && j < CHUNK && CHUNK * c < b.count
    ensures CHUNK * c + j < b.count && Addr(b, CHUNK * c + j) == Addr(b, CHUNK * c) + j
  {
    var o := b.offset + CHUNK * c;
    assert o % CHUNK == 0;
    assert o % PAGE % CHUNK == 0 && o % PAGE < PAGE && o % PAGE + CHUNK <= PAGE;
    assert (o + j) / PAGE == o / PAGE && (o + j) % PAGE == o % PAGE + j;
  }

  lemma {:induction false} Straight(b: Buf, first: nat, c: nat)
    requires Sound(b) && first <= c && CHUNK * c < b.count
    requires forall x: nat :: first < x <= c ==> x !in Cuts(b)
    ensures Addr(b, CHUNK * c) == Addr(b, CHUNK * first) + CHUNK * (c - first)
    decreases c
  {
    hide Addr;
    if first < c {
      Straight(b, first, c - 1);
      assert c !in Cuts(b);
    }
  }

  /** A stretch without a cut can be read at the address of its first chunk. */
  lemma SegBytes(b: Buf, mem: int -> Byte, s: Seg)
    requires Sound(b) && 0 < s.count && CHUNK * (s.first + s.count) <= b.count
    requires forall x: nat :: s.first < x < s.first + s.count ==> x !in Cuts(b)
    ensures Bytes(mem, Addr(b, CHUNK * s.first), CHUNK * s.count)
            == Image(b, mem)[CHUNK * s.first..CHUNK * (s.first + s.count)]
  {
    hide Addr, Cuts;
    var lo, len := CHUNK * s.first, CHUNK * s.count;
    var l, r := Bytes(mem, Addr(b, lo), len), Image(b, mem)[lo..lo + len];
    forall j: nat | j < len ensures l[j] == r[j] {
      var c := s.first + j / CHUNK;
      Straight(b, s.first, c);
      WithinChunk(b, c, j % CHUNK);
      assert CHUNK * c + j % CHUNK == lo + j;
    }
  }
}
