/** The log item of a buffer: which chunks are dirty, how they go into the log, and how recovery puts them back. */
module BufItem {
  import opened Bits
  import opened BufSegs

  const HEADER := 24

  /** A log vector: the format structure with its bitmap, or chunks of the buffer. */
  datatype Vec = Format(len: nat) | Chunks(addr: int, len: nat)

  /** The vectors for stretches of dirty chunks. */
  function Vectors(b: Buf, s: seq<Seg>): seq<Vec>
    requires Sound(b) && Inside(b, s)
  {
    seq(|s|, i requires 0 <= i < |s| => Chunks(Addr(b, CHUNK * s[i].first), CHUNK * s[i].count))
  }

  predicate Inside(b: Buf, s: seq<Seg>) {
    forall k: nat :: k < |s| ==> 0 < s[k].count && CHUNK * (s[k].first + s[k].count) <= b.count
  }

  /** Chunk c holds a byte that was logged. */
  ghost predicate Touched(t: set<nat>, c: nat) {
    exists x: nat :: x in t && x / CHUNK == c
  }

  /** The bitmap is exactly the chunks with a byte that was logged, all within the buffer. */
  ghost predicate Marks(b: Buf, m: seq<bv32>, t: set<nat>) {
    && (forall x: nat :: x in t ==> x < b.count)
    && (forall c: nat :: Set(m, c) <==> Touched(t, c))
  }

  predicate Between(first: nat, last: nat, x: nat) { first <= x <= last }

  /** Bytes first to last. */
  function Span(first: nat, last: nat): set<nat> {
    set x: nat | x <= last && Between(first, last, x)
  }

  /** The bits lo..hi have been set and no other has changed. */
  ghost predicate Filled(was: seq<bv32>, m: seq<bv32>, lo: nat, hi: nat) {
    && |m| == |was|
    && (forall c: nat :: Set(m, c) <==> Set(was, c) || lo <= c < hi)
  }

  lemma FilledOne(was: seq<bv32>, m: seq<bv32>, lo: nat, hi: nat, w: nat, from: nat, to: nat)
    requires Filled(was, m, lo, hi) && w < |m| && from <= to <= 32 && from < 32
    requires hi == 32 * w + from && lo <= hi
    ensures Filled(was, m[w := Or(m[w], Mask(from, to))], lo, 32 * w + to)
  {
    hide Bit, Mask, Or;
    var n := m[w := Or(m[w], Mask(from, to))];
    forall c: nat ensures Set(n, c) <==> Set(was, c) || lo <= c < 32 * w + to {
      assert Set(m, c) <==> Set(was, c) || lo <= c < hi;
      if c / 32 == w && c < 32 * |m| {
        assert n[c / 32] == Or(m[w], Mask(from, to));
        OrBit(m[w], Mask(from, to), c % 32);
        MaskBit(from, to, c % 32);
      }
    }
  }

  lemma FilledWord(was: seq<bv32>, m: seq<bv32>, lo: nat, w: nat)
    requires Filled(was, m, lo, 32 * w) && w < |m| && lo <= 32 * w
    ensures Filled(was, m[w := Or(m[w], 0xffff_ffff)], lo, 32 * w + 32)
  {
    hide Bit, Or;
    var n := m[w := Or(m[w], 0xffff_ffff)];
    forall c: nat ensures Set(n, c) <==> Set(was, c) || lo <= c < 32 * w + 32 {
      assert Set(m, c) <==> Set(was, c) || lo <= c < 32 * w;
      if c / 32 == w && c < 32 * |m| {
        assert n[c / 32] == Or(m[w], 0xffff_ffff);
        OrBit(m[w], 0xffff_ffff, c % 32);
        OnesBit(0xffff_ffff, c % 32);
      }
    }
  }

  /** Logging bytes first..last marks the chunks they lie in. */
  lemma MarksMore(b: Buf, was: seq<bv32>, m: seq<bv32>, t: set<nat>, first: nat, last: nat)
    requires Marks(b, was, t) && first <= last < b.count
    requires Filled(was, m, first / CHUNK, last / CHUNK + 1)
    ensures Marks(b, m, t + Span(first, last))
  {
    hide Set;
    var u := t + Span(first, last);
    forall c: nat ensures Set(m, c) <==> Touched(u, c) {
      if Touched(t, c) {
        var x: nat :| x in t && x / CHUNK == c;
        assert x in u;
      }
      if first / CHUNK <= c <= last / CHUNK {
        var x := if c == first / CHUNK then first else CHUNK * c;
        assert Between(first, last, x);
        assert x in u && x / CHUNK == c;
      }
    }
  }

  /** The number of vectors the item needs. */
  function VecCount(stale: bool, b: Buf, m: seq<bv32>): nat
    requires Sound(b)
  {
    1 + if stale then 0 else Heads(m, Cuts(b), 32 * |m|)
  }

  lemma SegsInside(b: Buf, m: seq<bv32>, t: set<nat>, n: nat)
    requires Sound(b) && Marks(b, m, t)
    ensures Inside(b, Segs(m, Cuts(b), n))
  {
    hide Set, Cuts, Touched;
    var s := Segs(m, Cuts(b), n);
    SegsTile(m, Cuts(b), n);
    forall k: nat | k < |s| ensures 0 < s[k].count && CHUNK * (s[k].first + s[k].count) <= b.count {
      var c := s[k].first + s[k].count - 1;
      assert In(s[k], c);
      MarkInside(b, m, t, c);
    }
  }

  lemma MarkInside(b: Buf, m: seq<bv32>, t: set<nat>, c: nat)
    requires Sound(b) && Marks(b, m, t) && Set(m, c)
    ensures CHUNK * (c + 1) <= b.count
  {
    var x: nat :| x in t && x / CHUNK == c;
  }

  lemma SetBelow(m: seq<bv32>, b: nat)
    requires Set(m, b)
    ensures b < 32 * |m|
  {
  }

  lemma SomeMark(b: Buf, m: seq<bv32>, t: set<nat>)
    requires Marks(b, m, t) && t != {}
    ensures exists c: nat :: Set(m, c)
  {
    hide Set;
    var x: nat :| x in t;
    assert Touched(t, x / CHUNK);
    assert Set(m, x / CHUNK);
  }

  lemma CutAt(b: Buf, m: seq<bv32>, t: set<nat>, c: nat)
    requires Sound(b) && Marks(b, m, t) && Set(m, c)
    ensures CHUNK * c < b.count
    ensures 0 < c ==> (c in Cuts(b) <==> Addr(b, c * CHUNK) != Addr(b, (c - 1) * CHUNK) + CHUNK)
  {
    hide Set, Addr;
    MarkInside(b, m, t, c);
  }

  /** The stretches up to chunk last: all but the one that ends there are in the log, which has v vectors so far. */
  ghost predicate Building(b: Buf, m: seq<bv32>, cuts: set<nat>, last: nat, cur: Seg, log: seq<Vec>, v: nat)
    requires Sound(b)
  {
    var s := Segs(m, cuts, last + 1);
    && |s| == v > 0 && s[v - 1] == cur && cur.first + cur.count == last + 1
    && Inside(b, s) && v <= |log|
    && log[1..v] == Vectors(b, s[..v - 1])
  }

  lemma BuildFirst(b: Buf, m: seq<bv32>, t: set<nat>, first: nat, log: seq<Vec>)
    requires Sound(b) && Marks(b, m, t) && Set(m, first) && None(m, 0, first) && |log| > 0
    ensures Building(b, m, Cuts(b), first, Seg(first, 1), log, 1)
  {
    hide Set, Cuts, Addr, Marks;
    SegsGap(m, Cuts(b), 0, first);
    SegsInside(b, m, t, first + 1);
    assert Head(m, Cuts(b), first);
    assert Segs(m, Cuts(b), first + 1) == [Seg(first, 1)];
  }

  lemma VectorsMore(b: Buf, s: seq<Seg>, log: seq<Vec>, v: nat)
    requires Sound(b) && Inside(b, s) && |s| == v > 0 && v < |log|
    requires log[1..v] == Vectors(b, s[..v - 1])
    ensures CHUNK * s[v - 1].first < b.count
    ensures log[v := Chunks(Addr(b, CHUNK * s[v - 1].first), CHUNK * s[v - 1].count)][1..v + 1] == Vectors(b, s)
  {
    hide Addr;
    var e := Chunks(Addr(b, CHUNK * s[v - 1].first), CHUNK * s[v - 1].count);
    var l, r := log[v := e][1..v + 1], Vectors(b, s);
    forall i: nat | i < v ensures l[i] == r[i] {
      if i < v - 1 {
        assert l[i] == log[1..v][i] == Vectors(b, s[..v - 1])[i];
      }
    }
  }

  lemma BuildNext(b: Buf, m: seq<bv32>, t: set<nat>, last: nat, cur: Seg, log: seq<Vec>, v: nat, next: nat)
    requires Sound(b) && Marks(b, m, t) && Building(b, m, Cuts(b), last, cur, log, v) && v < |log|
    requires last < next && Head(m, Cuts(b), next) && None(m, last + 1, next)
    ensures CHUNK * cur.first < b.count
    ensures Building(b, m, Cuts(b), next, Seg(next, 1),
                     log[v := Chunks(Addr(b, CHUNK * cur.first), CHUNK * cur.count)], v + 1)
  {
    hide Set, Cuts, Addr, Marks, Inside, Heads;
    var s, n := Segs(m, Cuts(b), last + 1), Segs(m, Cuts(b), next + 1);
    SegsGap(m, Cuts(b), last + 1, next);
    SegsInside(b, m, t, next + 1);
    VectorsMore(b, s, log, v);
    assert Set(m, next);
    assert n == s + [Seg(next, 1)];
    assert n[..v] == s;
  }

  lemma BuildGrow(b: Buf, m: seq<bv32>, t: set<nat>, last: nat, cur: Seg, log: seq<Vec>, v: nat)
    requires Sound(b) && Marks(b, m, t) && Building(b, m, Cuts(b), last, cur, log, v)
    requires Set(m, last + 1) && !Head(m, Cuts(b), last + 1)
    ensures Building(b, m, Cuts(b), last + 1, Seg(cur.first, cur.count + 1), log, v)
  {
    hide Set, Cuts, Addr, Marks;
    var s, n := Segs(m, Cuts(b), last + 1), Segs(m, Cuts(b), last + 2);
    SegsInside(b, m, t, last + 2);
    assert n[..v - 1] == s[..v - 1];
  }

  lemma BuildDone(b: Buf, m: seq<bv32>, last: nat, cur: Seg, log: seq<Vec>, v: nat, n: nat)
    requires Sound(b) && Building(b, m, Cuts(b), last, cur, log, v) && v < |log|
    requires last < n && None(m, last + 1, n)
    ensures CHUNK * cur.first < b.count
    ensures Inside(b, Segs(m, Cuts(b), n)) && v == Heads(m, Cuts(b), n)
    ensures log[v := Chunks(Addr(b, CHUNK * cur.first), CHUNK * cur.count)][1..v + 1] == Vectors(b, Segs(m, Cuts(b), n))
  {
    hide Set, Cuts, Addr;
    SegsGap(m, Cuts(b), last + 1, n);
    VectorsMore(b, Segs(m, Cuts(b), n), log, v);
  }

  lemma BuildCount(b: Buf, m: seq<bv32>, cuts: set<nat>, last: nat, cur: Seg, log: seq<Vec>, v: nat)
    requires Sound(b) && Building(b, m, cuts, last, cur, log, v)
    ensures v == Heads(m, cuts, last + 1) && cur.first + cur.count == last + 1
  {
  }

  /** The vectors: first the format, then, unless the buffer is stale, the dirty chunks. */
  ghost predicate Logged(stale: bool, b: Buf, m: seq<bv32>, log: seq<Vec>)
    requires Sound(b)
  {
    var n := VecCount(stale, b, m);
    && n <= |log|
    && log[0] == Format(HEADER + 4 * (|m| - 1))
    && (!stale ==>
          && Inside(b, Segs(m, Cuts(b), 32 * |m|))
          && log[1..n] == Vectors(b, Segs(m, Cuts(b), 32 * |m|)))
  }

  /** Nothing from n on has changed. */
  ghost predicate Beyond<T>(n: nat, was: seq<T>, now: seq<T>) {
    |now| == |was| && forall k: nat :: n <= k < |was| ==> now[k] == was[k]
  }

  lemma {:induction false} HeadsMono(m: seq<bv32>, cuts: set<nat>, lo: nat, hi: nat)
    requires lo <= hi
    ensures Heads(m, cuts, lo) <= Heads(m, cuts, hi)
    decreases hi
  {
    hide Head;
    if lo < hi {
      HeadsMono(m, cuts, lo, hi - 1);
    }
  }

  /** The first dirty chunk begins the first stretch. */
  lemma FirstHead(b: Buf, m: seq<bv32>, t: set<nat>, first: int, log: seq<Vec>)
    requires Sound(b) && Marks(b, m, t) && t != {} && Next(m, 0, first) && |log| > 0
    ensures 0 <= first < 32 * |m| && Set(m, first)
    ensures Building(b, m, Cuts(b), first, Seg(first, 1), log, 1) && Heads(m, {}, first + 1) == 1
  {
    SomeMark(b, m, t);
    hide Set, Building, Cuts, Marks;
    SetBelow(m, first);
    SegsGap(m, {}, 0, first);
    BuildFirst(b, m, t, first, log);
  }

  lemma HeadsStep(m: seq<bv32>, cuts: set<nat>, last: nat, next: nat)
    requires last < next && None(m, last + 1, next)
    ensures Heads(m, cuts, next + 1) == Heads(m, cuts, last + 1) + if Head(m, cuts, next) then 1 else 0
  {
    hide Set, Head, None;
    SegsGap(m, cuts, last + 1, next);
  }

  /** The dirty chunk after last begins a new stretch if it is not the next chunk. */
  lemma NextRun(m: seq<bv32>, cuts: set<nat>, last: nat, next: int)
    requires Set(m, last) && next != -1 && Next(m, last + 1, next)
    ensures last < next < 32 * |m| && Set(m, next) && None(m, last + 1, next)
    ensures Heads(m, {}, next + 1) == Heads(m, {}, last + 1) + if next != last + 1 then 1 else 0
    ensures Head(m, cuts, next) <==> next != last + 1 || next in cuts
    ensures Head(m, cuts, next) ==> Heads(m, cuts, last + 1) < Heads(m, cuts, 32 * |m|)
  {
    hide Set, Heads;
    SetBelow(m, next);
    HeadsStep(m, {}, last, next);
    HeadsStep(m, cuts, last, next);
    HeadsMono(m, cuts, next + 1, 32 * |m|);
    assert next != last + 1 ==> !Set(m, next - 1);
  }

  /** So it does if memory breaks before it. */
  lemma NextHead(b: Buf, m: seq<bv32>, t: set<nat>, last: nat, next: int)
    requires Sound(b) && Marks(b, m, t) && Set(m, last) && next != -1 && Next(m, last + 1, next)
    ensures last < next < 32 * |m| && Set(m, next) && None(m, last + 1, next)
    ensures CHUNK * last < b.count && CHUNK * next < b.count
    ensures Heads(m, {}, next + 1) == Heads(m, {}, last + 1) + if next != last + 1 then 1 else 0
    ensures Head(m, Cuts(b), next) <==> next != last + 1 || Addr(b, next * CHUNK) != Addr(b, last * CHUNK) + CHUNK
    ensures Head(m, Cuts(b), next) ==> Heads(m, Cuts(b), last + 1) < Heads(m, Cuts(b), 32 * |m|)
  {
    hide *;
    NextRun(m, Cuts(b), last, next);
    CutAt(b, m, t, next);
    CutAt(b, m, t, last);
  }

  /** No stretch begins after the last dirty chunk. */
  lemma NoHead(b: Buf, m: seq<bv32>, last: nat, v: nat)
    requires Sound(b) && last < 32 * |m| && Next(m, last + 1, -1) && v == Heads(m, Cuts(b), last + 1)
    ensures None(m, last + 1, 32 * |m|) && v == Heads(m, Cuts(b), 32 * |m|)
    ensures Heads(m, {}, 32 * |m|) == Heads(m, {}, last + 1)
  {
    hide Set, Cuts;
    SegsGap(m, {}, last + 1, 32 * |m|);
    SegsGap(m, Cuts(b), last + 1, 32 * |m|);
  }

  lemma BeyondPut<T>(n: nat, first: seq<T>, was: seq<T>, v: nat, e: T)
    requires Beyond(n, first, was) && v < n && v < |was|
    ensures Beyond(n, first, was[v := e])
  {
  }

  lemma BeyondStart<T>(n: nat, first: seq<T>, e: T)
    requires 0 < n <= |first|
    ensures Beyond(n, first, first[0 := e])
  {
  }

  method PutChunks(log: array<Vec>, v: nat, b: Buf, firstBit: nat, nbits: nat)
    requires v < log.Length && Sound(b) && CHUNK * firstBit < b.count
    modifies log
    ensures log[..] == old(log[..])[v := Chunks(Addr(b, CHUNK * firstBit), CHUNK * nbits)]
  {
    log[v] := Chunks(Addr(b, firstBit * CHUNK), nbits * CHUNK);
  }

  class LogItem {
    const buf: Buf
    const words: array<Word>
    var dirty: bool
    var stale: bool
    var size: nat
    ghost var touched: set<nat>

    ghost predicate Valid()
      reads this, words
    {
      && Sound(buf)
      && 32 * words.Length * CHUNK >= buf.count
      && Marks(buf, words[..], touched)
    }

    /** A new item with a clean bitmap. */
    constructor (b: Buf)
      requires Sound(b)
      ensures Valid() && buf == b && touched == {} && !stale && fresh(words)
    {
      var chunks := (b.count + (CHUNK - 1)) / CHUNK;
      buf := b;
      words := new Word[(chunks + 32) / 32](i => 0);
      dirty, stale, size, touched := false, false, 0, {};
      new;
      forall c: nat ensures !Set(words[..], c) {
        if c < 32 * words.Length {
          ZeroBit(words[..][c / 32], c % 32);
        }
      }
    }

    /** Mark bytes first through last as dirty. */
    method Log(first: nat, last: nat)
      requires Valid() && first <= last < buf.count
      modifies words, this`dirty, this`touched
      ensures Valid() && dirty
      ensures touched == old(touched) + Span(first, last)
      ensures Filled(old(words[..]), words[..], first / CHUNK, last / CHUNK + 1)
    {
      hide Set, Marks, Mask, Or;
      dirty := true;
      ghost var was := words[..];
      ghost var seen := touched;
      assert Marks(buf, was, seen);
      var firstBit, lastBit := first / CHUNK, last / CHUNK;
      var bitsToSet := lastBit - firstBit + 1;
      var word := firstBit / 32;
      var bit := firstBit % 32;
      var bitsSet := 0;
      assert Filled(was, words[..], firstBit, firstBit);
      if bit != 0 {
        var endBit := if bit + bitsToSet < 32 then bit + bitsToSet else 32;
        FilledOne(was, words[..], firstBit, firstBit, word, bit, endBit);
        words[word] := Or(words[word], Mask(bit, endBit));
        word := word + 1;
        bitsSet := endBit - bit;
      }
      while bitsToSet - bitsSet >= 32
        invariant dirty && touched == seen
        invariant 0 <= bitsSet <= bitsToSet
        invariant bitsSet < bitsToSet ==> 32 * word == firstBit + bitsSet
        invariant Filled(was, words[..], firstBit, firstBit + bitsSet)
      {
        FilledWord(was, words[..], firstBit, word);
        words[word] := Or(words[word], 0xffff_ffff);
        bitsSet := bitsSet + 32;
        word := word + 1;
      }
      var endBit := bitsToSet - bitsSet;
      if endBit != 0 {
        FilledOne(was, words[..], firstBit, 32 * word, word, 0, endBit);
        words[word] := Or(words[word], Mask(0, endBit));
      }
      ghost var now := words[..];
      MarksMore(buf, was, now, seen, first, last);
      touched := seen + Span(first, last);
      assert words[..] == now;
    }

    /** The number of log vectors needed. */
    method Size() returns (nvecs: nat)
      requires Valid() && (stale || touched != {})
      ensures nvecs == VecCount(stale, buf, words[..])
    {
      hide Set, Marks, Cuts, Addr;
      if stale {
        return 1;
      }
      ghost var m, cuts := words[..], Cuts(buf);
      nvecs := 1;
      var lastBit := NextBit(words, words.Length, 0);
      assert words[..words.Length] == m;
      SomeMark(buf, m, touched);
      SegsGap(m, cuts, 0, lastBit);
      nvecs := nvecs + 1;
      while lastBit != -1
        invariant -1 <= lastBit
        invariant lastBit != -1 ==> Set(m, lastBit) && nvecs == 1 + Heads(m, cuts, lastBit + 1)
        invariant lastBit == -1 ==> nvecs == 1 + Heads(m, cuts, 32 * |m|)
        decreases if lastBit == -1 then 0 else 32 * |m| - lastBit
      {
        var nextBit := NextBit(words, words.Length, lastBit + 1);
        SetBelow(m, lastBit);
        if nextBit == -1 {
          SegsGap(m, cuts, lastBit + 1, 32 * |m|);
          lastBit := -1;
        } else {
          SetBelow(m, nextBit);
          SegsGap(m, cuts, lastBit + 1, nextBit);
          CutAt(buf, m, touched, nextBit);
          if nextBit != lastBit + 1 {
            assert !Set(m, nextBit - 1);
            lastBit := nextBit;
            nvecs := nvecs + 1;
          } else if Addr(buf, nextBit * CHUNK) != Addr(buf, lastBit * CHUNK) + CHUNK {
            lastBit := nextBit;
            nvecs := nvecs + 1;
          } else {
            lastBit := lastBit + 1;
          }
        }
      }
    }

    /** Fill the log vectors. The size noted for recovery leaves out the splits at cuts. */
    method FillVectors(log: array<Vec>)
      requires Valid() && (stale || touched != {})
      requires log.Length >= VecCount(stale, buf, words[..])
      modifies log, this`size
      ensures Logged(stale, buf, words[..], log[..])
      ensures size == if stale then 1 else 1 + Heads(words[..], {}, 32 * words.Length)
      ensures Beyond(VecCount(stale, buf, words[..]), old(log[..]), log[..])
    {
      hide Set, Marks, Cuts, Addr, Building, Inside, Beyond, Segs, Vectors, Heads, Head, None, Next;
      ghost var m, cuts := words[..], Cuts(buf);
      assert Marks(buf, m, touched);
      ghost var before := log[..];
      log[0] := Format(HEADER + 4 * (words.Length - 1));
      var nvecs := 1;
      assert log[..] == before[0 := log[0]];
      BeyondStart(VecCount(stale, buf, m), before, log[0]);
      if stale {
        size := nvecs;
        return;
      }
      ghost var all := Heads(m, cuts, 32 * |m|);
      assert words[..words.Length] == m;
      var firstBit := NextBit(words, words.Length, 0);
      FirstHead(buf, m, touched, firstBit, log[..]);
      var lastBit := firstBit;
      var nbits := 1;
      var v := 1;
      while true
        invariant 0 <= firstBit <= lastBit < 32 * |m| && 0 < nbits && 0 < v
        invariant Set(m, lastBit) && Marks(buf, m, touched) && words[..] == m
        invariant log[0] == Format(HEADER + 4 * (words.Length - 1))
        invariant Beyond(1 + all, before, log[..])
        invariant Building(buf, m, cuts, lastBit, Seg(firstBit, nbits), log[..], v)
        invariant nvecs == Heads(m, {}, lastBit + 1)
        decreases 32 * |m| - lastBit
      {
        assert words[..words.Length] == m;
        var nextBit := NextBit(words, words.Length, lastBit + 1);
        ghost var cur, was := Seg(firstBit, nbits), log[..];
        BuildCount(buf, m, cuts, lastBit, cur, was, v);
        if nextBit == -1 {
          NoHead(buf, m, lastBit, v);
          BuildDone(buf, m, lastBit, cur, was, v, 32 * |m|);
          PutChunks(log, v, buf, firstBit, nbits);
          BeyondPut(1 + all, before, was, v, log[v]);
          nvecs := nvecs + 1;
          break;
        }
        NextHead(buf, m, touched, lastBit, nextBit);
        if nextBit != lastBit + 1 {
          BuildNext(buf, m, touched, lastBit, cur, was, v, nextBit);
          PutChunks(log, v, buf, firstBit, nbits);
          BeyondPut(1 + all, before, was, v, log[v]);
          nvecs := nvecs + 1;
          v := v + 1;
          firstBit, lastBit, nbits := nextBit, nextBit, 1;
        } else if Addr(buf, nextBit * CHUNK) != Addr(buf, lastBit * CHUNK) + CHUNK {
          BuildNext(buf, m, touched, lastBit, cur, was, v, nextBit);
          PutChunks(log, v, buf, firstBit, nbits);
          BeyondPut(1 + all, before, was, v, log[v]);
          v := v + 1;
          firstBit, lastBit, nbits := nextBit, nextBit, 1;
        } else {
          BuildGrow(buf, m, touched, lastBit, cur, was, v);
          lastBit := lastBit + 1;
          nbits := nbits + 1;
        }
      }
      size := nvecs;
    }
  }
}
