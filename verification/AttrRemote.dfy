/** Writing a value to blocks of its own, and taking it away. */
module AttrRemote {
  import opened Arith
  import opened DaTree
  import opened DaLookup
  import opened AttrView
  import opened AttrFork
  import opened AttrSteps

  /** From some point on, the log says the same all the time. */
  ghost predicate Steady(log: seq<Seen>, from: nat, seen: Seen) {
    forall i :: from <= i < |log| ==> log[i] == seen
  }

  /** The blocks that were there are the same. */
  ghost predicate Keeps(data: Blocks, data': Blocks) {
    Agree(data.Keys, data, data')
  }

  lemma KeepsView(ents: seq<Ent>, data: Blocks, data': Blocks, bs: nat)
    requires bs > 0 && Tidy(ents, data, bs) && Keeps(data, data')
    ensures View(ents, data', bs) == View(ents, data, bs)
    ensures Tidy(ents, data', bs)
  {
    forall i | 0 <= i < |ents| ensures Agree(RangeOf(ents[i], bs), data, data') && RangeOf(ents[i], bs) <= data'.Keys {
      assert RangeOf(ents[i], bs) <= data.Keys;
    }
    ViewData(ents, data, data', bs);
  }

  lemma {:induction false} CatMore(data: Blocks, blk: nat, n: nat)
    ensures Cat(data, blk, n + 1) == Cat(data, blk, n) + if blk + n in data then data[blk + n] else []
    decreases n
  {
    if n > 0 {
      CatMore(data, blk + 1, n - 1);
    }
  }

  /** The part of a value already written, and the rest of it. */
  ghost predicate Written(data: Blocks, blk: nat, n: nat, value: seq<Byte>, rest: seq<Byte>) {
    && |rest| <= |value|
    && Take(Cat(data, blk, n), |value| - |rest|) + rest == value
    && (rest != [] ==> |Cat(data, blk, n)| == |value| - |rest|)
  }

  lemma WrittenMore(data: Blocks, data': Blocks, blk: nat, n: nat, value: seq<Byte>, rest: seq<Byte>, bytes: seq<Byte>, bs: nat)
    requires bs > 0 && Written(data, blk, n, value, rest) && rest != []
    requires data' == data[blk + n := bytes] && |bytes| == bs
    requires forall b :: b in Span(blk, n) ==> b in data
    requires if |rest| < bs then bytes[..|rest|] == rest else bytes == rest[..bs]
    ensures Written(data', blk, n + 1, value, if |rest| < bs then [] else rest[bs..])
  {
    assert Agree(Span(blk, n), data, data');
    CatSame(data, data', blk, n);
    CatMore(data', blk, n);
    var done := Cat(data, blk, n);
    assert Cat(data', blk, n + 1) == done + bytes;
    assert done + rest == value;
    if |rest| < bs {
      assert (done + bytes)[..|value|] == done + rest;
    } else {
      assert rest == rest[..bs] + rest[bs..];
    }
  }

  lemma BlocksLeft(len: nat, bs: nat)
    requires bs > 0
    ensures len == 0 ==> CeilDiv(len, bs) == 0
    ensures len > 0 ==> CeilDiv(len, bs) == 1 + CeilDiv(if len < bs then 0 else len - bs, bs)
  {
    if len == 0 {
      ModIs(bs - 1, bs, 0, bs - 1);
    } else {
      var rest := if len < bs then 0 else len - bs;
      var q := (rest + bs - 1) / bs;
      ModIs(bs - 1, bs, 0, bs - 1);
      assert rest + bs - 1 == q * bs + (rest + bs - 1) % bs;
      if len >= bs {
        assert (q + 1) * bs == q * bs + bs;
        ModIs(len + bs - 1, bs, q + 1, (rest + bs - 1) % bs);
      } else {
        ModIs(len + bs - 1, bs, 1, len - 1);
      }
    }
  }

  /** How many of the blocks left the k-th transaction gets or frees. */
  function Portion(left: nat, got: nat -> nat, k: nat): (n: nat)
    requires left > 0
    ensures 1 <= n <= left
  {
    if 1 <= got(k) <= left then got(k) else left
  }

  /** How many transactions it takes. */
  function Rounds(left: nat, got: nat -> nat, k: nat): nat
    decreases left
  {
    if left == 0 then 0 else 1 + Rounds(left - Portion(left, got, k), got, k + 1)
  }

  /** Allocate the blocks for a value, an extent and a transaction at a time. got(k) is how many the k-th gets. */
  method AllocValue(f: Fork, hole: nat, blkcnt0: nat, got: nat -> nat)
    requires f.Valid() && f.Clean() && Span(hole, blkcnt0) !! f.data.Keys
    modifies f`data, f`disk, f`log
    ensures f.Valid() && f.Clean() && Keeps(old(f.data), f.data)
    ensures f.data.Keys == old(f.data).Keys + Span(hole, blkcnt0)
    ensures f.Now() == old(f.Now()) && old(f.log) <= f.log && Steady(f.log, |old(f.log)|, old(f.Now()))
    ensures |f.log| == |old(f.log)| + Rounds(blkcnt0, got, 0)
  {
    hide GoodLeaves, Flat, Tidy, View;
    ghost var data0, ents := f.data, Flat(f.leaves);
    var lblkno, blkcnt, k := hole, blkcnt0, 0;
    SpanNone(hole);
    while blkcnt > 0
      invariant 0 <= blkcnt <= blkcnt0 && lblkno + blkcnt == hole + blkcnt0
      invariant f.Clean() && f.bs > 0 && Tidy(ents, f.data, f.bs) && View(ents, f.data, f.bs) == old(f.Now())
      invariant Keeps(data0, f.data) && f.data.Keys == data0.Keys + Span(hole, lblkno - hole)
      invariant old(f.log) <= f.log && Steady(f.log, |old(f.log)|, old(f.Now()))
      invariant |f.log| + Rounds(blkcnt, got, k) == |old(f.log)| + Rounds(blkcnt0, got, 0)
      decreases blkcnt
    {
      var n := Portion(blkcnt, got, k);
      ghost var data := f.data;
      f.AllocBlocks(lblkno, n);
      KeepsView(ents, data, f.data, f.bs);
      SpanJoin(hole, lblkno - hole, n);
      f.Commit();
      lblkno, blkcnt, k := lblkno + n, blkcnt - n, k + 1;
    }
  }

  lemma SpanNone(blk: nat)
    ensures Span(blk, 0) == {}
  {
  }

  lemma SpanJoin(blk: nat, n: nat, m: nat)
    ensures Span(blk, n + m) == Span(blk, n) + Span(blk + n, m)
  {
    assert forall b: nat :: InSpan(b, blk, n + m) <==> InSpan(b, blk, n) || InSpan(b, blk + n, m);
  }

  /** Copy the value into the blocks allocated, each written at once and past the transaction. */
  method WriteValue(f: Fork, blk: nat, value: seq<Byte>, ghost data0: Blocks)
    requires f.Valid() && f.Clean() && Tidy(Flat(f.leaves), data0, f.bs) && Keeps(data0, f.data)
    requires Span(blk, CeilDiv(|value|, f.bs)) !! data0.Keys && Span(blk, CeilDiv(|value|, f.bs)) <= f.data.Keys
    modifies f`data, f`log
    ensures f.Valid() && f.Clean() && Keeps(data0, f.data) && f.data.Keys == old(f.data).Keys
    ensures ValueOf(Remote(blk, |value|), f.data, f.bs) == value
    ensures f.Now() == old(f.Now()) && old(f.log) <= f.log && Steady(f.log, |old(f.log)|, old(f.Now()))
    ensures |f.log| == |old(f.log)| + CeilDiv(|value|, f.bs)
  {
    hide GoodLeaves, Flat, Tidy, View, CeilDiv;
    ghost var ents, keys, count := Flat(f.leaves), f.data.Keys, CeilDiv(|value|, f.bs);
    KeepsView(ents, data0, f.data, f.bs);
    var lblkno, src := blk, value;
    ghost var n := 0;
    BlocksLeft(0, f.bs);
    while |src| > 0
      invariant lblkno == blk + n && n + CeilDiv(|src|, f.bs) == count
      invariant Written(f.data, blk, n, value, src)
      invariant f.data.Keys == keys && Keeps(data0, f.data) && Tidy(ents, f.data, f.bs)
      invariant View(ents, f.data, f.bs) == old(f.Now())
      invariant old(f.log) <= f.log && Steady(f.log, |old(f.log)|, old(f.Now())) && |f.log| == |old(f.log)| + n
      decreases |src|
    {
      BlocksLeft(|src|, f.bs);
      var tmp := if |src| < f.bs then |src| else f.bs;
      var bytes := src[..tmp] + seq(f.bs - tmp, _ => 0);
      assert InSpan(lblkno, blk, count);
      forall b | b in Span(blk, n) ensures b in f.data {
        assert InSpan(b, blk, count);
      }
      ghost var data := f.data;
      f.WriteBlock(lblkno, bytes);
      WrittenMore(data, f.data, blk, n, value, src, bytes, f.bs);
      KeepsView(ents, data0, f.data, f.bs);
      src, lblkno, n := src[tmp..], lblkno + 1, n + 1;
    }
  }

  /** Find room for the value, allocate it, and write it. The hole is one that a search of the fork's map found. */
  method RmtvalSet(f: Fork, args: Args, hole: nat, got: nat -> nat)
    requires f.Valid() && f.Clean() && hole > 0 && Span(hole, CeilDiv(|args.value|, f.bs)) !! f.data.Keys
    modifies f`data, f`disk, f`log, args`rmtblkno, args`rmtblkcnt
    ensures f.Valid() && f.Clean() && Keeps(old(f.data), f.data)
    ensures args.rmtblkno == hole && f.data.Keys == old(f.data).Keys + Span(hole, CeilDiv(|args.value|, f.bs))
    ensures ValueOf(Remote(hole, |args.value|), f.data, f.bs) == args.value
    ensures f.Now() == old(f.Now()) && old(f.log) <= f.log && Steady(f.log, |old(f.log)|, old(f.Now()))
    ensures var n := CeilDiv(|args.value|, f.bs); |f.log| == |old(f.log)| + Rounds(n, got, 0) + n
  {
    hide GoodLeaves, Flat, Tidy, View, CeilDiv;
    ghost var data0 := f.data;
    var blkcnt := CeilDiv(|args.value|, f.bs);
    args.rmtblkno, args.rmtblkcnt := hole, blkcnt;
    AllocValue(f, hole, blkcnt, got);
    WriteValue(f, hole, args.value, data0);
  }

  /** Free the blocks of a value no complete entry has any more, an extent and a transaction at a time. */
  method RmtvalRemove(f: Fork, blk: nat, cnt: nat, got: nat -> nat)
    requires f.Valid() && f.Clean()
    requires forall i {:trigger Flat(f.leaves)[i]} :: 0 <= i < |Flat(f.leaves)| ==>
              RangeOf(Flat(f.leaves)[i], f.bs) !! Span(blk, cnt)
    modifies f`data, f`disk, f`log
    ensures f.Valid() && f.Clean() && f.data.Keys == old(f.data).Keys - Span(blk, cnt)
    ensures f.Now() == old(f.Now()) && old(f.log) <= f.log && Steady(f.log, |old(f.log)|, old(f.Now()))
    ensures |f.log| == |old(f.log)| + Rounds(cnt, got, 0)
  {
    hide GoodLeaves, Flat, Tidy, View;
    ghost var data0, ents := f.data, Flat(f.leaves);
    var lblkno, left, k := blk, cnt, 0;
    SpanNone(blk);
    while left > 0
      invariant 0 <= left <= cnt && lblkno + left == blk + cnt
      invariant f.Clean() && f.bs > 0 && Tidy(ents, f.data, f.bs) && View(ents, f.data, f.bs) == old(f.Now())
      invariant f.data.Keys == data0.Keys - Span(blk, lblkno - blk)
      invariant old(f.log) <= f.log && Steady(f.log, |old(f.log)|, old(f.Now()))
      invariant |f.log| + Rounds(left, got, k) == |old(f.log)| + Rounds(cnt, got, 0)
      decreases left
    {
      var n := Portion(left, got, k);
      ghost var data := f.data;
      f.FreeBlocks(lblkno, n);
      SpanJoin(blk, lblkno - blk, n);
      SpanJoin(blk, lblkno - blk + n, left - n);
      FreedView(ents, data, f.data, f.bs, lblkno, n);
      f.Commit();
      lblkno, left, k := lblkno + n, left - n, k + 1;
    }
  }

  lemma FreedView(ents: seq<Ent>, data: Blocks, data': Blocks, bs: nat, blk: nat, n: nat)
    requires bs > 0 && Tidy(ents, data, bs)
    requires forall i {:trigger ents[i]} :: 0 <= i < |ents| ==> RangeOf(ents[i], bs) !! Span(blk, n)
    requires data' == map b | b in data.Keys - Span(blk, n) :: data[b]
    ensures View(ents, data', bs) == View(ents, data, bs) && Tidy(ents, data', bs)
  {
    forall i | 0 <= i < |ents| ensures Agree(RangeOf(ents[i], bs), data, data') && RangeOf(ents[i], bs) <= data'.Keys {
      assert RangeOf(ents[i], bs) <= data.Keys;
    }
    ViewData(ents, data, data', bs);
  }
}
