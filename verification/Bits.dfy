/** 32-bit words as rows of bits, and the scans over a bitmap of such words. */
module Bits {

  /** An unsigned int. */
  type Word = w: bv32 | true

  /** The word operations, named so that proofs about bits need not look into words. */
  function Or(v: bv32, w: bv32): bv32 { v | w }

  function And(v: bv32, w: bv32): bv32 { v & w }

  function Xor(v: bv32, w: bv32): bv32 { v ^ w }

  function Not(w: bv32): bv32 { !w }

  function Half(w: bv32): bv32 { w >> 1 }

  function Twice(w: bv32): bv32 { w << 1 }

  function Prior(w: bv32): bv32 { w - 1 }

  /** Shifts by n places, one place after the other. */
  function Shl(w: bv32, n: nat): bv32 {
    if n == 0 then w else Twice(Shl(w, n - 1))
  }

  function Shr(w: bv32, n: nat): bv32 {
    if n == 0 then w else Half(Shr(w, n - 1))
  }

  predicate Odd(w: bv32) { w & 1 == 1 }

  predicate Zero(w: bv32) { w == 0 }

  predicate Ones(w: bv32) { w == 0xffff_ffff }

  predicate AtMost(w: bv32, v: bv32) { w <= v }

  /** Bit i of a word. */
  predicate Bit(w: bv32, i: nat)
    requires i < 32
    decreases i
  {
    if i == 0 then Odd(w) else Bit(Half(w), i - 1)
  }

  lemma OrWord(v: bv32, w: bv32)
    ensures Half(Or(v, w)) == Or(Half(v), Half(w))
    ensures Odd(Or(v, w)) <==> Odd(v) || Odd(w)
  {
  }

  lemma AndWord(v: bv32, w: bv32)
    ensures Half(And(v, w)) == And(Half(v), Half(w))
    ensures Odd(And(v, w)) <==> Odd(v) && Odd(w)
  {
  }

  lemma XorWord(v: bv32, w: bv32)
    ensures Half(Xor(v, w)) == Xor(Half(v), Half(w))
    ensures Odd(Xor(v, w)) <==> Odd(v) != Odd(w)
  {
  }

  lemma {:induction false} OrBit(v: bv32, w: bv32, i: nat)
    requires i < 32
    ensures Bit(Or(v, w), i) <==> Bit(v, i) || Bit(w, i)
    decreases i
  {
    hide Or, Half, Odd;
    OrWord(v, w);
    if i > 0 {
      OrBit(Half(v), Half(w), i - 1);
    }
  }

  lemma {:induction false} AndBit(v: bv32, w: bv32, i: nat)
    requires i < 32
    ensures Bit(And(v, w), i) <==> Bit(v, i) && Bit(w, i)
    decreases i
  {
    hide And, Half, Odd;
    AndWord(v, w);
    if i > 0 {
      AndBit(Half(v), Half(w), i - 1);
    }
  }

  lemma {:induction false} XorBit(v: bv32, w: bv32, i: nat)
    requires i < 32
    ensures Bit(Xor(v, w), i) <==> Bit(v, i) != Bit(w, i)
    decreases i
  {
    hide Xor, Half, Odd;
    XorWord(v, w);
    if i > 0 {
      XorBit(Half(v), Half(w), i - 1);
    }
  }

  /** A word with the n lowest bits set. */
  function Low(n: nat): bv32
    requires n <= 32
  {
    match n
    case 0 => 0x0 case 1 => 0x1 case 2 => 0x3 case 3 => 0x7
    case 4 => 0xf case 5 => 0x1f case 6 => 0x3f case 7 => 0x7f
    case 8 => 0xff case 9 => 0x1ff case 10 => 0x3ff case 11 => 0x7ff
    case 12 => 0xfff case 13 => 0x1fff case 14 => 0x3fff case 15 => 0x7fff
    case 16 => 0xffff case 17 => 0x1ffff case 18 => 0x3ffff case 19 => 0x7ffff
    case 20 => 0xfffff case 21 => 0x1fffff case 22 => 0x3fffff case 23 => 0x7fffff
    case 24 => 0xffffff case 25 => 0x1ffffff case 26 => 0x3ffffff case 27 => 0x7ffffff
    case 28 => 0xfffffff case 29 => 0x1fffffff case 30 => 0x3fffffff case 31 => 0x7fffffff
    case 32 => 0xffffffff
  }

  lemma LowHalf(n: nat)
    requires 0 < n <= 32
    ensures Odd(Low(n)) && Half(Low(n)) == Low(n - 1)
  {
  }

  lemma LowEnds()
    ensures Zero(Low(0)) && Ones(Low(32))
  {
  }

  lemma ZeroWord(w: bv32)
    requires Zero(w)
    ensures !Odd(w) && Zero(Half(w))
  {
  }

  lemma {:induction false} ZeroBit(w: bv32, i: nat)
    requires i < 32 && Zero(w)
    ensures !Bit(w, i)
    decreases i
  {
    hide Zero, Half, Odd;
    ZeroWord(w);
    if i > 0 {
      ZeroBit(Half(w), i - 1);
    }
  }

  lemma {:induction false} LowBit(n: nat, i: nat)
    requires n <= 32 && i < 32
    ensures Bit(Low(n), i) <==> i < n
    decreases i
  {
    hide Low, Zero, Half, Odd;
    LowEnds();
    if n == 0 {
      ZeroBit(Low(0), i);
    } else {
      LowHalf(n);
      if i > 0 {
        LowBit(n - 1, i - 1);
      }
    }
  }

  lemma SameOnes(v: bv32, w: bv32)
    requires Ones(v) && Ones(w)
    ensures v == w
  {
  }

  lemma OnesBit(w: bv32, i: nat)
    requires i < 32 && Ones(w)
    ensures Bit(w, i)
  {
    hide Low, Bit, Ones;
    LowEnds();
    SameOnes(w, Low(32));
    LowBit(32, i);
  }

  lemma TwiceWord(w: bv32)
    ensures !Odd(Twice(w)) && Half(Twice(w)) == And(w, Low(31))
  {
  }

  lemma TwiceBit(w: bv32, i: nat)
    requires i < 32
    ensures Bit(Twice(w), i) <==> 0 < i && Bit(w, i - 1)
  {
    hide Twice, Half, Odd, And, Low;
    TwiceWord(w);
    if i > 0 {
      AndBit(w, Low(31), i - 1);
      LowBit(31, i - 1);
    }
  }

  lemma {:induction false} ShlBit(w: bv32, n: nat, i: nat)
    requires n < 32 && i < 32
    ensures Bit(Shl(w, n), i) <==> n <= i && Bit(w, i - n)
    decreases n
  {
    hide Bit, Twice;
    if n > 0 {
      TwiceBit(Shl(w, n - 1), i);
      if i > 0 {
        ShlBit(w, n - 1, i - 1);
      }
    }
  }

  /** The n lowest bits, by a shift up and a subtraction, and by a shift down. */
  function Ahead(n: nat): bv32 {
    Prior(Shl(1, n))
  }

  function Below(n: nat): bv32
    requires 0 < n < 32
  {
    Shr(0xffff_ffff, 32 - n)
  }

  lemma LowTwice(n: nat)
    requires 0 < n <= 32
    ensures Low(n) == Twice(Low(n - 1)) + 1
  {
  }

  lemma PriorTwice(v: bv32, w: bv32)
    requires Prior(v) == w
    ensures Prior(Twice(v)) == Twice(w) + 1
  {
  }

  lemma PriorOne()
    ensures Prior(1) == 0 == Low(0)
  {
  }

  lemma {:induction false} AheadIs(n: nat)
    requires n <= 32
    ensures Ahead(n) == Low(n)
  {
    hide Low, Twice, Prior;
    PriorOne();
    if n > 0 {
      AheadIs(n - 1);
      LowTwice(n);
      PriorTwice(Shl(1, n - 1), Low(n - 1));
    }
  }

  lemma {:induction false} ShrIs(n: nat)
    requires n <= 32
    ensures Shr(0xffff_ffff, n) == Low(32 - n)
  {
    hide Low, Half;
    LowEnds();
    if n == 0 {
      SameOnes(0xffff_ffff, Low(32));
    } else {
      ShrIs(n - 1);
      LowHalf(33 - n);
    }
  }

  /** The masks: ones in lo..hi, and ones from b up. */
  function Mask(lo: nat, hi: nat): bv32
    requires lo <= hi <= 32 && lo < 32
  {
    Shl(Ahead(hi - lo), lo)
  }

  function From(b: nat): bv32
    requires b < 32
  {
    Shl(0xffff_ffff, b)
  }

  lemma MaskBit(lo: nat, hi: nat, i: nat)
    requires lo <= hi <= 32 && lo < 32 && i < 32
    ensures Bit(Mask(lo, hi), i) <==> lo <= i < hi
  {
    hide Low, Bit, Ahead, Shl;
    AheadIs(hi - lo);
    ShlBit(Low(hi - lo), lo, i);
    if lo <= i {
      LowBit(hi - lo, i - lo);
    }
  }

  lemma FromBit(b: nat, i: nat)
    requires b < 32 && i < 32
    ensures Bit(From(b), i) <==> b <= i
  {
    hide Bit, Shl;
    ShlBit(0xffff_ffff, b, i);
    if b <= i {
      OnesBit(0xffff_ffff, i - b);
    }
  }

  lemma BelowBit(b: nat, i: nat)
    requires 0 < b < 32 && i < 32
    ensures Bit(Below(b), i) <==> i < b
  {
    hide Bit, Low, Shr;
    ShrIs(32 - b);
    LowBit(b, i);
  }

  lemma NotWord(w: bv32)
    ensures Not(w) == Xor(w, Low(32))
    ensures Zero(Not(w)) <==> Ones(w)
  {
  }

  lemma NotBit(w: bv32, i: nat)
    requires i < 32
    ensures Bit(Not(w), i) <==> !Bit(w, i)
  {
    hide Bit, Not, Xor, Low, Zero, Ones;
    NotWord(w);
    XorBit(w, Low(32), i);
    LowBit(32, i);
  }

  lemma HalfWord(w: bv32, v: bv32)
    requires !Zero(w) && AtMost(w, v)
    ensures AtMost(Half(w), Half(v))
    ensures !Zero(v)
    ensures Odd(w) || !Zero(Half(w))
  {
  }

  lemma {:induction false} SomeBit(w: bv32, n: nat)
    requires n <= 32 && !Zero(w) && AtMost(w, Low(n))
    ensures exists i: nat :: i < n && Bit(w, i)
    decreases n
  {
    hide Low, AtMost, Zero, Odd, Half;
    HalfWord(w, Low(n));
    LowEnds();
    if Odd(w) {
      assert Bit(w, 0);
    } else {
      LowHalf(n);
      SomeBit(Half(w), n - 1);
      var i: nat :| i < n - 1 && Bit(Half(w), i);
      assert Bit(w, i + 1);
    }
  }

  lemma AnyAtMost(w: bv32)
    ensures AtMost(w, Low(32))
  {
  }

  /** The place of the least bit set, which is the kernel's ffs less one. */
  function LeastFrom(w: bv32, i: nat): (r: nat)
    requires i < 32 && exists k: nat :: i <= k < 32 && Bit(w, k)
    ensures i <= r < 32 && Bit(w, r)
    ensures forall k: nat :: i <= k < r ==> !Bit(w, k)
    decreases 32 - i
  {
    if Bit(w, i) then i else LeastFrom(w, i + 1)
  }

  function Ffs(w: bv32): (r: nat)
    requires !Zero(w)
    ensures r < 32 && Bit(w, r)
    ensures forall k: nat :: k < r ==> !Bit(w, k)
  {
    AnyAtMost(w);
    SomeBit(w, 32);
    LeastFrom(w, 0)
  }

  /** The place of the least bit that is not set. */
  function Ffz(w: bv32): (r: nat)
    requires !Ones(w)
    ensures r < 32 && !Bit(w, r)
    ensures forall k: nat :: k < r ==> Bit(w, k)
  {
    NotWord(w);
    var r := Ffs(Not(w));
    NotBits(w);
    r
  }

  lemma NotBits(w: bv32)
    ensures forall i: nat :: i < 32 ==> (Bit(Not(w), i) <==> !Bit(w, i))
  {
    hide Not, Bit;
    forall i: nat | i < 32 ensures Bit(Not(w), i) <==> !Bit(w, i) {
      NotBit(w, i);
    }
  }

  /** Bit b of a bitmap. */
  predicate Set(m: seq<bv32>, b: nat) {
    b < 32 * |m| && Bit(m[b / 32], b % 32)
  }

  /** The least bit set at start or above is r, or there is none and r is -1. */
  ghost predicate Next(m: seq<bv32>, start: nat, r: int) {
    && (r == -1 || (start <= r && Set(m, r)))
    && forall b: nat :: start <= b && Set(m, b) ==> r != -1 && r <= b
  }

  /** The bits from start on that are set without a gap number n. */
  ghost predicate Contig(m: seq<bv32>, start: nat, n: nat) {
    && !Set(m, start + n)
    && forall b: nat :: start <= b < start + n ==> Set(m, b)
  }

  /** No bit is set, or every bit is, between two places. */
  ghost predicate None(m: seq<bv32>, lo: nat, hi: nat) {
    forall b: nat :: lo <= b < hi ==> !Set(m, b)
  }

  ghost predicate Every(m: seq<bv32>, lo: nat, hi: nat) {
    forall b: nat :: lo <= b < hi ==> Set(m, b)
  }

  /** What one word says about the bits it holds. */
  lemma WordNone(m: seq<bv32>, w: nat, from: nat, to: nat)
    requires w < |m| && from <= to <= 32
    requires forall i: nat :: from <= i < to ==> !Bit(m[w], i)
    ensures None(m, 32 * w + from, 32 * w + to)
  {
    hide Bit;
    forall b: nat | 32 * w + from <= b < 32 * w + to ensures !Set(m, b) {
      assert b / 32 == w && b % 32 == b - 32 * w;
    }
  }

  lemma WordEvery(m: seq<bv32>, w: nat, from: nat, to: nat)
    requires w < |m| && from <= to <= 32
    requires forall i: nat :: from <= i < to ==> Bit(m[w], i)
    ensures Every(m, 32 * w + from, 32 * w + to)
  {
    hide Bit;
    forall b: nat | 32 * w + from <= b < 32 * w + to ensures Set(m, b) {
      assert b / 32 == w && b % 32 == b - 32 * w;
    }
  }

  lemma WordSet(m: seq<bv32>, w: nat, i: nat)
    requires w < |m| && i < 32
    ensures Set(m, 32 * w + i) <==> Bit(m[w], i)
  {
    hide Bit;
    assert (32 * w + i) / 32 == w && (32 * w + i) % 32 == i;
  }

  /** The first word of a scan with the bits before the start taken away. */
  lemma HeadCleared(w: bv32, s: nat)
    requires s < 32
    ensures var t := And(w, From(s));
            if Zero(t) then forall i: nat :: s <= i < 32 ==> !Bit(w, i)
            else s <= Ffs(t) && Bit(w, Ffs(t)) && forall i: nat :: s <= i < Ffs(t) ==> !Bit(w, i)
  {
    hide *;
    var t := And(w, From(s));
    forall i: nat | i < 32 ensures Bit(t, i) <==> Bit(w, i) && s <= i {
      AndBit(w, From(s), i);
      FromBit(s, i);
    }
    if Zero(t) {
      forall i: nat | s <= i < 32 ensures !Bit(w, i) {
        ZeroBit(t, i);
      }
    } else {
      assert Bit(t, Ffs(t));
    }
  }

  lemma HeadFilled(w: bv32, s: nat)
    requires 0 < s < 32
    ensures var t := Or(w, Below(s));
            if Ones(t) then forall i: nat :: s <= i < 32 ==> Bit(w, i)
            else s <= Ffz(t) && !Bit(w, Ffz(t)) && forall i: nat :: s <= i < Ffz(t) ==> Bit(w, i)
  {
    hide *;
    var t := Or(w, Below(s));
    forall i: nat | i < 32 ensures Bit(t, i) <==> Bit(w, i) || i < s {
      OrBit(w, Below(s), i);
      BelowBit(s, i);
    }
    if Ones(t) {
      forall i: nat | s <= i < 32 ensures Bit(w, i) {
        OnesBit(t, i);
      }
    } else {
      assert !Bit(t, Ffz(t));
    }
  }

  /** The next bit set at start or after it among the first size words, or -1. */
  method NextBit(words: array<Word>, size: nat, start: nat) returns (r: int)
    requires size <= words.Length
    ensures -1 <= r
    ensures Next(words[..size], start, r)
  {
    hide Bit, From, Below, Ffs, Ffz, Zero, Ones, And, Or;
    ghost var m := words[..size];
    var p := start / 32;
    var result := start / 32 * 32;
    if start >= 32 * size {
      return -1;
    }
    var left := 32 * size - result;
    var s := start % 32;
    if s != 0 {
      var tmp := And(words[p], From(s));
      HeadCleared(words[p], s);
      if !Zero(tmp) {
        WordNone(m, p, s, Ffs(tmp));
        WordSet(m, p, Ffs(tmp));
        return result + Ffs(tmp);
      }
      WordNone(m, p, s, 32);
      p, result, left := p + 1, result + 32, left - 32;
    }
    while left != 0
      invariant 0 <= left && result == 32 * p && result + left == 32 * size
      invariant None(m, start, result)
      invariant result >= start
      decreases left
    {
      var tmp := words[p];
      if !Zero(tmp) {
        WordNone(m, p, 0, Ffs(tmp));
        WordSet(m, p, Ffs(tmp));
        return result + Ffs(tmp);
      }
      forall i: nat | i < 32 ensures !Bit(tmp, i) {
        ZeroBit(tmp, i);
      }
      WordNone(m, p, 0, 32);
      p, result, left := p + 1, result + 32, left - 32;
    }
    return -1;
  }

  /** How many bits are set without a gap from start on. */
  method ContigBits(words: array<Word>, size: nat, start: nat) returns (r: nat)
    requires size <= words.Length && start < 32 * size
    ensures Contig(words[..size], start, r)
  {
    hide Bit, From, Below, Ffs, Ffz, Zero, Ones, And, Or;
    ghost var m := words[..size];
    var p := start / 32;
    var result := 0;
    var left := 32 * size - start / 32 * 32;
    var s := start % 32;
    if s != 0 {
      var tmp := Or(words[p], Below(s));
      HeadFilled(words[p], s);
      if !Ones(tmp) {
        WordEvery(m, p, s, Ffz(tmp));
        WordSet(m, p, Ffz(tmp));
        return result + Ffz(tmp) - s;
      }
      WordEvery(m, p, s, 32);
      p, result, left := p + 1, result + 32, left - 32;
    }
    while left != 0
      invariant 0 <= left && 32 * p + left == 32 * size && start - s + result == 32 * p
      invariant result >= s
      invariant Every(m, start, start - s + result)
      decreases left
    {
      var tmp := words[p];
      if !Ones(tmp) {
        WordEvery(m, p, 0, Ffz(tmp));
        WordSet(m, p, Ffz(tmp));
        return result + Ffz(tmp) - s;
      }
      forall i: nat | i < 32 ensures Bit(tmp, i) {
        OnesBit(tmp, i);
      }
      WordEvery(m, p, 0, 32);
      p, result, left := p + 1, result + 32, left - 32;
    }
    return result - s;
  }
}
