/** An allocation request, and the trimming of the length found for it. */
module AllocArgs {
  import opened Records
  import opened AllocMath
  import opened Arith

  /** Where in the group: anywhere, near a block, or at a block. */
  datatype AllocType = ThisAg | NearBno | ThisBno

  /** What a request asks for, wherever. */
  datatype Ask = Ask(minlen: nat, maxlen: nat, alignment: nat, mod: nat, prod: nat, minleft: nat) {
    predicate Proper() { 0 < minlen <= maxlen && mod < prod && alignment > 0 }

    /** The most blocks it may get of so many. */
    function Most(have: int): int {
      if minleft == 0 then maxlen else Least(maxlen, have - minleft)
    }
  }

  /** The blocks a request gets where there are count in a row, and have in all. */
  function Yields(a: Ask, count: nat, have: int): int
    requires a.mod < a.prod
  {
    Least(LenFixed(Least(count, a.maxlen), a.minlen, a.maxlen, a.mod, a.prod), have - a.minleft)
  }

  predicate Yielded(a: Ask, count: int, have: int, len: nat) {
    a.minleft <= have ==> a.Proper() && count >= 0 && len == Yields(a, count, have)
  }

  class Args {
    var kind: AllocType
    var agbno: nat
    var len: nat
    var minlen: nat
    var maxlen: nat
    var mod: nat
    var prod: nat
    var minleft: nat
    var total: nat
    var alignment: nat
    var minalignslop: nat
    var isfl: bool
    var wasfromfl: bool

    constructor ()
      ensures fresh(this)
    {
    }

    /** What the allocator asserts of a request. */
    predicate Proper()
      reads this
    {
      0 < minlen <= maxlen && mod < prod && alignment > 0
    }

    function Asked(): Ask
      reads this
    {
      Ask(minlen, maxlen, alignment, mod, prod, minleft)
    }

    /** The fields of a request are 32 bits wide. */
    predicate Small()
      reads this
    {
      maxlen < U32 && minleft < U32
    }

    /** Of so many blocks, minlen would not leave as many as have to be left. */
    predicate Lacks(have: int)
      reads this
    {
      minleft > 0 && have < minlen + minleft
    }

    /**
     * Fix up the length. The comment in the source wants k * prod + mod; the code subtracts mod from
     * a multiple. The length never grows, stays long enough, and is what the comment wants just if WantedForm holds.
     */
    method FixLen()
      requires mod < prod
      modifies `len
      ensures len <= old(len) && (minlen <= old(len) ==> minlen <= len)
      ensures len == old(len) <==> !Cut(old(len), minlen, maxlen, mod, prod)
      ensures len % prod == mod <==> WantedForm(old(len), minlen, maxlen, mod, prod)
      ensures len == LenFixed(old(len), minlen, maxlen, mod, prod)
    {
      LenFixedRange(len, minlen, maxlen, mod, prod);
      LenFixedForm(len, minlen, maxlen, mod, prod);
      var rlen := len;
      if prod <= 1 || rlen < mod || rlen == maxlen || (mod == 0 && rlen < prod) {
        return;
      }
      var k := rlen % prod;
      if k == mod {
        return;
      }
      if k > mod {
        if rlen - k - mod < minlen {
          return;
        }
        len := rlen - k - mod;
      } else {
        if rlen - prod - (mod - k) < minlen {
          return;
        }
        len := rlen - prod - (mod - k);
      }
    }

    /** With so many blocks, enough is left; nothing is said of more than 2^31 to be left. */
    predicate Leaves(have: int)
      reads this
    {
      len <= have && (minleft <= 0x8000_0000 ==> len + minleft <= have)
    }

    /**
     * Shrink the length if too little space would be left in the group; false to give up. The difference
     * is computed in unsigned 32-bit arithmetic and read as signed: where even minleft is more than there
     * is, the length wraps round to more than there is; where it is more by 2^31, nothing is checked.
     */
    method FixMinleft(freeblks: nat, flcount: nat) returns (ok: bool)
      modifies `len, `agbno
      ensures var have := freeblks + flcount;
              have < 0x8000_0000 && old(len) + minleft <= have + U32 ==>
                if minleft == 0 || have + 0x8000_0000 < old(len) + minleft then len == old(len)
                else if have >= minleft then len == Least(old(len), have - minleft)
                else len == U32 + have - minleft > have
      ensures len == LenLeft(old(len), minleft, freeblks + flcount)
      ensures ok <==> len == old(len) || len >= minlen
      ensures agbno == if ok then old(agbno) else NULLAGBLOCK
    {
      if minleft == 0 {
        return true;
      }
      var diff := Int32(freeblks + flcount - len - minleft);
      if diff >= 0 {
        return true;
      }
      len := (len + diff) % U32;
      if len >= minlen {
        return true;
      }
      agbno := NULLAGBLOCK;
      ok := false;
    }
  }

  /** What FixMinleft makes of a length when there are have blocks. */
  function LenLeft(len: nat, minleft: nat, have: nat): nat {
    var diff := Int32(have - len - minleft);
    if minleft == 0 || diff >= 0 then len else (len + diff) % U32
  }

  /**
   * Where the difference does not wrap, the length never grows if and only if there is as much as has to be left, and
   * then just that is left. Where it wraps, the length stays.
   */
  lemma LenLeftForm(len: nat, minleft: nat, have: nat)
    requires have < 0x8000_0000 && len + minleft <= have + U32
    ensures minleft == 0 || have + 0x8000_0000 < len + minleft ==> LenLeft(len, minleft, have) == len
    ensures len + minleft <= have + 0x8000_0000 ==>
              && (LenLeft(len, minleft, have) <= len <==> minleft == 0 || have >= minleft)
              && (0 < minleft <= have ==> LenLeft(len, minleft, have) == Least(len, have - minleft))
              && (minleft > have ==> LenLeft(len, minleft, have) == U32 + have - minleft >= 0x8000_0000 + len)
  {
  }

  /** With one block there and two to be left, a length of one becomes the greatest there is. */
  lemma LenLeftWraps()
    ensures LenLeft(1, 2, 0 + 1) == U32 - 1
  {
  }

  /** A length that FixLen cuts: not the wanted form, not the greatest, and long enough afterwards. */
  predicate Cut(len: nat, minlen: nat, maxlen: nat, mod: nat, prod: nat)
    requires mod < prod
  {
    && prod > 1 && mod <= len != maxlen && (mod == 0 ==> len >= prod)
    && len % prod != mod
    && minlen <= if len % prod > mod then len - len % prod - mod else len - prod - (mod - len % prod)
  }

  /**
   * When the result is what the comment wants: a length that is cut, in these cases only: from a remainder above mod,
   * if mod is 0 or half of prod; from one below, if it is half of prod below. Any other length, if it is so already.
   */
  predicate WantedForm(len: nat, minlen: nat, maxlen: nat, mod: nat, prod: nat)
    requires mod < prod
  {
    var k := len % prod;
    if Cut(len, minlen, maxlen, mod, prod) then (if k > mod then mod == 0 || 2 * mod == prod else 2 * (mod - k) == prod)
    else k == mod
  }

  /** What FixLen makes of a length: the next lower multiple of prod with mod taken off, if that is not too short. */
  function LenFixed(len: nat, minlen: nat, maxlen: nat, mod: nat, prod: nat): nat
    requires mod < prod
  {
    var k := len % prod;
    var cut := if k > mod then len - k - mod else len - prod - (mod - k);
    if prod <= 1 || len < mod || len == maxlen || (mod == 0 && len < prod) || k == mod || cut < minlen then len
    else cut
  }

  /** The length never grows, and stays within the limits if it was. */
  lemma LenFixedRange(len: nat, minlen: nat, maxlen: nat, mod: nat, prod: nat)
    requires mod < prod
    ensures LenFixed(len, minlen, maxlen, mod, prod) <= len
    ensures minlen <= len ==> minlen <= LenFixed(len, minlen, maxlen, mod, prod)
    ensures prod <= 1 ==> LenFixed(len, minlen, maxlen, mod, prod) == len
  {
  }

  /** Which lengths are cut, and which come out as mod more than a multiple of prod. */
  lemma LenFixedForm(len: nat, minlen: nat, maxlen: nat, mod: nat, prod: nat)
    requires mod < prod
    ensures LenFixed(len, minlen, maxlen, mod, prod) != len <==> Cut(len, minlen, maxlen, mod, prod)
    ensures LenFixed(len, minlen, maxlen, mod, prod) % prod == mod <==> WantedForm(len, minlen, maxlen, mod, prod)
  {
    if Cut(len, minlen, maxlen, mod, prod) {
      CutForm(len, minlen, maxlen, mod, prod);
    }
  }

  lemma CutForm(len: nat, minlen: nat, maxlen: nat, mod: nat, prod: nat)
    requires mod < prod && Cut(len, minlen, maxlen, mod, prod)
    ensures LenFixed(len, minlen, maxlen, mod, prod) % prod == mod
            <==> if len % prod > mod then mod == 0 || 2 * mod == prod else 2 * (mod - len % prod) == prod
  {
    var k, q := len % prod, len / prod;
    assert len == q * prod + k;
    var cut := LenFixed(len, minlen, maxlen, mod, prod);
    assert (q - 1) * prod == q * prod - prod;
    assert (q - 2) * prod == q * prod - 2 * prod;
    if k > mod {
      ModIs(cut, prod, if mod == 0 then q else q - 1, if mod == 0 then 0 else prod - mod);
    } else {
      ModIs(cut, prod, if 2 * k >= mod then q - 1 else q - 2, if 2 * k >= mod then 2 * k - mod else prod + 2 * k - mod);
    }
  }

  /** A length of 11 is cut to 7, which is not 1 more than a multiple of 4. */
  lemma LenFixedMisses()
    ensures LenFixed(11, 1, 20, 1, 4) == 7 && 7 % 4 != 1
  {
  }
}
