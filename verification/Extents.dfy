/** Sets of free extents: which blocks they cover, and how taking and giving back blocks changes them. */
module Extents {
  import opened Records

  predicate Covers(r: Rec, b: nat) {
    r.start <= b < r.start + r.count
  }

  /** The blocks of an extent. */
  function Blocks(r: Rec): set<nat> {
    set b: nat | r.start <= b < r.start + r.count && Covers(r, b)
  }

  /** The blocks the extents cover. */
  ghost function Free(s: set<Rec>): set<nat> {
    set r: Rec, b: nat {:trigger Covers(r, b)} | r in s && b in Blocks(r) && Covers(r, b) :: b
  }

  /** No extent is empty, no two overlap or touch. */
  ghost predicate Apart(s: set<Rec>) {
    && (forall r :: r in s ==> r.count > 0)
    && (forall a, b :: a in s && b in s && a != b && a.start <= b.start ==> a.start + a.count < b.start)
  }

  lemma {:induction false} BlocksSize(r: Rec)
    ensures |Blocks(r)| == r.count
    decreases r.count
  {
    if r.count > 0 {
      var q := Rec(r.start, r.count - 1);
      BlocksSize(q);
      assert forall b :: b in Blocks(q) ==> Covers(q, b) && Covers(r, b);
      assert forall b :: b in Blocks(r) && b != r.start + q.count ==> Covers(q, b);
      assert Blocks(r) == Blocks(q) + {r.start + q.count};
    }
  }

  lemma InFree(s: set<Rec>, r: Rec, b: nat)
    requires r in s && Covers(r, b)
    ensures b in Free(s)
  {
    assert b in Blocks(r);
  }

  lemma FreePlus(s: set<Rec>, r: Rec)
    ensures Free(s + {r}) == Free(s) + Blocks(r)
  {
    forall b | b in Free(s) + Blocks(r) ensures b in Free(s + {r}) {
      if b in Free(s) {
        var q :| q in s && Covers(q, b);
        InFree(s + {r}, q, b);
      } else {
        assert Covers(r, b);
        InFree(s + {r}, r, b);
      }
    }
  }

  lemma FreeMinus(s: set<Rec>, r: Rec)
    requires Apart(s) && r in s
    ensures Free(s - {r}) == Free(s) - Blocks(r)
    ensures Blocks(r) <= Free(s)
    ensures Apart(s - {r})
  {
    FreePlus(s - {r}, r);
    assert s - {r} + {r} == s;
    forall b | b in Free(s - {r}) ensures b !in Blocks(r) {
      var q :| q in s - {r} && Covers(q, b);
      assert b in Blocks(r) ==> Covers(r, b);
    }
  }

  /** The extents that cover given blocks without touching are determined by the blocks. */
  lemma Canonical(s: set<Rec>, t: set<Rec>)
    requires Apart(s) && Apart(t) && Free(s) == Free(t)
    ensures s == t
  {
    forall r | r in s ensures r in t {
      CanonicalOne(s, t, r);
    }
    forall r | r in t ensures r in s {
      CanonicalOne(t, s, r);
    }
  }

  lemma CanonicalOne(s: set<Rec>, t: set<Rec>, r: Rec)
    requires Apart(s) && Apart(t) && Free(s) == Free(t) && r in s
    ensures r in t
  {
    InFree(s, r, r.start);
    var q :| q in t && Covers(q, r.start);
    NoMore(s, t, r, q);
    NoMore(t, s, q, r);
  }

  /** Of two overlapping extents of sets that cover the same, one lies in the other. */
  lemma NoMore(s: set<Rec>, t: set<Rec>, r: Rec, q: Rec)
    requires Apart(s) && Apart(t) && Free(s) == Free(t) && r in s && q in t
    requires Covers(q, r.start) || Covers(r, q.start)
    ensures r.start <= q.start && q.start + q.count <= r.start + r.count
  {
    if q.start < r.start {
      InFree(t, q, r.start - 1);
    }
    if r.start + r.count < q.start + q.count {
      InFree(t, q, r.start + r.count);
    }
  }

  /** The extents and one more, if that is not empty. */
  ghost function With(s: set<Rec>, r: Rec): set<Rec> {
    if r.count > 0 then s + {r} else s
  }

  lemma FreeWith(s: set<Rec>, r: Rec)
    ensures Free(With(s, r)) == Free(s) + Blocks(r)
  {
    FreePlus(s, r);
  }

  lemma FreeWithout(s: set<Rec>, r: Rec)
    requires Apart(s) && (r in s || r.count == 0)
    ensures Free(s - {r}) == Free(s) - Blocks(r)
    ensures Blocks(r) <= Free(s)
    ensures Apart(s - {r})
  {
    if r in s {
      FreeMinus(s, r);
    } else {
      assert s - {r} == s;
    }
  }

  lemma BlocksJoin(a: Rec, b: Rec)
    requires a.start + a.count == b.start
    ensures Blocks(Rec(a.start, a.count + b.count)) == Blocks(a) + Blocks(b)
    ensures Blocks(a) !! Blocks(b)
  {
    var c := Rec(a.start, a.count + b.count);
    forall x ensures x in Blocks(c) <==> x in Blocks(a) + Blocks(b) {
      assert Covers(c, x) <==> Covers(a, x) || Covers(b, x);
    }
  }

  /** What is left before and after r when it is taken from extent f. */
  ghost function Front(f: Rec, r: Rec): Rec
    requires f.start <= r.start
  {
    Rec(f.start, r.start - f.start)
  }

  ghost function Back(f: Rec, r: Rec): Rec
    requires r.start + r.count <= f.start + f.count
  {
    Rec(r.start + r.count, f.start + f.count - r.start - r.count)
  }

  /** Taking part of an extent takes just its blocks. */
  lemma Taken(s: set<Rec>, f: Rec, r: Rec)
    requires Apart(s) && f in s && r.count > 0
    requires f.start <= r.start && r.start + r.count <= f.start + f.count
    ensures var s' := With(With(s - {f}, Front(f, r)), Back(f, r));
            && Apart(s')
            && Free(s') == Free(s) - Blocks(r)
            && Blocks(r) <= Free(s)
  {
    var a, b := Front(f, r), Back(f, r);
    FreeMinus(s, f);
    FreeWith(s - {f}, a);
    FreeWith(With(s - {f}, a), b);
    BlocksJoin(a, r);
    BlocksJoin(Rec(a.start, a.count + r.count), b);
    assert Blocks(f) == Blocks(a) + Blocks(r) + Blocks(b);
  }

  /** Extent r may be given back, with l free just before it and g just after; both may be empty. */
  ghost predicate Fits(s: set<Rec>, l: Rec, r: Rec, g: Rec) {
    && Apart(s) && r.count > 0 && Blocks(r) !! Free(s)
    && (l in s || l.count == 0)
    && (g in s || g.count == 0)
    && l.start + l.count == r.start && r.start + r.count == g.start
    && forall q :: q in s && q != l && q != g ==> q.start + q.count < r.start || r.start + r.count < q.start
  }

  function Joined(l: Rec, r: Rec, g: Rec): Rec {
    Rec(l.start, l.count + r.count + g.count)
  }

  lemma JoinedApart(s: set<Rec>, l: Rec, r: Rec, g: Rec)
    requires Fits(s, l, r, g)
    ensures Apart(s - {l} - {g} + {Joined(l, r, g)})
  {
    var e := Joined(l, r, g);
    forall q | q in s && q != l && q != g
      ensures q.start + q.count < e.start || e.start + e.count < q.start {
    }
  }

  /** Giving back an extent, joined with what is free before and after it, gives back just its blocks. */
  lemma Given(s: set<Rec>, l: Rec, r: Rec, g: Rec)
    requires Fits(s, l, r, g)
    ensures Apart(s - {l} - {g} + {Joined(l, r, g)})
    ensures Free(s - {l} - {g} + {Joined(l, r, g)}) == Free(s) + Blocks(r)
  {
    JoinedApart(s, l, r, g);
    FreeWithout(s, l);
    FreeWithout(s - {l}, g);
    FreePlus(s - {l} - {g}, Joined(l, r, g));
    BlocksJoin(l, r);
    BlocksJoin(Rec(l.start, l.count + r.count), g);
  }
}
