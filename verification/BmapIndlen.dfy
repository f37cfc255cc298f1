/** Blocks reserved for the btree that a delayed extent may come to need. */
module BmapIndlen {
  import opened Arith

  /** The sizes that matter: records of a leaf and of a node, and the most levels. */
  datatype Geometry = Geometry(leafrecs: nat, noderecs: nat, maxlevels: nat) {
    predicate Proper() { leafrecs > 0 && noderecs > 0 }
  }

  /** The blocks of n levels, each level one block for every m of the level below. */
  function Levels(len: nat, first: nat, rest: nat, n: nat): nat
    requires first > 0 && rest > 0
    decreases n
  {
    if n == 0 then 0
    else
      var blocks := CeilDiv(len, first);
      blocks + Levels(blocks, rest, rest, n - 1)
  }

  /** The worst number of btree blocks for len extents of one block. */
  function Worst(g: Geometry, len: nat): nat
    requires g.Proper()
  {
    Levels(len, g.leafrecs, g.noderecs, g.maxlevels)
  }

  /** One block needs one above it at every level. */
  lemma {:induction false} LevelsOne(first: nat, rest: nat, n: nat)
    requires first > 0 && rest > 0
    ensures Levels(1, first, rest, n) == n
    decreases n
  {
    if n > 0 {
      ModIs(first, first, 1, 0);
      LevelsOne(rest, rest, n - 1);
    }
  }

  /** More extents never need fewer blocks. */
  lemma {:induction false} LevelsMono(a: nat, b: nat, first: nat, rest: nat, n: nat)
    requires first > 0 && rest > 0 && a <= b
    ensures Levels(a, first, rest, n) <= Levels(b, first, rest, n)
    decreases n
  {
    if n > 0 {
      CeilDivMono(a, b, first);
      LevelsMono(CeilDiv(a, first), CeilDiv(b, first), rest, rest, n - 1);
    }
  }

  /** Two runs of extents together need no more blocks than apart. */
  lemma {:induction false} LevelsAdd(a: nat, b: nat, first: nat, rest: nat, n: nat)
    requires first > 0 && rest > 0
    ensures Levels(a + b, first, rest, n) <= Levels(a, first, rest, n) + Levels(b, first, rest, n)
    decreases n
  {
    if n > 0 {
      CeilDivAdd(a, b, first);
      LevelsMono(CeilDiv(a + b, first), CeilDiv(a, first) + CeilDiv(b, first), rest, rest, n - 1);
      LevelsAdd(CeilDiv(a, first), CeilDiv(b, first), rest, rest, n - 1);
    }
  }

  /** Compute the worst case level by level; once a level is one block, so are those above. */
  method WorstIndlen(g: Geometry, len0: nat) returns (rval: nat)
    requires g.Proper()
    ensures rval == Worst(g, len0)
  {
    var len, maxrecs, level := len0, g.leafrecs, 0;
    rval := 0;
    while level < g.maxlevels
      invariant 0 <= level <= g.maxlevels
      invariant maxrecs == if level == 0 then g.leafrecs else g.noderecs
      invariant rval + Levels(len, maxrecs, g.noderecs, g.maxlevels - level) == Worst(g, len0)
    {
      len := (len + (maxrecs - 1)) / maxrecs;
      rval := rval + len;
      if len == 1 {
        LevelsOne(g.noderecs, g.noderecs, g.maxlevels - level - 1);
        return rval + g.maxlevels - level - 1;
      }
      if level == 0 {
        maxrecs := g.noderecs;
      }
      level := level + 1;
    }
  }

  /** Merging delayed extents that hold at least their worst case frees blocks or leaves their number. */
  lemma WorstMerged(g: Geometry, a: nat, b: nat)
    requires g.Proper()
    ensures Worst(g, a + b) <= Worst(g, a) + Worst(g, b)
    ensures Worst(g, a) <= Worst(g, a + b)
  {
    LevelsAdd(a, b, g.leafrecs, g.noderecs, g.maxlevels);
    LevelsMono(a, a + b, g.leafrecs, g.noderecs, g.maxlevels);
  }
}
