/** Looking a name up in the hash tree. */
module DaLookup {
  import opened DaHash
  import opened DaTree

  /** The name wanted, and whether its entry is to be incomplete or complete. */
  datatype Key = Key(name: Name, incomplete: bool)

  predicate Matches(e: Ent, k: Key) {
    e.incomplete == k.incomplete && e.name == k.name
  }

  ghost predicate SortedHashes(hs: seq<nat>) {
    forall i, j :: 0 <= i < j < |hs| ==> hs[i] <= hs[j]
  }

  /**
   * Find the first hash not below h. The halving probe gets near it without leaving the block, whatever the
   * hashes; the steps that follow make it exact.
   */
  method Probe(hs: seq<nat>, h: nat) returns (probe: nat)
    requires SortedHashes(hs)
    ensures probe <= |hs|
    ensures forall i :: 0 <= i < probe ==> hs[i] < h
    ensures forall i :: probe <= i < |hs| ==> h <= hs[i]
  {
    var span := |hs| / 2;
    probe := span;
    while span > 4
      invariant span <= probe && probe + span <= |hs|
      invariant if |hs| < 2 then probe == 0 else span >= 1
    {
      span := span / 2;
      if hs[probe] < h {
        probe := probe + span;
      } else if hs[probe] > h {
        probe := probe - span;
      } else {
        break;
      }
    }
    while probe > 0 && hs[probe] >= h
      invariant probe < |hs| || probe == 0
    {
      probe := probe - 1;
    }
    while probe < |hs| && hs[probe] < h
      invariant probe <= |hs|
      invariant forall i :: 0 <= i < probe ==> hs[i] < h
    {
      probe := probe + 1;
    }
  }

  /** No entry before place n matches. */
  ghost predicate NoneBefore(ents: seq<Ent>, n: int, k: Key) {
    forall i :: 0 <= i < |ents| && i < n ==> !Matches(ents[i], k)
  }

  /** Entries in order, each with the hash of its name. */
  ghost predicate Hashed(ents: seq<Ent>) {
    SortedEnts(ents) && forall i :: 0 <= i < |ents| ==> ents[i].hash == HashOf(ents[i].name.bytes)
  }

  /** What the search of one leaf finds out. */
  ghost predicate Searched(ents: seq<Ent>, k: Key, hash: nat, found: bool, index: nat) {
    && index <= |ents| && NoneBefore(ents, index, k)
    && (if found then index < |ents| && Matches(ents[index], k)
        else NoneBefore(ents, |ents|, k)
             && (forall i :: 0 <= i < index ==> ents[i].hash <= hash)
             && (forall i :: index <= i < |ents| ==> hash <= ents[i].hash))
  }

  /** The place found is one of the leaf, and has the name if it was found. */
  predicate InLeaf(ents: seq<Ent>, k: Key, found: bool, index: nat) {
    if found then index < |ents| && Matches(ents[index], k) else index <= |ents|
  }

  lemma SearchedIn(ents: seq<Ent>, k: Key, hash: nat, found: bool, index: nat)
    requires Searched(ents, k, hash, found, index)
    ensures InLeaf(ents, k, found, index)
  {
  }

  /** Look a name up in one leaf: the first entry that matches, or where one would go. */
  method LeafLookup(ents: seq<Ent>, k: Key, hash: nat) returns (found: bool, index: nat)
    requires Hashed(ents) && hash == HashOf(k.name.bytes)
    ensures Searched(ents, k, hash, found, index)
  {
    var hs := seq(|ents|, i requires 0 <= i < |ents| => ents[i].hash);
    var probe := Probe(hs, hash);
    assert forall i :: 0 <= i < probe ==> hs[i] < hash;
    assert forall i :: 0 <= i < probe ==> ents[i].hash == hs[i];
    if probe == |ents| || ents[probe].hash != hash {
      assert forall i :: probe <= i < |ents| ==> hs[i] == ents[i].hash >= ents[probe].hash;
      return false, probe;
    }
    while probe < |ents| && ents[probe].hash == hash
      invariant probe <= |ents| && NoneBefore(ents, probe, k)
      invariant forall i :: 0 <= i < probe ==> ents[i].hash <= hash
      invariant forall i :: probe <= i < |ents| ==> hash <= ents[i].hash
    {
      if Matches(ents[probe], k) {
        return true, probe;
      }
      probe := probe + 1;
    }
    assert forall i :: probe <= i < |ents| ==> ents[probe].hash <= ents[i].hash;
    found, index := false, probe;
  }

  /** The first child whose last hash is not below h, or else the last child. */
  ghost predicate Picked(kids: seq<Kid>, h: nat, i: nat) {
    && i < |kids|
    && (forall j :: 0 <= j < i ==> kids[j].hash < h)
    && (i + 1 < |kids| ==> h <= kids[i].hash)
  }

  /** A path that picks the right child at every node. */
  ghost predicate Picks(t: Tree, h: nat, idx: seq<nat>)
    decreases t
  {
    match t
    case Leaf(_, _) => idx == []
    case Node(kids) => idx != [] && Picked(kids, h, idx[0]) && Picks(kids[idx[0]].sub, h, idx[1..])
  }

  lemma {:induction false} PicksOnPath(t: Tree, h: nat, idx: seq<nat>)
    requires Picks(t, h, idx)
    ensures OnPath(t, idx)
    decreases t
  {
    if t.Node? {
      PicksOnPath(t.kids[idx[0]].sub, h, idx[1..]);
    }
  }

  /** No leaf before place p ends at or after h. */
  ghost predicate LowBefore(leaves: seq<Tree>, p: int, h: nat) {
    forall q :: 0 <= q < p && q < |leaves| ==> leaves[q].Leaf? && LastHash(leaves[q].ents) < h
  }

  /** The leaves below a node entry end at its hash, and none of them ends later. */
  lemma {:induction false} TopIsLast(t: Tree, depth: nat)
    requires Shaped(t, depth)
    ensures |Leaves(t)| > 0 && Leaves(t)[|Leaves(t)| - 1].Leaf?
    ensures LastHash(Leaves(t)[|Leaves(t)| - 1].ents) == TopHash(t)
    decreases depth
  {
    if t.Node? {
      var n := |t.kids|;
      TopIsLast(t.kids[n - 1].sub, depth - 1);
      LeavesAt(t, n - 1);
    }
  }

  /** The leaves of a tree end in the order in which they come. */
  ghost predicate EndsInOrder(leaves: seq<Tree>) {
    && (forall q :: 0 <= q < |leaves| ==> leaves[q].Leaf?)
    && (forall p, q :: 0 <= p < q < |leaves| ==> LastHash(leaves[p].ents) <= LastHash(leaves[q].ents))
  }

  /** The leaves below one entry, among all. */
  lemma MineInOrder(t: Tree, i: nat)
    requires t.Node? && i < |t.kids| && EndsInOrder(Leaves(t))
    ensures |LeavesBefore(t, i)| + |Leaves(t.kids[i].sub)| <= |Leaves(t)|
    ensures forall q :: 0 <= q < |Leaves(t.kids[i].sub)| ==> Leaves(t)[|LeavesBefore(t, i)| + q] == Leaves(t.kids[i].sub)[q]
    ensures EndsInOrder(Leaves(t.kids[i].sub))
    ensures i + 1 == |t.kids| ==> |LeavesBefore(t, i)| + |Leaves(t.kids[i].sub)| == |Leaves(t)|
  {
    hide EndsInOrder, Leaves, LeavesBefore;
    LeavesAt(t, i);
    LeavesAll(t);
    PartInOrder(LeavesBefore(t, i), Leaves(t.kids[i].sub), Leaves(t));
  }

  lemma LeavesAll(t: Tree)
    requires t.Node?
    ensures Leaves(t) == LeavesBefore(t, |t.kids|)
  {
  }

  lemma PartInOrder(before: seq<Tree>, mine: seq<Tree>, all: seq<Tree>)
    requires before + mine <= all && EndsInOrder(all)
    ensures forall q :: 0 <= q < |mine| ==> all[|before| + q] == mine[q]
    ensures EndsInOrder(mine)
  {
    assert forall q :: 0 <= q < |mine| ==> all[|before| + q] == (before + mine)[|before| + q] == mine[q];
  }

  /** Where the entry before has a hash below h, so have the leaves before. */
  lemma ReachesUp(all: seq<Tree>, before: seq<Tree>, mine: seq<Tree>, h: nat)
    requires EndsInOrder(all) && before + mine <= all && mine != []
    requires mine[|mine| - 1].Leaf? && LastHash(mine[|mine| - 1].ents) < h
    ensures LowBefore(all, |before + mine|, h)
  {
    assert all[|before + mine| - 1] == mine[|mine| - 1];
  }

  lemma BeforeLow(t: Tree, depth: nat, h: nat, i: nat)
    requires t.Node? && Shaped(t, depth) && i < |t.kids| && EndsInOrder(Leaves(t)) && Picked(t.kids, h, i)
    ensures LowBefore(Leaves(t), |LeavesBefore(t, i)|, h)
  {
    if i > 0 {
      TopIsLast(t.kids[i - 1].sub, depth - 1);
      LeavesAt(t, i - 1);
      ReachesUp(Leaves(t), LeavesBefore(t, i - 1), Leaves(t.kids[i - 1].sub), h);
    }
  }

  /** The leaves before the one picked end below h; that one does not, unless it is the last. */
  lemma {:induction false} PickedLeaf(t: Tree, depth: nat, h: nat, idx: seq<nat>)
    requires Shaped(t, depth) && EndsInOrder(Leaves(t)) && Picks(t, h, idx)
    ensures OnPath(t, idx) && LowBefore(Leaves(t), LeafPos(t, idx), h)
    ensures LeafPos(t, idx) + 1 < |Leaves(t)| ==> h <= LastHash(Leaves(t)[LeafPos(t, idx)].ents)
    decreases depth
  {
    PicksOnPath(t, h, idx);
    PathLeaf(t, idx);
    if t.Node? {
      var i, sub := idx[0], t.kids[idx[0]].sub;
      MineInOrder(t, i);
      BeforeLow(t, depth, h, i);
      PickedLeaf(sub, depth - 1, h, idx[1..]);
      PathLeaf(sub, idx[1..]);
      TopIsLast(sub, depth - 1);
      var before, mine, p := |LeavesBefore(t, i)|, Leaves(sub), LeafPos(sub, idx[1..]);
      hide Leaves, LeavesBefore, Shaped, EndsInOrder, TopHash;
      forall q | 0 <= q < before + p ensures LastHash(Leaves(t)[q].ents) < h && Leaves(t)[q].Leaf? {
        if q >= before {
          assert Leaves(t)[before + (q - before)] == mine[q - before];
        }
      }
    }
  }

  /** The choice made in block n leads to the next. */
  ghost predicate StepAt(nodes: seq<Tree>, idx: seq<nat>, n: int)
    requires |nodes| == |idx| + 1 && 0 <= n < |idx|
  {
    nodes[n].Node? && idx[n] < |nodes[n].kids| && nodes[n + 1] == nodes[n].kids[idx[n]].sub
  }

  /** The blocks of a path and the choices made in them. */
  ghost predicate Chain(nodes: seq<Tree>, idx: seq<nat>) {
    && |nodes| == |idx| + 1
    && forall n {:trigger StepAt(nodes, idx, n)} :: 0 <= n < |idx| ==> StepAt(nodes, idx, n)
  }

  lemma ChainTail(nodes: seq<Tree>, idx: seq<nat>)
    requires Chain(nodes, idx) && idx != []
    ensures Chain(nodes[1..], idx[1..]) && StepAt(nodes, idx, 0)
  {
    forall n | 0 <= n < |idx[1..]| ensures StepAt(nodes[1..], idx[1..], n) {
      assert StepAt(nodes, idx, n + 1);
    }
  }

  lemma {:induction false} ChainPath(nodes: seq<Tree>, idx: seq<nat>)
    requires Chain(nodes, idx) && nodes[|idx|].Leaf?
    ensures OnPath(nodes[0], idx) && LeafPos(nodes[0], idx) < |Leaves(nodes[0])|
    ensures Leaves(nodes[0])[LeafPos(nodes[0], idx)] == nodes[|idx|]
    decreases |idx|
  {
    if idx != [] {
      ChainTail(nodes, idx);
      ChainPath(nodes[1..], idx[1..]);
      LeavesAt(nodes[0], idx[0]);
    }
  }

  /** The choice made in block n is right. */
  ghost predicate PickedAt(nodes: seq<Tree>, idx: seq<nat>, h: nat, n: int)
    requires |nodes| == |idx| + 1 && 0 <= n < |idx|
  {
    nodes[n].Node? && Picked(nodes[n].kids, h, idx[n])
  }

  ghost predicate AllPicked(nodes: seq<Tree>, idx: seq<nat>, h: nat)
    requires |nodes| == |idx| + 1
  {
    forall n {:trigger PickedAt(nodes, idx, h, n)} :: 0 <= n < |idx| ==> PickedAt(nodes, idx, h, n)
  }

  lemma {:induction false} AllPicks(nodes: seq<Tree>, idx: seq<nat>, h: nat)
    requires Chain(nodes, idx) && AllPicked(nodes, idx, h) && nodes[|idx|].Leaf?
    ensures Picks(nodes[0], h, idx)
    decreases |idx|
  {
    if idx != [] {
      ChainTail(nodes, idx);
      assert PickedAt(nodes, idx, h, 0);
      forall n | 0 <= n < |idx[1..]| ensures PickedAt(nodes[1..], idx[1..], h, n) {
        assert PickedAt(nodes, idx, h, n + 1);
      }
      AllPicks(nodes[1..], idx[1..], h);
    }
  }

  lemma ChainExt(nodes: seq<Tree>, idx: seq<nat>, i: nat)
    requires Chain(nodes, idx) && nodes[|idx|].Node? && i < |nodes[|idx|].kids|
    ensures Chain(nodes + [nodes[|idx|].kids[i].sub], idx + [i])
  {
    var nodes', idx' := nodes + [nodes[|idx|].kids[i].sub], idx + [i];
    forall n | 0 <= n < |idx'| ensures StepAt(nodes', idx', n) {
      assert n < |idx| ==> StepAt(nodes, idx, n);
    }
  }

  lemma ChainPrefix(nodes: seq<Tree>, idx: seq<nat>, n: nat)
    requires Chain(nodes, idx) && n <= |idx|
    ensures Chain(nodes[..n + 1], idx[..n])
  {
    var nodes', idx' := nodes[..n + 1], idx[..n];
    forall m | 0 <= m < n ensures StepAt(nodes', idx', m) {
      assert StepAt(nodes, idx, m);
    }
  }

  lemma ChainMore(nodes: seq<Tree>, idx: seq<nat>, i: nat, h: nat)
    requires Chain(nodes, idx) && AllPicked(nodes, idx, h)
    requires nodes[|idx|].Node? && i < |nodes[|idx|].kids| && Picked(nodes[|idx|].kids, h, i)
    ensures Chain(nodes + [nodes[|idx|].kids[i].sub], idx + [i])
    ensures AllPicked(nodes + [nodes[|idx|].kids[i].sub], idx + [i], h)
  {
    var nodes', idx' := nodes + [nodes[|idx|].kids[i].sub], idx + [i];
    forall n | 0 <= n < |idx'| ensures StepAt(nodes', idx', n) && PickedAt(nodes', idx', h, n) {
      assert n < |idx| ==> StepAt(nodes, idx, n) && PickedAt(nodes, idx, h, n);
    }
  }

  /** Descend from the root to a leaf, picking the right child in every node. */
  method Descend(root: Tree, ghost depth: nat, h: nat) returns (nodes: seq<Tree>, idx: seq<nat>)
    requires Shaped(root, depth) && EndsInOrder(Leaves(root))
    ensures Chain(nodes, idx) && AllPicked(nodes, idx, h) && nodes[0] == root && nodes[|idx|].Leaf? && |idx| == depth
  {
    nodes, idx := [root], [];
    while nodes[|idx|].Node?
      invariant Chain(nodes, idx) && AllPicked(nodes, idx, h) && nodes[0] == root
      invariant |idx| <= depth && Shaped(nodes[|idx|], depth - |idx|) && EndsInOrder(Leaves(nodes[|idx|]))
      decreases depth - |idx|
    {
      hide Leaves, LeavesBefore, TopHash, EndsInOrder, Chain, AllPicked;
      var node := nodes[|idx|];
      var kids := node.kids;
      HashesInOrder(node, depth - |idx|);
      var hs := seq(|kids|, i requires 0 <= i < |kids| => kids[i].hash);
      var probe := Probe(hs, h);
      assert forall i :: 0 <= i < |kids| ==> kids[i].hash == hs[i];
      var i := if probe == |kids| then |kids| - 1 else probe;
      MineInOrder(node, i);
      assert Shaped(kids[i].sub, depth - |idx| - 1);
      ChainMore(nodes, idx, i, h);
      nodes, idx := nodes + [kids[i].sub], idx + [i];
    }
  }

  /** The hashes of a node are in order. */
  lemma HashesInOrder(t: Tree, depth: nat)
    requires t.Node? && Shaped(t, depth) && EndsInOrder(Leaves(t))
    ensures forall i, j :: 0 <= i < j < |t.kids| ==> t.kids[i].hash <= t.kids[j].hash
  {
    hide Leaves;
    forall i, j | 0 <= i < j < |t.kids| ensures t.kids[i].hash <= t.kids[j].hash {
      hide Leaves, LeavesBefore, TopHash;
      TopIsLast(t.kids[i].sub, depth - 1);
      TopIsLast(t.kids[j].sub, depth - 1);
      MineInOrder(t, i);
      MineInOrder(t, j);
      var a, b := |Leaves(t.kids[i].sub)| - 1, |Leaves(t.kids[j].sub)| - 1;
      assert Leaves(t)[|LeavesBefore(t, i)| + a] == Leaves(t.kids[i].sub)[a];
      assert Leaves(t)[|LeavesBefore(t, j)| + b] == Leaves(t.kids[j].sub)[b];
      LeavesAt(t, i);
      LeavesPrefix(t, i + 1, j);
    }
  }

  lemma NextStep(t: Tree, idx: seq<nat>, depth: nat, rest: seq<nat>)
    requires t.Node? && Shaped(t, depth) && idx != [] && idx[0] < |t.kids| && OnPath(t.kids[idx[0]].sub, idx[1..])
    requires Shaped(t.kids[idx[0]].sub, depth - 1) && Next(t.kids[idx[0]].sub, depth - 1, idx[1..]) == Some(rest)
    ensures OnPath(t, idx) && Next(t, depth, idx) == Some([idx[0]] + rest)
  {
  }

  /** From a choice that can go one on, the next path. */
  lemma {:induction false} NextUp(nodes: seq<Tree>, idx: seq<nat>, depth: nat, level: nat, rest: seq<nat>)
    requires Chain(nodes, idx) && Shaped(nodes[0], depth) && |idx| == depth && level < |idx|
    requires OnPath(nodes[level], idx[level..]) && Shaped(nodes[level], depth - level)
    requires Next(nodes[level], depth - level, idx[level..]) == Some(rest)
    ensures OnPath(nodes[0], idx) && Next(nodes[0], depth, idx) == Some(idx[..level] + rest)
    decreases level
  {
    hide Next, Shaped, OnPath;
    if level == 0 {
      assert idx[0..] == idx && idx[..0] + rest == rest;
    } else {
      assert StepAt(nodes, idx, level - 1);
      assert idx[level - 1..][1..] == idx[level..];
      ChainShaped(nodes, idx, depth, level - 1);
      NextStep(nodes[level - 1], idx[level - 1..], depth - level + 1, rest);
      NextUp(nodes, idx, depth, level - 1, [idx[level - 1]] + rest);
      assert idx[..level] + rest == idx[..level - 1] + ([idx[level - 1]] + rest);
    }
  }

  /** The choices at the last entries all the way down have no next path. */
  lemma NextNone(nodes: seq<Tree>, idx: seq<nat>, depth: nat, level: nat)
    requires Chain(nodes, idx) && nodes[|idx|].Leaf? && |idx| == depth && level < depth && Shaped(nodes[level], depth - level)
    requires OnPath(nodes[level + 1], idx[level + 1..]) && Shaped(nodes[level + 1], depth - level - 1)
    requires Next(nodes[level + 1], depth - level - 1, idx[level + 1..]) == None
    ensures nodes[level].Node? && idx[level] < |nodes[level].kids| && OnPath(nodes[level], idx[level..])
    ensures idx[level] + 1 < |nodes[level].kids| ==> Shaped(nodes[level].kids[idx[level] + 1].sub, depth - level - 1)
    ensures Next(nodes[level], depth - level, idx[level..]) ==
            if idx[level] + 1 < |nodes[level].kids|
            then Some([idx[level] + 1] + Zeros(nodes[level].kids[idx[level] + 1].sub, depth - level - 1))
            else None
  {
    assert StepAt(nodes, idx, level);
    assert idx[level..][1..] == idx[level + 1..];
  }

  lemma {:induction false} ChainShaped(nodes: seq<Tree>, idx: seq<nat>, depth: nat, n: nat)
    requires Chain(nodes, idx) && Shaped(nodes[0], depth) && |idx| == depth && n <= depth
    ensures Shaped(nodes[n], depth - n)
  {
    if n > 0 {
      ChainShaped(nodes, idx, depth, n - 1);
      assert StepAt(nodes, idx, n - 1);
    }
  }

  lemma LeafNone(nodes: seq<Tree>, idx: seq<nat>, depth: nat)
    requires Chain(nodes, idx) && nodes[|idx|].Leaf? && Shaped(nodes[0], depth) && |idx| == depth
    ensures OnPath(nodes[depth], idx[depth..]) && Shaped(nodes[depth], 0)
    ensures Next(nodes[depth], 0, idx[depth..]) == None
  {
    ChainShaped(nodes, idx, depth, depth);
  }

  /** Roll up from the leaf to the first node where the path is not at the last entry; -1 if there is none. */
  method RollUp(nodes: seq<Tree>, idx: seq<nat>, ghost depth: nat) returns (level: int)
    requires Chain(nodes, idx) && nodes[|idx|].Leaf? && Shaped(nodes[0], depth) && |idx| == depth
    ensures -1 <= level < depth && OnPath(nodes[0], idx)
    ensures level < 0 ==> Next(nodes[0], depth, idx) == None
    ensures level >= 0 ==>
              && nodes[level].Node? && idx[level] + 1 < |nodes[level].kids| && Shaped(nodes[level], depth - level)
              && Shaped(nodes[level].kids[idx[level] + 1].sub, depth - level - 1)
              && Next(nodes[0], depth, idx)
                 == Some(idx[..level] + ([idx[level] + 1] + Zeros(nodes[level].kids[idx[level] + 1].sub, depth - level - 1)))
  {
    hide TopHash;
    ChainPath(nodes, idx);
    LeafNone(nodes, idx, depth);
    hide Zeros, Next, OnPath, Shaped, Leaves, LeafPos;
    level := |idx| - 1;
    while level >= 0
      invariant -1 <= level < |idx|
      invariant OnPath(nodes[level + 1], idx[level + 1..]) && Shaped(nodes[level + 1], depth - level - 1)
      invariant Next(nodes[level + 1], depth - level - 1, idx[level + 1..]) == None
    {
      ChainShaped(nodes, idx, depth, level);
      NextNone(nodes, idx, depth, level);
      if idx[level] < |nodes[level].kids| - 1 {
        NextUp(nodes, idx, depth, level, [idx[level] + 1] + Zeros(nodes[level].kids[idx[level] + 1].sub, depth - level - 1));
        return;
      }
      level := level - 1;
    }
    assert idx[0..] == idx;
  }

  /** Move the path to the next leaf: up to the first node with an entry to go on to, and down its left edge. */
  method PathShift(nodes0: seq<Tree>, idx0: seq<nat>, ghost depth: nat) returns (moved: bool, nodes: seq<Tree>, idx: seq<nat>)
    requires Chain(nodes0, idx0) && nodes0[|idx0|].Leaf? && Shaped(nodes0[0], depth) && |idx0| == depth
    ensures OnPath(nodes0[0], idx0)
    ensures moved == Next(nodes0[0], depth, idx0).Some?
    ensures moved ==> idx == Next(nodes0[0], depth, idx0).value
    ensures moved ==> Chain(nodes, idx) && nodes[0] == nodes0[0] && nodes[|idx|].Leaf? && |idx| == depth
  {
    hide Zeros, Next, OnPath, Shaped;
    nodes, idx := nodes0, idx0;
    var level := RollUp(nodes, idx, depth);
    if level < 0 {
      return false, nodes, idx;
    }
    ChainPrefix(nodes, idx, level);
    assert (idx[..level] + [idx[level] + 1])[..level] == idx[..level];
    nodes, idx := DownLeft(nodes[..level + 1], idx[..level] + [idx[level] + 1], depth);
    moved := true;
  }

  /** Roll down the left edge of the subtree until a leaf. */
  method DownLeft(nodes0: seq<Tree>, idx0: seq<nat>, ghost depth: nat) returns (nodes: seq<Tree>, idx: seq<nat>)
    requires |nodes0| == |idx0| > 0 && |idx0| <= depth
    requires nodes0[|idx0| - 1].Node? && idx0[|idx0| - 1] < |nodes0[|idx0| - 1].kids|
    requires Chain(nodes0, idx0[..|idx0| - 1])
    requires Shaped(nodes0[|idx0| - 1].kids[idx0[|idx0| - 1]].sub, depth - |idx0|)
    ensures Chain(nodes, idx) && nodes[0] == nodes0[0] && nodes[|idx|].Leaf? && |idx| == depth
    ensures idx == idx0 + Zeros(nodes0[|idx0| - 1].kids[idx0[|idx0| - 1]].sub, depth - |idx0|)
  {
    nodes, idx := nodes0, idx0;
    var cur := nodes[|idx| - 1].kids[idx[|idx| - 1]].sub;
    ghost var target := idx0 + Zeros(cur, depth - |idx0|);
    ChainExt(nodes0, idx0[..|idx0| - 1], idx0[|idx0| - 1]);
    assert idx0 == idx0[..|idx0| - 1] + [idx0[|idx0| - 1]];
    while cur.Node?
      invariant |nodes| == |idx| > 0 && |idx| <= depth && nodes[0] == nodes0[0]
      invariant Chain(nodes + [cur], idx)
      invariant Shaped(cur, depth - |idx|) && idx + Zeros(cur, depth - |idx|) == target
      decreases depth - |idx|
    {
      ChainExt(nodes + [cur], idx, 0);
      nodes, idx := nodes + [cur], idx + [0];
      cur := cur.kids[0].sub;
    }
    nodes := nodes + [cur];
  }

  /** The place at which the search of all entries one after the other, from the first, would end. */
  ghost predicate Linear(ents: seq<Ent>, k: Key, hash: nat, found: bool, at: nat) {
    && at <= |ents| && NoneBefore(ents, at, k)
    && (if found then at < |ents| && Matches(ents[at], k)
        else NoneBefore(ents, |ents|, k)
             && (forall i :: 0 <= i < at ==> ents[i].hash <= hash)
             && (forall i :: at <= i < |ents| ==> hash <= ents[i].hash))
  }

  /** Leaf blocks whose entries are all in order; only a lone one may be empty. */
  ghost predicate GoodLeaves(leaves: seq<Tree>) {
    && (forall p {:trigger leaves[p]} :: 0 <= p < |leaves| ==> leaves[p].Leaf? && (leaves[p].ents != [] || |leaves| == 1))
    && Hashed(Flat(leaves))
  }

  lemma GoodTree(t: Tree, depth: nat)
    requires Wf(t, depth)
    ensures GoodLeaves(Leaves(t))
  {
    LeavesLeaf(t, depth);
  }

  /** Entry i of leaf p among all. */
  lemma LeafEntry(leaves: seq<Tree>, p: nat, i: nat)
    requires p < |leaves| && leaves[p].Leaf? && i < |leaves[p].ents|
    ensures Off(leaves, p) + i < |Flat(leaves)| && Flat(leaves)[Off(leaves, p) + i] == leaves[p].ents[i]
    ensures Off(leaves, p + 1) == Off(leaves, p) + |leaves[p].ents|
  {
    FlatAt(leaves, p);
  }

  /** All leaves are leaves, in order, and each is in order itself. */
  lemma LeavesHashed(leaves: seq<Tree>)
    requires GoodLeaves(leaves)
    ensures EndsInOrder(leaves)
    ensures forall p {:trigger leaves[p]} :: 0 <= p < |leaves| ==> Hashed(leaves[p].ents)
  {
    hide Flat, Off, HashOf;
    var all := Flat(leaves);
    forall p | 0 <= p < |leaves| ensures Hashed(leaves[p].ents) {
      forall i | 0 <= i < |leaves[p].ents| ensures Off(leaves, p) + i < |all| && all[Off(leaves, p) + i] == leaves[p].ents[i] {
        LeafEntry(leaves, p, i);
      }
    }
    forall p, q | 0 <= p < q < |leaves| ensures LastHash(leaves[p].ents) <= LastHash(leaves[q].ents) {
      assert leaves[p].ents != [] && leaves[q].ents != [];
      LeafEntry(leaves, p, |leaves[p].ents| - 1);
      LeafEntry(leaves, q, |leaves[q].ents| - 1);
      OffMono(leaves, p + 1, q);
    }
  }

  lemma OffNone(leaves: seq<Tree>)
    ensures Off(leaves, 0) == 0
  {
    assert leaves[..0] == [];
  }

  /** One of the leaves. */
  lemma LeafHashed(leaves: seq<Tree>, p: nat)
    requires GoodLeaves(leaves) && p < |leaves|
    ensures leaves[p].Leaf? && Hashed(leaves[p].ents)
  {
    LeavesHashed(leaves);
    assert leaves[p].Leaf?;
  }

  lemma {:induction false} OffMono(leaves: seq<Tree>, p: nat, q: nat)
    requires p <= q <= |leaves|
    ensures Off(leaves, p) <= Off(leaves, q) <= |Flat(leaves)|
    decreases |leaves| - p
  {
    FlatConcat(leaves[..q], leaves[q..]);
    assert leaves == leaves[..q] + leaves[q..];
    FlatConcat(leaves[..p], leaves[p..q]);
    assert leaves[..q] == leaves[..p] + leaves[p..q];
  }

  lemma {:induction false} LeavesLeaf(t: Tree, depth: nat)
    requires Shaped(t, depth)
    ensures forall p {:trigger Leaves(t)[p]} :: 0 <= p < |Leaves(t)| ==> Leaves(t)[p].Leaf?
    ensures depth == 0 ==> Leaves(t) == [t]
    decreases depth, 1
  {
    if t.Node? {
      BeforeLeaf(t, depth, |t.kids|);
    }
  }

  lemma {:induction false} BeforeLeaf(t: Tree, depth: nat, n: nat)
    requires t.Node? && Shaped(t, depth) && n <= |t.kids|
    ensures forall p {:trigger LeavesBefore(t, n)[p]} :: 0 <= p < |LeavesBefore(t, n)| ==> LeavesBefore(t, n)[p].Leaf?
    decreases depth, 0, n
  {
    if n > 0 {
      BeforeLeaf(t, depth, n - 1);
      LeavesLeaf(t.kids[n - 1].sub, depth - 1);
    }
  }

  /** Before leaf p there is no match, and if it is not the first, what is before it ends at or below the hash. */
  ghost predicate SearchedTo(leaves: seq<Tree>, p: nat, k: Key, hash: nat) {
    && p < |leaves|
    && NoneBefore(Flat(leaves), Off(leaves, p), k)
    && (forall i :: 0 <= i < |Flat(leaves)| && i < Off(leaves, p) ==> Flat(leaves)[i].hash <= hash)
    && (p + 1 < |leaves| && leaves[p].Leaf? ==> hash <= LastHash(leaves[p].ents))
  }

  lemma FirstLeaf(leaves: seq<Tree>, k: Key, hash: nat, p: nat)
    requires GoodLeaves(leaves) && hash == HashOf(k.name.bytes) && p < |leaves|
    requires LowBefore(leaves, p, hash)
    requires p + 1 < |leaves| ==> leaves[p].Leaf? && hash <= LastHash(leaves[p].ents)
    ensures SearchedTo(leaves, p, k, hash)
  {
    OffNone(leaves);
    hide Flat;
    OffMono(leaves, p, p);
    if p > 0 {
      assert leaves[p - 1].Leaf? && leaves[p - 1].ents != [];
      FlatAt(leaves, p - 1);
      var last := Off(leaves, p) - 1;
      assert Flat(leaves)[last] == leaves[p - 1].ents[|leaves[p - 1].ents| - 1];
      BelowAll(Flat(leaves), last, k, hash);
    }
  }

  lemma BelowAll(all: seq<Ent>, last: nat, k: Key, hash: nat)
    requires Hashed(all) && last < |all| && all[last].hash < hash == HashOf(k.name.bytes)
    ensures NoneBefore(all, last + 1, k) && forall i :: 0 <= i <= last ==> all[i].hash < hash
  {
  }

  /** The search goes on to the next leaf where the last one ends at the hash. */
  lemma NextLeaf(leaves: seq<Tree>, k: Key, hash: nat, p: nat)
    requires GoodLeaves(leaves) && SearchedTo(leaves, p, k, hash) && p + 1 < |leaves| && leaves[p].Leaf?
    requires NoneBefore(leaves[p].ents, |leaves[p].ents|, k) && LastHash(leaves[p].ents) == hash
    ensures SearchedTo(leaves, p + 1, k, hash)
  {
    LeavesHashed(leaves);
    assert leaves[p + 1].Leaf? && leaves[p].ents != [];
    FlatAt(leaves, p);
    assert Flat(leaves)[..Off(leaves, p)] == Flat(leaves[..p]);
    hide GoodLeaves, Flat;
    NextPart(Flat(leaves[..p]), leaves[p].ents, Flat(leaves[p + 1..]), k, hash);
  }

  lemma NextPart(a: seq<Ent>, ents: seq<Ent>, c: seq<Ent>, k: Key, hash: nat)
    requires NoneBefore(a + ents + c, |a|, k) && NoneBefore(ents, |ents|, k)
    requires forall i :: 0 <= i < |a| ==> (a + ents + c)[i].hash <= hash
    requires ents != [] && SortedEnts(ents) && ents[|ents| - 1].hash == hash
    ensures NoneBefore(a + ents + c, |a| + |ents|, k)
    ensures forall i :: 0 <= i < |a| + |ents| ==> (a + ents + c)[i].hash <= hash
  {
    var all := a + ents + c;
    assert forall i :: |a| <= i < |a| + |ents| ==> all[i] == ents[i - |a|];
  }

  lemma LinearFrom(a: seq<Ent>, ents: seq<Ent>, c: seq<Ent>, k: Key, hash: nat, found: bool, index: nat)
    requires Hashed(a + ents + c) && hash == HashOf(k.name.bytes)
    requires NoneBefore(a + ents + c, |a|, k) && forall i :: 0 <= i < |a| ==> (a + ents + c)[i].hash <= hash
    requires Searched(ents, k, hash, found, index)
    requires !found && c != [] ==> ents != [] && ents[|ents| - 1].hash > hash
    ensures Linear(a + ents + c, k, hash, found, |a| + index)
  {
    var all, n := a + ents + c, |a|;
    assert forall i :: n <= i < n + |ents| ==> all[i] == ents[i - n];
    if !found && c != [] {
      assert all[n + |ents| - 1] == ents[|ents| - 1];
      forall i | n + |ents| <= i < |all| ensures all[i].hash > hash {
        assert all[n + |ents| - 1].hash <= all[i].hash;
      }
    }
  }

  lemma LastOne(leaves: seq<Tree>, p: nat)
    requires GoodLeaves(leaves) && p < |leaves|
    ensures Hashed(Flat(leaves))
    ensures if p + 1 == |leaves| then Flat(leaves[p + 1..]) == [] else leaves[p].ents != []
  {
    if p + 1 == |leaves| {
      assert leaves[p + 1..] == [];
    } else {
      assert leaves[p].Leaf?;
    }
  }

  /** The search ends where a search of all entries would. */
  lemma SearchDone(leaves: seq<Tree>, k: Key, hash: nat, p: nat, found: bool, index: nat)
    requires GoodLeaves(leaves) && SearchedTo(leaves, p, k, hash) && leaves[p].Leaf? && hash == HashOf(k.name.bytes)
    requires Searched(leaves[p].ents, k, hash, found, index)
    requires !found && LastHash(leaves[p].ents) == hash ==> p + 1 == |leaves|
    ensures Linear(Flat(leaves), k, hash, found, Off(leaves, p) + index)
  {
    FlatAt(leaves, p);
    var a, ents, c := Flat(leaves[..p]), leaves[p].ents, Flat(leaves[p + 1..]);
    LastOne(leaves, p);
    hide GoodLeaves, Flat, Searched;
    assert Flat(leaves) == a + ents + c && |a| == Off(leaves, p);
    assert p + 1 < |leaves| ==> ents != [] && hash <= ents[|ents| - 1].hash;
    LinearFrom(a, ents, c, k, hash, found, index);
  }

  /** The leaf that the way down has come to is where the search starts. */
  lemma StartSearch(root: Tree, depth: nat, k: Key, hash: nat, nodes: seq<Tree>, idx: seq<nat>)
    requires Wf(root, depth) && hash == HashOf(k.name.bytes) && EndsInOrder(Leaves(root))
    requires Chain(nodes, idx) && AllPicked(nodes, idx, hash) && nodes[0] == root && nodes[|idx|].Leaf?
    ensures OnPath(root, idx)
    ensures AtLeaf(root, nodes, idx, LeafPos(root, idx)) && SearchedTo(Leaves(root), LeafPos(root, idx), k, hash)
  {
    GoodTree(root, depth);
    AllPicks(nodes, idx, hash);
    PickedLeaf(root, depth, hash, idx);
    ChainPath(nodes, idx);
    FirstLeaf(Leaves(root), k, hash, LeafPos(root, idx));
  }

  /** The path leads to leaf p of the tree. */
  ghost predicate AtLeaf(root: Tree, nodes: seq<Tree>, idx: seq<nat>, p: nat) {
    && |nodes| == |idx| + 1 && Chain(nodes, idx) && nodes[0] == root && nodes[|idx|].Leaf?
    && OnPath(root, idx) && p == LeafPos(root, idx)
    && p < |Leaves(root)| && Leaves(root)[p] == nodes[|idx|]
  }

  /** Move on to the next leaf. */
  method NextOnPath(root: Tree, ghost depth: nat, nodes0: seq<Tree>, idx0: seq<nat>, ghost p: nat)
    returns (moved: bool, nodes: seq<Tree>, idx: seq<nat>)
    requires Shaped(root, depth) && AtLeaf(root, nodes0, idx0, p) && |idx0| == depth
    ensures moved == (p + 1 < |Leaves(root)|)
    ensures moved ==> AtLeaf(root, nodes, idx, p + 1) && |idx| == depth
  {
    NextPos(root, depth, idx0);
    hide Leaves, LeafPos, Next, OnPath, Chain;
    moved, nodes, idx := PathShift(nodes0, idx0, depth);
    if moved {
      ChainPath(nodes, idx);
    }
  }

  /** Search the leaf the path is at, and move on to the next if that may hold the name too. */
  method SearchOne(root: Tree, ghost depth: nat, k: Key, hash: nat, nodes0: seq<Tree>, idx0: seq<nat>, ghost p: nat)
    returns (done: bool, found: bool, blkno: nat, index: nat, nodes: seq<Tree>, idx: seq<nat>)
    requires Shaped(root, depth) && GoodLeaves(Leaves(root)) && hash == HashOf(k.name.bytes)
    requires AtLeaf(root, nodes0, idx0, p) && |idx0| == depth && SearchedTo(Leaves(root), p, k, hash)
    ensures done ==> Leaves(root)[p].blkno == blkno && InLeaf(Leaves(root)[p].ents, k, found, index)
                     && Linear(Flat(Leaves(root)), k, hash, found, Off(Leaves(root), p) + index)
    ensures !done ==> AtLeaf(root, nodes, idx, p + 1) && |idx| == depth && SearchedTo(Leaves(root), p + 1, k, hash)
  {
    hide GoodLeaves, SearchedTo, Searched, Linear, Leaves, Flat, Chain, OnPath, Shaped, LeafPos, Hashed, HashOf;
    nodes, idx := nodes0, idx0;
    var leaf := nodes[|idx|];
    LeafHashed(Leaves(root), p);
    found, index := LeafLookup(leaf.ents, k, hash);
    blkno := leaf.blkno;
    SearchedIn(leaf.ents, k, hash, found, index);
    done := found || LastHash(leaf.ents) != hash;
    if !done {
      var moved;
      moved, nodes, idx := NextOnPath(root, depth, nodes, idx, p);
      done := !moved;
    }
    if done {
      SearchDone(Leaves(root), k, hash, p, found, index);
    } else {
      SearchedNone(leaf.ents, k, hash, index);
      NextLeaf(Leaves(root), k, hash, p);
    }
  }

  /**
   * Look a name up. Equal hashes may go on over several leaves: a leaf that ends at the hash without a match leads
   * to the next. The entry found is the first of all that match; there is none just if no leaf has one.
   */
  method NodeLookup(root: Tree, ghost depth: nat, k: Key, hash: nat) returns (found: bool, blkno: nat, index: nat, ghost p: nat)
    requires Wf(root, depth) && hash == HashOf(k.name.bytes)
    ensures p < |Leaves(root)| && Leaves(root)[p].Leaf? && Leaves(root)[p].blkno == blkno
    ensures InLeaf(Leaves(root)[p].ents, k, found, index)
    ensures Linear(Flat(Leaves(root)), k, hash, found, Off(Leaves(root), p) + index)
  {
    hide GoodLeaves, SearchedTo, Linear, Leaves, Flat, Chain, OnPath, LeafPos, EndsInOrder, AllPicked, HashOf, Hashed, Off;
    GoodTree(root, depth);
    LeavesHashed(Leaves(root));
    var nodes, idx := Descend(root, depth, hash);
    StartSearch(root, depth, k, hash, nodes, idx);
    p := LeafPos(root, idx);
    var done := false;
    found, blkno, index := false, 0, 0;
    while !done
      invariant p < |Leaves(root)| && Leaves(root)[p].Leaf?
      invariant if done then Leaves(root)[p].blkno == blkno && InLeaf(Leaves(root)[p].ents, k, found, index)
                             && Linear(Flat(Leaves(root)), k, hash, found, Off(Leaves(root), p) + index)
                else AtLeaf(root, nodes, idx, p) && |idx| == depth && SearchedTo(Leaves(root), p, k, hash)
      decreases |Leaves(root)| - p, !done
    {
      done, found, blkno, index, nodes, idx := SearchOne(root, depth, k, hash, nodes, idx, p);
      if !done {
        p := p + 1;
      }
    }
  }

  lemma SearchedNone(ents: seq<Ent>, k: Key, hash: nat, index: nat)
    requires Searched(ents, k, hash, false, index)
    ensures NoneBefore(ents, |ents|, k)
  {
  }
}
