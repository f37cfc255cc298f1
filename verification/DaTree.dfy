/** Hash trees of attribute leaves: what they hold, and the paths through them. */
module DaTree {
  import opened DaHash

  type Byte = c: bv32 | c < 256

  /** The name of an attribute: its characters and its namespace. */
  datatype Name = Name(bytes: seq<Char>, nsp: nat)

  /** A value in the leaf, or the blocks of the fork it lies in. */
  datatype Value = Local(data: seq<Byte>) | Remote(blk: nat, len: nat)

  datatype Ent = Ent(hash: nat, name: Name, incomplete: bool, value: Value)

  /** A leaf block or a node block; an entry of a node has the last hash below it. */
  datatype Tree = Leaf(blkno: nat, ents: seq<Ent>) | Node(kids: seq<Kid>)
  datatype Kid = Kid(hash: nat, sub: Tree)

  /** In the order of their hashes, equal ones allowed. */
  ghost predicate SortedEnts(ents: seq<Ent>) {
    forall i, j :: 0 <= i < j < |ents| ==> ents[i].hash <= ents[j].hash
  }

  function LastHash(ents: seq<Ent>): nat {
    if ents == [] then 0 else ents[|ents| - 1].hash
  }

  /** The leaf blocks below, in order. */
  ghost function Leaves(t: Tree): seq<Tree>
    decreases t, 1
  {
    match t
    case Leaf(_, _) => [t]
    case Node(kids) => LeavesBefore(t, |kids|)
  }

  /** The leaf blocks below the first n entries of a node. */
  ghost function LeavesBefore(t: Tree, n: nat): seq<Tree>
    requires t.Node? && n <= |t.kids|
    decreases t, 0, n
  {
    if n == 0 then [] else LeavesBefore(t, n - 1) + Leaves(t.kids[n - 1].sub)
  }

  lemma {:induction false} LeavesPrefix(t: Tree, i: nat, n: nat)
    requires t.Node? && i <= n <= |t.kids|
    ensures LeavesBefore(t, i) <= LeavesBefore(t, n)
  {
    if i < n {
      LeavesPrefix(t, i, n - 1);
    }
  }

  lemma LeavesAt(t: Tree, i: nat)
    requires t.Node? && i < |t.kids|
    ensures LeavesBefore(t, i + 1) == LeavesBefore(t, i) + Leaves(t.kids[i].sub) <= Leaves(t)
  {
    LeavesPrefix(t, i + 1, |t.kids|);
  }

  /** All entries of the leaves, in order. */
  ghost function Flat(leaves: seq<Tree>): seq<Ent> {
    if leaves == [] then []
    else (if leaves[0].Leaf? then leaves[0].ents else []) + Flat(leaves[1..])
  }

  /** All leaves at one depth, node entries with the last hash of the subtree, subtrees not empty. */
  ghost predicate Shaped(t: Tree, depth: nat)
    decreases depth
  {
    match t
    case Leaf(_, ents) => depth == 0
    case Node(kids) =>
      && depth > 0 && kids != []
      && (forall i {:trigger kids[i]} :: 0 <= i < |kids| ==> Shaped(kids[i].sub, depth - 1))
      && (forall i {:trigger kids[i]} :: 0 <= i < |kids| ==> kids[i].hash == TopHash(kids[i].sub))
  }

  /** The last hash of a subtree. */
  ghost function TopHash(t: Tree): nat {
    match t
    case Leaf(_, ents) => LastHash(ents)
    case Node(kids) => if kids == [] then 0 else kids[|kids| - 1].hash
  }

  /** A tree to look names up in: its entries in order, each with the hash of its name, and no leaf empty but a lone one. */
  ghost predicate Wf(t: Tree, depth: nat) {
    && Shaped(t, depth)
    && SortedEnts(Flat(Leaves(t)))
    && (forall i :: 0 <= i < |Flat(Leaves(t))| ==> Flat(Leaves(t))[i].hash == HashOf(Flat(Leaves(t))[i].name.bytes))
    && (depth > 0 ==> forall i {:trigger Leaves(t)[i]} :: 0 <= i < |Leaves(t)| ==> Leaves(t)[i].Leaf? && Leaves(t)[i].ents != [])
  }

  /** The choices of a path, from the root down, lead to a leaf. */
  ghost predicate OnPath(t: Tree, idx: seq<nat>)
    decreases t
  {
    match t
    case Leaf(_, _) => idx == []
    case Node(kids) => idx != [] && idx[0] < |kids| && OnPath(kids[idx[0]].sub, idx[1..])
  }

  /** The number of leaves before the one the path leads to. */
  ghost function LeafPos(t: Tree, idx: seq<nat>): nat
    requires OnPath(t, idx)
    decreases t
  {
    match t
    case Leaf(_, _) => 0
    case Node(kids) => |LeavesBefore(t, idx[0])| + LeafPos(kids[idx[0]].sub, idx[1..])
  }

  /** The block after the first n choices of the path. */
  ghost function NodeAt(t: Tree, idx: seq<nat>, n: nat): Tree
    requires OnPath(t, idx) && n <= |idx|
    decreases n
  {
    if n == 0 then t else NodeAt(t.kids[idx[0]].sub, idx[1..], n - 1)
  }

  lemma {:induction false} PathLeaf(t: Tree, idx: seq<nat>)
    requires OnPath(t, idx)
    ensures LeafPos(t, idx) < |Leaves(t)| && Leaves(t)[LeafPos(t, idx)] == NodeAt(t, idx, |idx|)
    ensures NodeAt(t, idx, |idx|).Leaf?
    decreases t
  {
    if t.Node? {
      PathLeaf(t.kids[idx[0]].sub, idx[1..]);
      LeavesAt(t, idx[0]);
    }
  }

  /** The leftmost path. */
  ghost function Zeros(t: Tree, depth: nat): seq<nat>
    requires Shaped(t, depth)
    decreases depth
  {
    match t
    case Leaf(_, _) => []
    case Node(kids) => [0] + Zeros(kids[0].sub, depth - 1)
  }

  lemma {:induction false} ZerosFirst(t: Tree, depth: nat)
    requires Shaped(t, depth)
    ensures OnPath(t, Zeros(t, depth)) && LeafPos(t, Zeros(t, depth)) == 0 && |Zeros(t, depth)| == depth
    decreases depth
  {
    if t.Node? {
      ZerosFirst(t.kids[0].sub, depth - 1);
      assert Zeros(t, depth)[1..] == Zeros(t.kids[0].sub, depth - 1);
    }
  }

  datatype Option<T> = None | Some(value: T)

  /** The path to the next leaf, if there is one. */
  ghost function Next(t: Tree, depth: nat, idx: seq<nat>): Option<seq<nat>>
    requires Shaped(t, depth) && OnPath(t, idx)
    decreases depth
  {
    match t
    case Leaf(_, _) => None
    case Node(kids) =>
      match Next(kids[idx[0]].sub, depth - 1, idx[1..])
      case Some(rest) => Some([idx[0]] + rest)
      case None =>
        if idx[0] + 1 < |kids| then Some([idx[0] + 1] + Zeros(kids[idx[0] + 1].sub, depth - 1)) else None
  }

  /** It leads to the next leaf; the last leaf has none. */
  lemma {:induction false} NextPos(t: Tree, depth: nat, idx: seq<nat>)
    requires Shaped(t, depth) && OnPath(t, idx)
    ensures match Next(t, depth, idx) {
              case None => LeafPos(t, idx) == |Leaves(t)| - 1
              case Some(j) => OnPath(t, j) && LeafPos(t, j) == LeafPos(t, idx) + 1 < |Leaves(t)|
            }
    decreases depth
  {
    if t.Node? {
      var kids, i := t.kids, idx[0];
      NextPos(kids[i].sub, depth - 1, idx[1..]);
      LeavesAt(t, i);
      match Next(kids[i].sub, depth - 1, idx[1..]) {
        case Some(rest) =>
          var j := [i] + rest;
          assert j[1..] == rest;
          PathLeaf(t, j);
        case None =>
          if i + 1 < |kids| {
            var zeros := Zeros(kids[i + 1].sub, depth - 1);
            ZerosFirst(kids[i + 1].sub, depth - 1);
            var j := [i + 1] + zeros;
            assert j[1..] == zeros;
            PathLeaf(t, j);
          }
      }
    }
  }

  /** The number of entries in the leaves before leaf p. */
  ghost function Off(leaves: seq<Tree>, p: nat): nat
    requires p <= |leaves|
  {
    |Flat(leaves[..p])|
  }

  lemma {:induction false} FlatConcat(a: seq<Tree>, b: seq<Tree>)
    ensures Flat(a + b) == Flat(a) + Flat(b)
  {
    if a == [] {
      assert a + b == b;
    } else {
      assert (a + b)[1..] == a[1..] + b;
      FlatConcat(a[1..], b);
    }
  }

  lemma FlatAt(leaves: seq<Tree>, p: nat)
    requires p < |leaves| && leaves[p].Leaf?
    ensures Flat(leaves) == Flat(leaves[..p]) + leaves[p].ents + Flat(leaves[p + 1..])
    ensures Off(leaves, p + 1) == Off(leaves, p) + |leaves[p].ents|
  {
    assert leaves == leaves[..p] + ([leaves[p]] + leaves[p + 1..]);
    assert leaves[..p + 1] == leaves[..p] + [leaves[p]];
    FlatConcat(leaves[..p], [leaves[p]] + leaves[p + 1..]);
    FlatConcat([leaves[p]], leaves[p + 1..]);
    FlatConcat(leaves[..p], [leaves[p]]);
    assert [leaves[p]][1..] == [];
  }
}
