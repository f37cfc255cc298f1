/** What a reader sees of an attribute fork: the names with complete entries, and their values. */
module AttrView {
  import opened Arith
  import opened DaTree

  type Blocks = map<nat, seq<Byte>>

  /** The contents of n blocks of the fork. */
  ghost function Cat(data: Blocks, blk: nat, n: nat): seq<Byte>
    decreases n
  {
    if n == 0 then [] else (if blk in data then data[blk] else []) + Cat(data, blk + 1, n - 1)
  }

  ghost function Take(s: seq<Byte>, n: nat): seq<Byte> {
    if n <= |s| then s[..n] else s
  }

  /** The value of an entry, from its leaf or from the blocks it names. */
  ghost function ValueOf(v: Value, data: Blocks, bs: nat): seq<Byte>
    requires bs > 0
  {
    match v
    case Local(d) => d
    case Remote(blk, len) => Take(Cat(data, blk, CeilDiv(len, bs)), len)
  }

  /** The blocks that a complete entry's value lies in. */
  ghost function RangeOf(e: Ent, bs: nat): set<nat>
    requires bs > 0
  {
    if e.incomplete || e.value.Local? then {} else Span(e.value.blk, CeilDiv(e.value.len, bs))
  }

  predicate InSpan(b: nat, blk: nat, n: nat) {
    blk <= b < blk + n
  }

  function Span(blk: nat, n: nat): set<nat> {
    set b: nat | blk <= b < blk + n && InSpan(b, blk, n)
  }

  type Seen = multiset<(Name, seq<Byte>)>

  ghost function SeenOf(e: Ent, data: Blocks, bs: nat): Seen
    requires bs > 0
  {
    if e.incomplete then multiset{} else multiset{(e.name, ValueOf(e.value, data, bs))}
  }

  /** All names with complete entries, each as often as it has one, with their values. */
  ghost function View(ents: seq<Ent>, data: Blocks, bs: nat): Seen
    requires bs > 0
  {
    if ents == [] then multiset{} else SeenOf(ents[0], data, bs) + View(ents[1..], data, bs)
  }

  lemma {:induction false} ViewConcat(a: seq<Ent>, b: seq<Ent>, data: Blocks, bs: nat)
    requires bs > 0
    ensures View(a + b, data, bs) == View(a, data, bs) + View(b, data, bs)
  {
    if a == [] {
      assert a + b == b;
    } else {
      assert (a + b)[1..] == a[1..] + b;
      ViewConcat(a[1..], b, data, bs);
    }
  }

  lemma ViewOne(e: Ent, data: Blocks, bs: nat)
    requires bs > 0
    ensures View([e], data, bs) == SeenOf(e, data, bs)
  {
    assert [e][1..] == [];
  }

  function InsEnt(ents: seq<Ent>, k: nat, e: Ent): seq<Ent>
    requires k <= |ents|
  {
    ents[..k] + [e] + ents[k..]
  }

  function DelEnt(ents: seq<Ent>, k: nat): seq<Ent>
    requires k < |ents|
  {
    ents[..k] + ents[k + 1..]
  }

  lemma SeenSwap(a: Seen, b: Seen, c: Seen)
    ensures a + b + c == a + c + b
  {
  }

  lemma ViewIns(ents: seq<Ent>, k: nat, e: Ent, data: Blocks, bs: nat)
    requires bs > 0 && k <= |ents|
    ensures View(InsEnt(ents, k, e), data, bs) == View(ents, data, bs) + SeenOf(e, data, bs)
  {
    hide View, SeenOf;
    SeenSwap(View(ents[..k], data, bs), SeenOf(e, data, bs), View(ents[k..], data, bs));
    ViewConcat(ents[..k] + [e], ents[k..], data, bs);
    ViewConcat(ents[..k], [e], data, bs);
    ViewConcat(ents[..k], ents[k..], data, bs);
    ViewOne(e, data, bs);
    assert ents == ents[..k] + ents[k..];
  }

  lemma ViewDel(ents: seq<Ent>, k: nat, data: Blocks, bs: nat)
    requires bs > 0 && k < |ents|
    ensures View(ents, data, bs) == View(DelEnt(ents, k), data, bs) + SeenOf(ents[k], data, bs)
  {
    ViewIns(DelEnt(ents, k), k, ents[k], data, bs);
    assert InsEnt(DelEnt(ents, k), k, ents[k]) == ents;
  }

  lemma ViewSet(ents: seq<Ent>, k: nat, e: Ent, data: Blocks, bs: nat)
    requires bs > 0 && k < |ents|
    ensures View(ents[k := e], data, bs) + SeenOf(ents[k], data, bs) == View(ents, data, bs) + SeenOf(e, data, bs)
  {
    hide View, SeenOf;
    ViewDel(ents, k, data, bs);
    ViewIns(DelEnt(ents, k), k, e, data, bs);
    SeenSwap(View(DelEnt(ents, k), data, bs), SeenOf(e, data, bs), SeenOf(ents[k], data, bs));
    assert InsEnt(DelEnt(ents, k), k, e) == ents[k := e];
  }

  /** The blocks of the set are there, and the same. */
  ghost predicate Agree(s: set<nat>, data: Blocks, data': Blocks) {
    forall b :: b in s ==> b in data && b in data' && data[b] == data'[b]
  }

  lemma {:induction false} CatSame(data: Blocks, data': Blocks, blk: nat, n: nat)
    requires Agree(Span(blk, n), data, data')
    ensures Cat(data, blk, n) == Cat(data', blk, n)
    decreases n
  {
    if n > 0 {
      assert InSpan(blk, blk, n);
      forall b | b in Span(blk + 1, n - 1) ensures b in Span(blk, n) {
        assert InSpan(b, blk, n);
      }
      CatSame(data, data', blk + 1, n - 1);
    }
  }

  /** The values of complete entries lie in blocks that are there, each in its own. */
  ghost predicate Tidy(ents: seq<Ent>, data: Blocks, bs: nat)
    requires bs > 0
  {
    && (forall i {:trigger ents[i]} :: 0 <= i < |ents| ==> RangeOf(ents[i], bs) <= data.Keys)
    && (forall i, j {:trigger ents[i], ents[j]} :: 0 <= i < j < |ents| ==> RangeOf(ents[i], bs) !! RangeOf(ents[j], bs))
  }

  /** Changes of blocks that no complete entry's value lies in are not seen. */
  lemma {:induction false} ViewData(ents: seq<Ent>, data: Blocks, data': Blocks, bs: nat)
    requires bs > 0
    requires forall i {:trigger ents[i]} :: 0 <= i < |ents| ==> Agree(RangeOf(ents[i], bs), data, data')
    ensures View(ents, data, bs) == View(ents, data', bs)
  {
    if ents != [] {
      var e := ents[0];
      assert Agree(RangeOf(e, bs), data, data');
      if !e.incomplete && e.value.Remote? {
        CatSame(data, data', e.value.blk, CeilDiv(e.value.len, bs));
      }
      assert forall i {:trigger ents[1..][i]} :: 0 <= i < |ents[1..]| ==> ents[1..][i] == ents[i + 1];
      ViewData(ents[1..], data, data', bs);
    }
  }
}
