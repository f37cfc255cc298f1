/** What a replace leaves behind. */
module AttrStored {
  import opened DaTree
  import opened DaLookup
  import opened AttrView
  import opened AttrFlags
  import opened AttrReplace

  /** The names of incomplete entries, each as often as it has one. */
  ghost function HiddenNames(ents: seq<Ent>): multiset<Name> {
    if ents == [] then multiset{} else HiddenOf(ents[0]) + HiddenNames(ents[1..])
  }

  function HiddenOf(e: Ent): multiset<Name> {
    if e.incomplete then multiset{e.name} else multiset{}
  }

  lemma {:induction false} HiddenIns(ents: seq<Ent>, k: nat, e: Ent)
    requires k <= |ents|
    ensures HiddenNames(InsEnt(ents, k, e)) == HiddenNames(ents) + HiddenOf(e)
  {
    hide HiddenOf;
    var s := InsEnt(ents, k, e);
    if k == 0 {
      assert s[1..] == ents;
    } else {
      HiddenIns(ents[1..], k - 1, e);
      assert s[1..] == InsEnt(ents[1..], k - 1, e);
    }
  }

  lemma HiddenDel(ents: seq<Ent>, k: nat)
    requires k < |ents|
    ensures HiddenNames(ents) == HiddenNames(DelEnt(ents, k)) + HiddenOf(ents[k])
  {
    hide HiddenNames, HiddenOf;
    HiddenIns(DelEnt(ents, k), k, ents[k]);
    assert InsEnt(DelEnt(ents, k), k, ents[k]) == ents;
  }

  lemma InsTwice(ents: seq<Ent>, at: nat, e: Ent, d: Ent)
    requires at < |ents|
    ensures InsEnt(ents, at, e)[at + 1 := d] == InsEnt(InsEnt(DelEnt(ents, at), at, d), at, e)
    ensures DelEnt(InsEnt(ents, at, e)[at + 1 := d], at + 1) == ents[at := e]
  {
  }

  /** The old entry, no longer complete, hides its name once more, and the new one does not. */
  lemma HiddenMid(ents: seq<Ent>, at: nat, e: Ent)
    requires at < |ents| && !ents[at].incomplete && !e.incomplete
    ensures HiddenNames(InsEnt(ents, at, e)[at + 1 := Dropped(ents[at])]) == HiddenNames(ents) + multiset{ents[at].name}
  {
    hide HiddenNames;
    var d := Dropped(ents[at]);
    InsTwice(ents, at, e, d);
    HiddenDel(ents, at);
    HiddenIns(DelEnt(ents, at), at, d);
    HiddenIns(InsEnt(DelEnt(ents, at), at, d), at, e);
  }

  lemma Cancel(a: multiset<Name>, b: multiset<Name>, c: multiset<Name>)
    requires a + c == b + c
    ensures a == b
  {
    forall n: Name ensures a[n] == b[n] {
      assert (a + c)[n] == (b + c)[n];
    }
  }

  /**
   * A replace leaves as many entries as there were, and no incomplete one behind that was not there. It is the old entry
   * that goes, and the new one takes its place, if and only if in a tree no incomplete entry of the name comes before it.
   */
  lemma ReplacesOne(ents: seq<Ent>, ents': seq<Ent>, at: nat, e: Ent, byPlace: bool, gone: nat)
    requires SetTo(ents, ents', at, e, true, byPlace, gone)
    requires !e.incomplete && !ents[at].incomplete && ents[at].name == e.name
    ensures |ents'| == |ents| && HiddenNames(ents') == HiddenNames(ents)
    ensures gone == at + 1 <==> byPlace || NoneBefore(ents, at, Key(e.name, true))
    ensures gone == at + 1 ==> ents' == ents[at := e]
  {
    hide HiddenNames, HiddenOf, FirstHidden, DelEnt, Dropped, NoneBefore;
    var mid := InsEnt(ents, at, e)[at + 1 := Dropped(ents[at])];
    FirstIs(ents, mid, at, e, byPlace, gone);
    InsTwice(ents, at, e, Dropped(ents[at]));
    HiddenMid(ents, at, e);
    HiddenDel(mid, gone);
    Cancel(HiddenNames(ents'), HiddenNames(ents), multiset{e.name});
  }

  lemma FirstIs(ents: seq<Ent>, mid: seq<Ent>, at: nat, e: Ent, byPlace: bool, gone: nat)
    requires at < |ents| && mid == InsEnt(ents, at, e)[at + 1 := Dropped(ents[at])] && !e.incomplete
    requires FirstHidden(mid, e.name, at + 1, byPlace, gone)
    ensures gone < |mid| && HiddenOf(mid[gone]) == multiset{e.name} && |DelEnt(mid, gone)| == |ents|
    ensures gone == at + 1 <==> byPlace || NoneBefore(ents, at, Key(e.name, true))
  {
    assert forall i :: 0 <= i < at ==> mid[i] == ents[i];
    assert mid[at] == e;
  }

  /** A name left incomplete by a crash, and after it a complete entry of it: the next replace removes the first. */
  lemma ReplaceMisses(n: Name, hash: nat, e: Ent)
    requires e.name == n && !e.incomplete
    ensures var stale, was := Ent(hash, n, true, Remote(0, 0)), Ent(hash, n, false, Local([]));
            && SetTo([stale, was], [e, Dropped(was)], 1, e, true, false, 0)
            && [e, Dropped(was)] != [stale, was][1 := e]
  {
    var stale, was := Ent(hash, n, true, Remote(0, 0)), Ent(hash, n, false, Local([]));
    assert InsEnt([stale, was], 1, e)[2 := Dropped(was)] == [stale, e, Dropped(was)];
    assert DelEnt([stale, e, Dropped(was)], 0) == [e, Dropped(was)];
    assert [stale, was][1 := e][0] == stale;
  }
}
