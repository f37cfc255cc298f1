/** The order in which allocation groups are tried. */
module AllocRotor {

  /** Where an allocation may go when it is not bound to one group. */
  datatype Policy = AnyAg | StartAg | StartBno | FirstAg

  /** One try of a group: whether near the block asked for, whether without waiting for locks, and whether with minleft 0. */
  datatype Try = Try(agno: nat, near: bool, trylock: bool, nomin: bool)

  /** The place of a group in the order of trying, the group sagno being the first. */
  function Place(agno: nat, sagno: nat, agcount: nat): int {
    if agno >= sagno then agno - sagno else agno - sagno + agcount
  }

  /** How many groups there are to try. With a block already allocated it is those not below sagno. */
  function Groups(sagno: nat, agcount: nat, firstblock: bool): int {
    if firstblock then agcount - sagno else agcount
  }

  ghost predicate InRange(agno: nat, sagno: nat, agcount: nat, firstblock: bool) {
    agno < agcount && (firstblock ==> sagno <= agno)
  }

  lemma FirstPlace(agno: nat, sagno: nat, agcount: nat, firstblock: bool)
    requires sagno <= agno < agcount
    ensures InRange(agno, sagno, agcount, firstblock) && Place(sagno, sagno, agcount) == 0
    ensures 0 <= Place(agno, sagno, agcount) < Groups(sagno, agcount, firstblock) <= agcount
  {
  }

  /** The group after agno takes the next place, or the first one at the end of a pass. */
  lemma NextPlace(agno: nat, next: nat, sagno: nat, agcount: nat, firstblock: bool)
    requires sagno < agcount && InRange(agno, sagno, agcount, firstblock)
    requires next == if agno + 1 == agcount then if firstblock then sagno else 0 else agno + 1
    ensures InRange(next, sagno, agcount, firstblock)
    ensures Place(next, sagno, agcount) == if next == sagno then 0 else Place(agno, sagno, agcount) + 1
    ensures next == sagno ==> Place(agno, sagno, agcount) + 1 == Groups(sagno, agcount, firstblock)
    ensures 0 <= Place(agno, sagno, agcount) < Groups(sagno, agcount, firstblock) <= agcount
    ensures Place(next, sagno, agcount) < Groups(sagno, agcount, firstblock)
  {
  }

  /** The group was tried with waiting and with minleft 0. */
  ghost predicate TriedHard(tries: seq<Try>, agno: nat) {
    exists k :: 0 <= k < |tries| && tries[k].agno == agno && !tries[k].trylock && tries[k].nomin
  }

  /** A try near the block asked for happens in its own group, until minleft is dropped. */
  ghost predicate NearFirst(t: Try, policy: Policy, sagno: nat) {
    t.near <==> policy == StartBno && t.agno == sagno && !t.nomin
  }

  lemma TriedMore(tries: seq<Try>, t: Try, agno: nat)
    requires TriedHard(tries, agno) || (t.agno == agno && !t.trylock && t.nomin)
    ensures TriedHard(tries + [t], agno)
  {
    if TriedHard(tries, agno) {
      var k :| 0 <= k < |tries| && tries[k].agno == agno && !tries[k].trylock && tries[k].nomin;
      assert (tries + [t])[k] == tries[k];
    } else {
      assert (tries + [t])[|tries|] == t;
    }
  }

  /** All groups before place p were tried so. */
  ghost predicate TriedTo(tries: seq<Try>, sagno: nat, agcount: nat, firstblock: bool, p: int) {
    forall a: nat :: InRange(a, sagno, agcount, firstblock) && Place(a, sagno, agcount) < p ==> TriedHard(tries, a)
  }

  lemma TriedNone(tries: seq<Try>, sagno: nat, agcount: nat, firstblock: bool)
    requires sagno < agcount
    ensures TriedTo(tries, sagno, agcount, firstblock, 0)
  {
  }

  lemma TriedOn(tries: seq<Try>, t: Try, sagno: nat, agcount: nat, firstblock: bool)
    requires sagno < agcount && InRange(t.agno, sagno, agcount, firstblock) && !t.trylock && t.nomin
    requires TriedTo(tries, sagno, agcount, firstblock, Place(t.agno, sagno, agcount))
    ensures TriedTo(tries + [t], sagno, agcount, firstblock, Place(t.agno, sagno, agcount) + 1)
  {
    hide TriedHard;
    forall a: nat | InRange(a, sagno, agcount, firstblock) && Place(a, sagno, agcount) <= Place(t.agno, sagno, agcount)
      ensures TriedHard(tries + [t], a)
    {
      assert a == t.agno || Place(a, sagno, agcount) < Place(t.agno, sagno, agcount);
      TriedMore(tries, t, a);
    }
  }

  lemma TriedAll(tries: seq<Try>, sagno: nat, agcount: nat, firstblock: bool)
    requires sagno < agcount && TriedTo(tries, sagno, agcount, firstblock, Groups(sagno, agcount, firstblock))
    ensures forall a: nat :: InRange(a, sagno, agcount, firstblock) ==> TriedHard(tries, a)
  {
    hide TriedHard;
    forall a: nat | InRange(a, sagno, agcount, firstblock) ensures TriedHard(tries, a) {
      assert Place(a, sagno, agcount) < Groups(sagno, agcount, firstblock);
    }
  }

  /** The group at a place in the order of trying. */
  function GroupAt(place: int, sagno: nat, agcount: nat): int {
    if sagno + place < agcount then sagno + place else sagno + place - agcount
  }

  /**
   * The p-th try of three passes over n groups: without waiting in the first, with minleft kept in the first two, and
   * each pass in the order of the groups.
   */
  ghost predicate Turn(t: Try, p: int, sagno: nat, agcount: nat, n: int) {
    && (t.trylock <==> p < n) && (t.nomin <==> p >= 2 * n)
    && t.agno == GroupAt(if p < n then p else if p < 2 * n then p - n else p - 2 * n, sagno, agcount)
  }

  /** The tries are those from the start-th of the three passes on. */
  ghost predicate Turns(tries: seq<Try>, start: int, sagno: nat, agcount: nat, firstblock: bool) {
    forall k :: 0 <= k < |tries| ==> Turn(tries[k], start + k, sagno, agcount, Groups(sagno, agcount, firstblock))
  }

  /** Where in the three passes the rotation starts: with FirstAg in the second, at the group given. */
  function Start(policy: Policy, agno0: nat, agcount: nat): nat {
    if policy == FirstAg then agcount + agno0 else 0
  }

  lemma StartPlace(policy: Policy, agno0: nat, agcount: nat, firstblock: bool)
    requires agno0 < agcount
    ensures var sagno := if policy == FirstAg then 0 else agno0;
            Start(policy, agno0, agcount)
            == (if policy == FirstAg then Groups(sagno, agcount, firstblock) else 0) + Place(agno0, sagno, agcount)
  {
  }

  lemma TurnsNone(start: int, sagno: nat, agcount: nat, firstblock: bool)
    ensures Turns([], start, sagno, agcount, firstblock)
  {
  }

  lemma TurnsMore(tries: seq<Try>, t: Try, start: int, pass: int, sagno: nat, agcount: nat, firstblock: bool)
    requires Turns(tries, start, sagno, agcount, firstblock) && 0 <= pass <= 2
    requires InRange(t.agno, sagno, agcount, firstblock) && sagno < agcount
    requires var n := Groups(sagno, agcount, firstblock);
             start + |tries| == (if pass == 0 then 0 else if pass == 1 then n else 2 * n) + Place(t.agno, sagno, agcount)
    requires t.trylock == (pass == 0) && t.nomin == (pass == 2)
    ensures Turns(tries + [t], start, sagno, agcount, firstblock)
  {
    var n, p := Groups(sagno, agcount, firstblock), Place(t.agno, sagno, agcount);
    assert 0 <= p < n && GroupAt(p, sagno, agcount) == t.agno;
    assert Turn(t, start + |tries|, sagno, agcount, n);
  }

  /**
   * A group is tried without minleft only after all groups were tried, waiting and with minleft kept; but when the
   * rotation starts at a group other than the first one of FirstAg, just those from there on.
   */
  lemma MinleftLast(tries: seq<Try>, k: nat, policy: Policy, agno0: nat, agcount: nat, firstblock: bool, a: nat)
    requires agno0 < agcount && k < |tries| && tries[k].nomin
    requires var sagno := if policy == FirstAg then 0 else agno0;
             && Turns(tries, Start(policy, agno0, agcount), sagno, agcount, firstblock)
             && InRange(a, sagno, agcount, firstblock)
    ensures policy != FirstAg || agno0 <= a
            <==> exists j :: 0 <= j < k && tries[j].agno == a && !tries[j].trylock && !tries[j].nomin
  {
    var sagno := if policy == FirstAg then 0 else agno0;
    var n, p, start := Groups(sagno, agcount, firstblock), Place(a, sagno, agcount), Start(policy, agno0, agcount);
    assert Turn(tries[k], start + k, sagno, agcount, n);
    assert 0 <= p < n && GroupAt(p, sagno, agcount) == a;
    if policy != FirstAg || agno0 <= a {
      var j := n + p - start;
      assert Turn(tries[j], start + j, sagno, agcount, n);
    } else {
      forall j | 0 <= j < k && !tries[j].trylock && !tries[j].nomin ensures tries[j].agno != a {
        assert Turn(tries[j], start + j, sagno, agcount, n);
      }
    }
  }

  /** And it is tried while waiting only after all were tried without, if the rotation starts so. */
  lemma WaitingLast(tries: seq<Try>, k: nat, policy: Policy, agno0: nat, agcount: nat, firstblock: bool, a: nat)
    requires agno0 < agcount && k < |tries| && !tries[k].trylock && policy != FirstAg
    requires Turns(tries, 0, agno0, agcount, firstblock) && InRange(a, agno0, agcount, firstblock)
    ensures exists j :: 0 <= j < k && tries[j].agno == a && tries[j].trylock
  {
    var n, j := Groups(agno0, agcount, firstblock), Place(a, agno0, agcount);
    assert Turn(tries[k], k, agno0, agcount, n);
    assert 0 <= j < n && GroupAt(j, agno0, agcount) == a;
    assert Turn(tries[j], j, agno0, agcount, n);
  }

  /**
   * Rotate through the groups looking for a winner: first without waiting for locks, then waiting, then with
   * minleft 0. The k-th try succeeds if answer(k); agno0 is the group of the block given, or where the rotor stands.
   */
  method Rotate(policy: Policy, agno0: nat, agcount: nat, firstblock: bool, answer: nat -> bool)
    returns (found: bool, agno: nat, tries: seq<Try>)
    requires agno0 < agcount
    ensures 1 <= |tries| <= 3 * agcount
    ensures forall k :: 0 <= k < |tries| ==> answer(k) == (found && k == |tries| - 1)
    ensures found ==> tries[|tries| - 1].agno == agno
    ensures var sagno := if policy == FirstAg then 0 else agno0;
            && (forall k :: 0 <= k < |tries| ==> InRange(tries[k].agno, sagno, agcount, firstblock))
            && (forall k :: 0 <= k < |tries| ==> NearFirst(tries[k], policy, sagno))
            && (!found ==> forall a: nat :: InRange(a, sagno, agcount, firstblock) ==> TriedHard(tries, a))
            && Turns(tries, Start(policy, agno0, agcount), sagno, agcount, firstblock)
            && (!found ==> |tries| + Start(policy, agno0, agcount) == 3 * Groups(sagno, agcount, firstblock))
    ensures tries[0].agno == agno0 && (tries[0].trylock <==> policy != FirstAg)
  {
    hide TriedTo, TriedHard, Turns, Start, Place, Groups, InRange;
    agno := agno0;
    var sagno := if policy == FirstAg then 0 else agno0;
    FirstPlace(agno, sagno, agcount, firstblock);
    StartPlace(policy, agno0, agcount, firstblock);
    var trylock, nomin, near := policy != FirstAg, false, policy == StartBno;
    tries := [];
    TurnsNone(Start(policy, agno0, agcount), sagno, agcount, firstblock);
    ghost var n, pass0, place0 := Groups(sagno, agcount, firstblock), if trylock then 0 else 1, Place(agno0, sagno, agcount);
    ghost var pass := pass0;
    while true
      invariant InRange(agno, sagno, agcount, firstblock)
      invariant 0 <= place0 && 0 <= Place(agno, sagno, agcount) < n <= agcount
      invariant pass0 <= pass <= 2 && trylock == (pass == 0) && nomin == (pass == 2)
      invariant |tries| == (if pass == pass0 then 0 else if pass == pass0 + 1 then n else 2 * n)
                             + Place(agno, sagno, agcount) - place0
      invariant tries == [] ==> agno == agno0 && pass == pass0
      invariant forall k :: 0 <= k < |tries| ==> !answer(k)
      invariant forall k :: 0 <= k < |tries| ==> InRange(tries[k].agno, sagno, agcount, firstblock)
      invariant forall k :: 0 <= k < |tries| ==> NearFirst(tries[k], policy, sagno)
      invariant near <==> policy == StartBno && agno == sagno && !nomin
      invariant tries != [] ==> tries[0].agno == agno0 && (tries[0].trylock <==> policy != FirstAg)
      invariant pass == 2 ==> TriedTo(tries, sagno, agcount, firstblock, Place(agno, sagno, agcount))
      invariant Turns(tries, Start(policy, agno0, agcount), sagno, agcount, firstblock)
      decreases 2 - pass, n - Place(agno, sagno, agcount)
    {
      var t := Try(agno, near, trylock, nomin);
      if pass == 2 {
        TriedOn(tries, t, sagno, agcount, firstblock);
      }
      TurnsMore(tries, t, Start(policy, agno0, agcount), pass, sagno, agcount, firstblock);
      ghost var at := agno;
      tries := tries + [t];
      if answer(|tries| - 1) {
        return true, agno, tries;
      }
      if agno == sagno && policy == StartBno {
        near := false;
      }
      agno := agno + 1;
      if agno == agcount {
        agno := if firstblock then sagno else 0;
      }
      NextPlace(at, agno, sagno, agcount, firstblock);
      if agno == sagno {
        if nomin {
          TriedAll(tries, sagno, agcount, firstblock);
          return false, agno, tries;
        }
        pass := pass + 1;
        TriedNone(tries, sagno, agcount, firstblock);
        if !trylock {
          nomin := true;
        } else {
          trylock := false;
          if policy == StartBno {
            near := true;
          }
        }
      }
    }
  }
}
