/** The file mode and the entries of an access control list that stand for it. */
module AclMode {
  import opened Acl

  /** The three classes of a mode. */
  function OwnerBits(mode: Perm): Perm { (mode >> 6) & 7 }

  function GroupBits(mode: Perm): Perm { (mode >> 3) & 7 }

  function OtherBits(mode: Perm): Perm { mode & 7 }

  /** A mode without the permission bits. */
  function Rest(mode: Perm): Perm { mode & 0xfe00 }

  function Or(a: Perm, b: Perm): Perm { a | b }

  function And(a: Perm, b: Perm): Perm { a & b }

  function Up6(p: Perm): Perm { p << 6 }

  function Up3(p: Perm): Perm { p << 3 }

  predicate Small(p: Perm) { p <= 7 }

  /** How an entry takes over bits of the mode: in their place, or only as far as it had them. */
  function Take(filter: bool, was: Perm, bits: Perm): Perm {
    if filter then And(was, bits) else bits
  }

  /** The last entry for the file's group, or -1. */
  function Gap(es: seq<Entry>): (g: int)
    ensures -1 <= g < |es|
    ensures g >= 0 ==> es[g].tag == GroupObj
    ensures forall i: nat :: g < i < |es| ==> es[i].tag != GroupObj
  {
    if es == [] then -1
    else if es[|es| - 1].tag == GroupObj then |es| - 1
    else Gap(es[..|es| - 1])
  }

  /** An entry for the owner, the mask or the others that has taken over its part of a mode. */
  function Part(e: Entry, mode: Perm, filter: bool): Entry {
    match e.tag
    case UserObj => e.(perm := Take(filter, e.perm, OwnerBits(mode)))
    case Mask => e.(perm := Take(filter, e.perm, GroupBits(mode)))
    case Other => e.(perm := Take(filter, e.perm, OtherBits(mode)))
    case _ => e
  }

  /** Entry k of a list that has taken over a mode. Without a mask, the group's bits go to the file's group. */
  function TakenAt(es: seq<Entry>, mode: Perm, filter: bool, k: nat): Entry
    requires k < |es|
  {
    if k == Gap(es) && Count(es, Mask) == 0 then es[k].(perm := Take(filter, es[k].perm, GroupBits(mode)))
    else Part(es[k], mode, filter)
  }

  function Taken(es: seq<Entry>, mode: Perm, filter: bool): seq<Entry> {
    seq(|es|, k requires 0 <= k < |es| => TakenAt(es, mode, filter, k))
  }

  /** The permission bits of all entries with a tag, put together. */
  function Bits(es: seq<Entry>, tag: Tag): Perm {
    if es == [] then 0
    else if es[|es| - 1].tag == tag then Or(Bits(es[..|es| - 1], tag), es[|es| - 1].perm)
    else Bits(es[..|es| - 1], tag)
  }

  /** The permission bits of a list's entries for the owner, the mask and the others, in their places. */
  function Gathered(es: seq<Entry>, mode: Perm): Perm {
    Or(Or(Or(Rest(mode), Up6(Bits(es, UserObj))), Up3(Bits(es, Mask))), Bits(es, Other))
  }

  /** The mode that goes with a list. */
  function ModeOf(es: seq<Entry>, mode: Perm): Perm {
    if Gap(es) >= 0 && Count(es, Mask) == 0 then Or(Gathered(es, mode), Up3(es[Gap(es)].perm)) else Gathered(es, mode)
  }

  lemma BitsNext(es: seq<Entry>, tag: Tag, n: nat)
    requires n < |es|
    ensures Bits(es[..n + 1], tag) == if es[n].tag == tag then Or(Bits(es[..n], tag), es[n].perm) else Bits(es[..n], tag)
  {
    assert es[..n + 1][..n] == es[..n];
  }

  lemma Up6Or(a: Perm, b: Perm)
    ensures Up6(Or(a, b)) == Or(Up6(a), Up6(b))
  {
  }

  lemma Up3Or(a: Perm, b: Perm)
    ensures Up3(Or(a, b)) == Or(Up3(a), Up3(b))
  {
  }

  lemma OrSwap(a: Perm, b: Perm, c: Perm)
    ensures Or(Or(a, b), c) == Or(Or(a, c), b)
  {
  }

  lemma OrGroup(a: Perm, b: Perm, c: Perm)
    ensures Or(a, Or(b, c)) == Or(Or(a, b), c)
  {
  }

  lemma GatherNext(es: seq<Entry>, mode: Perm, n: nat)
    requires n < |es|
    ensures Gathered(es[..n + 1], mode) == match es[n].tag
                                           case UserObj => Or(Gathered(es[..n], mode), Up6(es[n].perm))
                                           case Mask => Or(Gathered(es[..n], mode), Up3(es[n].perm))
                                           case Other => Or(Gathered(es[..n], mode), es[n].perm)
                                           case _ => Gathered(es[..n], mode)
  {
    hide Bits, Or, Up6, Up3, Rest;
    BitsNext(es, UserObj, n);
    BitsNext(es, Mask, n);
    BitsNext(es, Other, n);
    var u, g, o := Bits(es[..n], UserObj), Bits(es[..n], Mask), Bits(es[..n], Other);
    var p := es[n].perm;
    Up6Or(u, p);
    OrGroup(Rest(mode), Up6(u), Up6(p));
    var ru := Or(Rest(mode), Up6(u));
    OrSwap(ru, Up6(p), Up3(g));
    OrSwap(Or(ru, Up3(g)), Up6(p), o);
    Up3Or(g, p);
    OrGroup(ru, Up3(g), Up3(p));
    OrSwap(Or(ru, Up3(g)), Up3(p), o);
    OrGroup(Or(ru, Up3(g)), o, p);
  }

  lemma GatherNone(mode: Perm)
    ensures Gathered([], mode) == Rest(mode)
  {
  }

  /** The mode for a list, and whether the list says no more than a mode can. */
  method SetMode(mode: Perm, acl: AccessList) returns (out: Perm, basic: bool)
    requires acl.Sized()
    ensures out == if acl.cnt == NOT_PRESENT then mode else ModeOf(acl.Entries(), mode)
    ensures basic <==> forall k: nat :: k < |acl.Entries()| ==> acl.Entries()[k].tag in {UserObj, GroupObj, Other}
  {
    hide Count, Gap, Gathered, Bits, Or, Up6, Up3, Rest;
    basic := true;
    if acl.cnt == NOT_PRESENT {
      return mode, basic;
    }
    ghost var es := acl.Entries();
    var nomask := true;
    var gap := -1;
    out := Rest(mode);
    GatherNone(mode);
    ListNone(es);
    var i := 0;
    while i < acl.cnt
      invariant 0 <= i <= |es| && -1 <= gap < |es|
      invariant out == Gathered(es[..i], mode)
      invariant gap == Gap(es[..i])
      invariant nomask <==> Count(es[..i], Mask) == 0
      invariant basic <==> forall k: nat :: k < i ==> es[k].tag in {UserObj, GroupObj, Other}
    {
      var ap := acl.entry[i];
      GatherNext(es, mode, i);
      GapNext(es, i);
      CountNext(es, Mask, i);
      match ap.tag {
        case UserObj => out := Or(out, Up6(ap.perm));
        case GroupObj => gap := i;
        case Mask =>
          nomask := false;
          out := Or(out, Up3(ap.perm));
          basic := false;
        case Other => out := Or(out, ap.perm);
        case _ => basic := false;
      }
      i := i + 1;
    }
    Whole(es);
    if gap >= 0 && nomask {
      out := Or(out, Up3(acl.entry[gap].perm));
    }
  }

  lemma ListNone(es: seq<Entry>)
    ensures es[..0] == [] && Gap([]) == -1 && Count([], Mask) == 0
  {
  }

  lemma GapNext(es: seq<Entry>, n: nat)
    requires n < |es|
    ensures Gap(es[..n + 1]) == if es[n].tag == GroupObj then n else Gap(es[..n])
  {
    assert es[..n + 1][..n] == es[..n];
  }

  lemma Whole(es: seq<Entry>)
    ensures es[..|es|] == es
  {
  }

  /** The loops below have gone through n entries. */
  ghost predicate TakenTo(was: seq<Entry>, now: seq<Entry>, mode: Perm, filter: bool, n: nat, gap: int, nomask: bool) {
    && |now| == |was| && n <= |was|
    && (forall k: nat :: k < |was| ==> now[k] == if k < n then Part(was[k], mode, filter) else was[k])
    && gap == Gap(was[..n])
    && (nomask <==> Count(was[..n], Mask) == 0)
  }

  lemma TakenNext(was: seq<Entry>, now: seq<Entry>, mode: Perm, filter: bool, n: nat, gap: int, nomask: bool)
    requires TakenTo(was, now, mode, filter, n, gap, nomask) && n < |was|
    ensures now[n] == was[n]
    ensures TakenTo(was, now[n := Part(was[n], mode, filter)], mode, filter, n + 1,
                    if was[n].tag == GroupObj then n else gap, nomask && was[n].tag != Mask)
  {
    hide Part, Count, Gap;
    GapNext(was, n);
    CountNext(was, Mask, n);
  }

  lemma TakenEnd(was: seq<Entry>, now: seq<Entry>, mode: Perm, filter: bool, gap: int, nomask: bool)
    requires TakenTo(was, now, mode, filter, |was|, gap, nomask)
    ensures gap == Gap(was)
    ensures var last := if gap >= 0 && nomask
                        then now[gap := now[gap].(perm := Take(filter, now[gap].perm, GroupBits(mode)))] else now;
            last == Taken(was, mode, filter)
  {
    hide Count, GroupBits, OwnerBits, OtherBits, Take;
    Whole(was);
  }

  lemma TakenStart(was: seq<Entry>, mode: Perm, filter: bool)
    ensures TakenTo(was, was, mode, filter, 0, -1, true)
  {
    assert was[..0] == [];
  }

  /** Put the permissions of a mode into a list. */
  method SyncMode(mode: Perm, acl: AccessList)
    requires acl.Sized()
    modifies acl.entry
    ensures acl.Entries() == Taken(old(acl.Entries()), mode, false)
  {
    hide Count, Gap, TakenTo, Taken, OwnerBits, GroupBits, OtherBits;
    ghost var was := acl.Entries();
    var nomask := true;
    var gap := -1;
    TakenStart(was, mode, false);
    var i := 0;
    while i < acl.cnt
      invariant 0 <= i <= |was| && -1 <= gap < |was|
      invariant TakenTo(was, acl.Entries(), mode, false, i, gap, nomask)
    {
      ghost var now := acl.Entries();
      TakenNext(was, now, mode, false, i, gap, nomask);
      var ap := acl.entry[i];
      assert ap == was[i];
      match ap.tag {
        case UserObj => acl.entry[i] := ap.(perm := OwnerBits(mode));
        case GroupObj => gap := i;
        case Mask =>
          nomask := false;
          acl.entry[i] := ap.(perm := GroupBits(mode));
        case Other => acl.entry[i] := ap.(perm := OtherBits(mode));
        case _ =>
      }
      assert acl.Entries() == now[i := Part(was[i], mode, false)];
      i := i + 1;
    }
    TakenEnd(was, acl.Entries(), mode, false, gap, nomask);
    ghost var now := acl.Entries();
    if gap >= 0 && nomask {
      acl.entry[gap] := acl.entry[gap].(perm := GroupBits(mode));
      assert acl.Entries() == now[gap := now[gap].(perm := GroupBits(mode))];
    }
  }

  /** Take away what a mode does not give. */
  method FilterMode(mode: Perm, acl: AccessList)
    requires acl.Sized()
    modifies acl.entry
    ensures acl.Entries() == Taken(old(acl.Entries()), mode, true)
  {
    hide Count, Gap, TakenTo, Taken, OwnerBits, GroupBits, OtherBits, And;
    ghost var was := acl.Entries();
    var nomask := true;
    var gap := -1;
    TakenStart(was, mode, true);
    var i := 0;
    while i < acl.cnt
      invariant 0 <= i <= |was| && -1 <= gap < |was|
      invariant TakenTo(was, acl.Entries(), mode, true, i, gap, nomask)
    {
      ghost var now := acl.Entries();
      TakenNext(was, now, mode, true, i, gap, nomask);
      var ap := acl.entry[i];
      assert ap == was[i];
      match ap.tag {
        case UserObj => acl.entry[i] := ap.(perm := And(ap.perm, OwnerBits(mode)));
        case GroupObj => gap := i;
        case Mask =>
          nomask := false;
          acl.entry[i] := ap.(perm := And(ap.perm, GroupBits(mode)));
        case Other => acl.entry[i] := ap.(perm := And(ap.perm, OtherBits(mode)));
        case _ =>
      }
      assert acl.Entries() == now[i := Part(was[i], mode, true)];
      i := i + 1;
    }
    TakenEnd(was, acl.Entries(), mode, true, gap, nomask);
    ghost var now := acl.Entries();
    if gap >= 0 && nomask {
      acl.entry[gap] := acl.entry[gap].(perm := And(acl.entry[gap].perm, GroupBits(mode)));
      assert acl.Entries() == now[gap := now[gap].(perm := And(now[gap].perm, GroupBits(mode)))];
    }
  }
}
