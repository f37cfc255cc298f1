/** What the mode does to the access a list gives. */
module AclLaws {
  import opened Acl
  import opened AclMode

  lemma {:induction false} SameTags(a: seq<Entry>, b: seq<Entry>, tag: Tag)
    requires |a| == |b| && forall k: nat :: k < |a| ==> a[k].tag == b[k].tag
    ensures Count(a, tag) == Count(b, tag)
    decreases |a|
  {
    if a != [] {
      SameTags(a[..|a| - 1], b[..|b| - 1], tag);
    }
  }

  /** Taking over a mode changes permissions only. */
  lemma TakenKinds(es: seq<Entry>, mode: Perm, filter: bool)
    ensures var t := Taken(es, mode, filter);
            |t| == |es| && forall k: nat :: k < |es| ==> t[k].tag == es[k].tag && t[k].id == es[k].id
  {
    hide Count, Gap, Take, OwnerBits, GroupBits, OtherBits;
  }

  lemma TakenValid(es: seq<Entry>, mode: Perm, filter: bool)
    requires ValidAcl(es)
    ensures ValidAcl(Taken(es, mode, filter))
  {
    hide Count, Taken;
    var t := Taken(es, mode, filter);
    TakenKinds(es, mode, filter);
    SameTags(t, es, UserObj);
    SameTags(t, es, GroupObj);
    SameTags(t, es, Other);
    SameTags(t, es, Mask);
    forall i: nat, j: nat ensures !Twins(t, i, j) {
      assert !Twins(es, i, j);
    }
  }

  /** The permission of an entry after taking over a mode, for a valid list. */
  lemma TakenPerm(es: seq<Entry>, mode: Perm, filter: bool, k: nat)
    requires ValidAcl(es) && k < |es|
    ensures Taken(es, mode, filter)[k].perm ==
            match es[k].tag
            case UserObj => Take(filter, es[k].perm, OwnerBits(mode))
            case Mask => Take(filter, es[k].perm, GroupBits(mode))
            case Other => Take(filter, es[k].perm, OtherBits(mode))
            case GroupObj =>
              if Count(es, Mask) == 0 then Take(filter, es[k].perm, GroupBits(mode)) else es[k].perm
            case _ => es[k].perm
  {
    hide Count, Gap, Take, OwnerBits, GroupBits, OtherBits, Twins;
    if es[k].tag == GroupObj {
      CountOne(es, GroupObj, k, Gap(es));
    }
  }

  /** The bits of a mode that are for the one who asks. */
  function ClassBits(es: seq<Entry>, f: Owner, w: Who, mode: Perm, named: bool): Perm {
    if f.uid == w.uid then OwnerBits(mode) else if named then GroupBits(mode) else OtherBits(mode)
  }

  lemma BothAllow(a: Perm, b: Perm, md: Perm)
    requires a & md == md && b & md == md
    ensures (a & b) & md == md
  {
  }

  lemma OneAllows(a: Perm, b: Perm, md: Perm)
    requires (a & b) & md == md
    ensures a & md == md
  {
  }

  lemma MeetTurns(a: Perm, b: Perm)
    ensures And(a, b) == And(b, a)
  {
  }

  lemma AllowsBoth(a: Perm, b: Perm, md: Perm)
    ensures Allows(And(a, b), md) <==> Allows(a, md) && Allows(b, md)
  {
    if Allows(a, md) && Allows(b, md) {
      BothAllow(a, b, md);
    }
    if Allows(And(a, b), md) {
      MeetTurns(a, b);
      OneAllows(a, b, md);
      OneAllows(b, a, md);
    }
  }

  lemma SameHits(es: seq<Entry>, t: seq<Entry>, f: Owner, w: Who)
    requires |t| == |es| && forall k: nat :: k < |es| ==> t[k].tag == es[k].tag && t[k].id == es[k].id
    ensures AnyUser(t, w) <==> AnyUser(es, w)
    ensures AnyGroup(t, f, w) <==> AnyGroup(es, f, w)
  {
    if AnyUser(es, w) {
      var i: nat :| i < |es| && UserHit(es[i], w);
      assert UserHit(t[i], w);
    }
    if AnyGroup(es, f, w) {
      var i: nat :| i < |es| && GroupHit(es[i], f, w);
      assert GroupHit(t[i], f, w);
    }
    if AnyUser(t, w) {
      var i: nat :| i < |es| && UserHit(t[i], w);
      assert UserHit(es[i], w);
    }
    if AnyGroup(t, f, w) {
      var i: nat :| i < |es| && GroupHit(t[i], f, w);
      assert GroupHit(es[i], f, w);
    }
  }

  /** The one entry of a kind. */
  lemma TheOne(es: seq<Entry>, tag: Tag) returns (k: nat)
    requires Count(es, tag) == 1
    ensures k < |es| && es[k].tag == tag
    ensures forall i: nat :: i < |es| && es[i].tag == tag ==> i == k
  {
    hide Count;
    CountSome(es, tag);
    k :| k < |es| && es[k].tag == tag;
    forall i: nat | i < |es| && es[i].tag == tag ensures i == k {
      CountOne(es, tag, i, k);
    }
  }

  /** Entry k decides alone over a kind of entries. */
  ghost predicate Decides(es: seq<Entry>, tag: Tag, md: Perm, yes: bool) {
    (exists i: nat :: i < |es| && es[i].tag == tag && Allows(es[i].perm, md)) <==> yes
  }

  /** What a mode leaves of one entry's permission. */
  predicate Left(filter: bool, was: bool, bits: Perm, md: Perm) {
    (filter ==> was) && Allows(bits, md)
  }

  lemma TakeLeft(filter: bool, was: Perm, bits: Perm, md: Perm)
    ensures Allows(Take(filter, was, bits), md) <==> Left(filter, Allows(was, md), bits, md)
  {
    hide Allows, And;
    AllowsBoth(was, bits, md);
  }

  lemma SpecialLeft(es: seq<Entry>, mode: Perm, filter: bool, md: Perm, tag: Tag)
    requires ValidAcl(es) && (tag == UserObj || tag == Other)
    ensures var was := exists i: nat :: i < |es| && es[i].tag == tag && Allows(es[i].perm, md);
            var bits := if tag == UserObj then OwnerBits(mode) else OtherBits(mode);
            Decides(Taken(es, mode, filter), tag, md, Left(filter, was, bits, md))
  {
    hide Count, Taken, Take, OwnerBits, OtherBits, Allows, Twins;
    var t := Taken(es, mode, filter);
    TakenKinds(es, mode, filter);
    var k := TheOne(es, tag);
    TakenPerm(es, mode, filter, k);
    TakeLeft(filter, es[k].perm, if tag == UserObj then OwnerBits(mode) else OtherBits(mode), md);
    assert t[k].tag == tag;
  }

  /** With a mask, the mask takes over the group's bits and the entries under it stay as they are. */
  lemma MaskLeft(es: seq<Entry>, mode: Perm, filter: bool, md: Perm)
    requires ValidAcl(es) && Count(es, Mask) == 1
    ensures MaskAllows(Taken(es, mode, filter), md) <==> Left(filter, MaskAllows(es, md), GroupBits(mode), md)
  {
    hide Count, Taken, Take, GroupBits, Allows, Twins;
    var t := Taken(es, mode, filter);
    TakenKinds(es, mode, filter);
    var k := TheOne(es, Mask);
    TakenPerm(es, mode, filter, k);
    TakeLeft(filter, es[k].perm, GroupBits(mode), md);
    assert t[k].tag == Mask;
  }

  /** Someone the list names, or whose group it names, has an entry that allows the access. */
  ghost predicate HitAllows(es: seq<Entry>, f: Owner, w: Who, md: Perm) {
    if AnyUser(es, w) then exists i: nat :: i < |es| && UserHit(es[i], w) && Allows(es[i].perm, md)
    else exists i: nat :: i < |es| && GroupHit(es[i], f, w) && Allows(es[i].perm, md)
  }

  lemma HitStays(es: seq<Entry>, mode: Perm, filter: bool, f: Owner, w: Who, md: Perm)
    requires ValidAcl(es) && Count(es, Mask) == 1
    ensures HitAllows(Taken(es, mode, filter), f, w, md) <==> HitAllows(es, f, w, md)
  {
    hide Count, Taken, Take, Allows, Twins, AnyUser, AnyGroup;
    var t := Taken(es, mode, filter);
    TakenKinds(es, mode, filter);
    SameHits(es, t, f, w);
    forall k: nat | k < |es| && (UserHit(es[k], w) || GroupHit(es[k], f, w)) ensures t[k].perm == es[k].perm {
      TakenPerm(es, mode, filter, k);
    }
    if HitAllows(es, f, w, md) {
      var i: nat :| i < |es| && (if AnyUser(es, w) then UserHit(es[i], w) else GroupHit(es[i], f, w)) && Allows(es[i].perm, md);
      assert if AnyUser(t, w) then UserHit(t[i], w) else GroupHit(t[i], f, w);
    }
    if HitAllows(t, f, w, md) {
      var i: nat :| i < |es| && (if AnyUser(t, w) then UserHit(t[i], w) else GroupHit(t[i], f, w)) && Allows(t[i].perm, md);
      assert if AnyUser(es, w) then UserHit(es[i], w) else GroupHit(es[i], f, w);
    }
  }

  /** Without a mask there are no named entries, and the file's group takes over the bits itself. */
  lemma GroupLeft(es: seq<Entry>, mode: Perm, filter: bool, f: Owner, w: Who, md: Perm)
    requires ValidAcl(es) && Count(es, Mask) == 0 && (AnyUser(es, w) || AnyGroup(es, f, w))
    ensures !AnyUser(es, w)
    ensures MaskAllows(es, md) && MaskAllows(Taken(es, mode, filter), md)
    ensures HitAllows(Taken(es, mode, filter), f, w, md) <==> Left(filter, HitAllows(es, f, w, md), GroupBits(mode), md)
  {
    hide Count, Taken, Take, GroupBits, Allows, Twins;
    var t := Taken(es, mode, filter);
    TakenKinds(es, mode, filter);
    forall i: nat | i < |es| ensures es[i].tag != Mask && !Named(es[i]) {
      if es[i].tag == Mask {
        CountAt(es, Mask, i);
      }
    }
    var k := TheOne(es, GroupObj);
    TakenPerm(es, mode, filter, k);
    TakeLeft(filter, es[k].perm, GroupBits(mode), md);
    SameHits(es, t, f, w);
    var i: nat :| i < |es| && GroupHit(es[i], f, w);
    assert GroupHit(es[k], f, w) && GroupHit(t[k], f, w);
  }

  lemma GrantedParts(es: seq<Entry>, f: Owner, w: Who, md: Perm)
    requires f.uid != w.uid && (AnyUser(es, w) || AnyGroup(es, f, w))
    ensures Granted(es, f, w, md) <==> HitAllows(es, f, w, md) && MaskAllows(es, md)
  {
    hide Allows;
  }

  /** Filtering a list by a mode gives exactly the access that both the list and the mode give. */
  lemma FilterMeets(es: seq<Entry>, f: Owner, w: Who, md: Perm, mode: Perm)
    requires ValidAcl(es)
    ensures Granted(Taken(es, mode, true), f, w, md)
            <==> Granted(es, f, w, md) && Allows(ClassBits(es, f, w, mode, AnyUser(es, w) || AnyGroup(es, f, w)), md)
  {
    hide Count, Taken, OwnerBits, GroupBits, OtherBits, Allows, AnyUser, AnyGroup, MaskAllows, HitAllows, ValidAcl;
    var t := Taken(es, mode, true);
    TakenKinds(es, mode, true);
    SameHits(es, t, f, w);
    if f.uid == w.uid {
      SpecialLeft(es, mode, true, md, UserObj);
    } else if AnyUser(es, w) || AnyGroup(es, f, w) {
      GrantedParts(es, f, w, md);
      GrantedParts(t, f, w, md);
      MaskCount(es);
      if Count(es, Mask) == 1 {
        MaskLeft(es, mode, true, md);
        HitStays(es, mode, true, f, w, md);
      } else {
        GroupLeft(es, mode, true, f, w, md);
      }
    } else {
      SpecialLeft(es, mode, true, md, Other);
    }
  }

  lemma MaskCount(es: seq<Entry>)
    requires ValidAcl(es)
    ensures Count(es, Mask) <= 1
  {
  }

  /**
   * After a change of mode the owner and the others have exactly what the mode gives them; those in between have it
   * under the mask, as far as an entry gives it.
   */
  lemma SyncMeets(es: seq<Entry>, f: Owner, w: Who, md: Perm, mode: Perm)
    requires ValidAcl(es)
    ensures var between := f.uid != w.uid && (AnyUser(es, w) || AnyGroup(es, f, w));
            Granted(Taken(es, mode, false), f, w, md)
            <==> Allows(ClassBits(es, f, w, mode, between), md)
                 && (between && Count(es, Mask) == 1 ==> HitAllows(es, f, w, md))
  {
    hide Count, Taken, OwnerBits, GroupBits, OtherBits, Allows, AnyUser, AnyGroup, MaskAllows, HitAllows, ValidAcl;
    var t := Taken(es, mode, false);
    TakenKinds(es, mode, false);
    SameHits(es, t, f, w);
    if f.uid == w.uid {
      SpecialLeft(es, mode, false, md, UserObj);
    } else if AnyUser(es, w) || AnyGroup(es, f, w) {
      GrantedParts(t, f, w, md);
      MaskCount(es);
      if Count(es, Mask) == 1 {
        MaskLeft(es, mode, false, md);
        HitStays(es, mode, false, f, w, md);
      } else {
        GroupLeft(es, mode, false, f, w, md);
      }
    } else {
      SpecialLeft(es, mode, false, md, Other);
    }
  }

  lemma OrNone(p: Perm)
    ensures Or(0, p) == p && Or(p, 0) == p && Up3(0) == 0
  {
  }

  lemma {:induction false} BitsNone(es: seq<Entry>, tag: Tag)
    requires Count(es, tag) == 0
    ensures Bits(es, tag) == 0
    decreases |es|
  {
    hide Or;
    if es != [] {
      BitsNone(es[..|es| - 1], tag);
    }
  }

  lemma {:induction false} BitsOne(es: seq<Entry>, tag: Tag, k: nat)
    requires Count(es, tag) == 1 && k < |es| && es[k].tag == tag
    ensures Bits(es, tag) == es[k].perm
    decreases |es|
  {
    hide Or;
    var n := |es| - 1;
    if k == n {
      BitsNone(es[..n], tag);
      OrNone(es[k].perm);
    } else {
      CountAt(es[..n], tag, k);
      BitsOne(es[..n], tag, k);
    }
  }

  /** A mode is its parts. */
  function Joined(r: Perm, u: Perm, g: Perm, o: Perm): Perm {
    Or(Or(Or(r, Up6(u)), Up3(g)), o)
  }

  lemma JoinedParts(mode: Perm)
    ensures Joined(Rest(mode), OwnerBits(mode), GroupBits(mode), OtherBits(mode)) == mode
  {
  }

  lemma SplitOwner(mode: Perm, u: Perm, g: Perm, o: Perm)
    requires Small(u) && Small(g) && Small(o)
    ensures OwnerBits(Joined(Rest(mode), u, g, o)) == u
  {
  }

  lemma SplitGroup(mode: Perm, u: Perm, g: Perm, o: Perm)
    requires Small(u) && Small(g) && Small(o)
    ensures GroupBits(Joined(Rest(mode), u, g, o)) == g
  {
  }

  lemma SplitOther(mode: Perm, u: Perm, g: Perm, o: Perm)
    requires Small(u) && Small(g) && Small(o)
    ensures OtherBits(Joined(Rest(mode), u, g, o)) == o
  {
  }

  lemma PartsSmall(mode: Perm)
    ensures Small(OwnerBits(mode)) && Small(GroupBits(mode)) && Small(OtherBits(mode))
  {
  }

  /** The entries that a valid list shares with the mode: the owner's, the group's or the mask, and the others'. */
  lemma Shared(es: seq<Entry>) returns (u: nat, g: nat, o: nat)
    requires ValidAcl(es)
    ensures u < |es| && g < |es| && o < |es|
    ensures es[u].tag == UserObj && es[o].tag == Other
    ensures es[g].tag == if Count(es, Mask) == 0 then GroupObj else Mask
    ensures forall k: nat :: k < |es| ==>
              && (es[k].tag == UserObj ==> k == u) && (es[k].tag == Other ==> k == o)
              && (es[k].tag == es[g].tag ==> k == g)
    ensures forall mode: Perm :: ModeOf(es, mode) == Joined(Rest(mode), es[u].perm, es[g].perm, es[o].perm)
  {
    hide Count, Gap, Bits, Or, Up6, Up3, Rest, Twins;
    u := TheOne(es, UserObj);
    o := TheOne(es, Other);
    BitsOne(es, UserObj, u);
    BitsOne(es, Other, o);
    if Count(es, Mask) == 0 {
      g := TheOne(es, GroupObj);
      BitsNone(es, Mask);
      assert Gap(es) == g;
      forall mode: Perm ensures ModeOf(es, mode) == Joined(Rest(mode), es[u].perm, es[g].perm, es[o].perm) {
        var ru := Or(Rest(mode), Up6(es[u].perm));
        OrNone(ru);
        OrSwap(ru, es[o].perm, Up3(es[g].perm));
      }
    } else {
      g := TheOne(es, Mask);
      BitsOne(es, Mask, g);
    }
  }

  /** A mode put into a list comes out again. */
  lemma ModeKept(es: seq<Entry>, mode: Perm)
    requires ValidAcl(es)
    ensures ModeOf(Taken(es, mode, false), mode) == mode
  {
    hide Count, Taken, ModeOf, Joined, Rest, OwnerBits, GroupBits, OtherBits, ValidAcl, Bits;
    var t := Taken(es, mode, false);
    TakenValid(es, mode, false);
    TakenKinds(es, mode, false);
    var u, g, o := Shared(t);
    SameTags(t, es, Mask);
    TakenPerm(es, mode, false, u);
    TakenPerm(es, mode, false, g);
    TakenPerm(es, mode, false, o);
    JoinedParts(mode);
  }

  /** An entry that is shared with the mode. */
  predicate Special(es: seq<Entry>, k: nat)
    requires k < |es|
  {
    es[k].tag == UserObj || es[k].tag == Mask || es[k].tag == Other || (es[k].tag == GroupObj && Count(es, Mask) == 0)
  }

  /** A list put into a mode comes out again exactly if its shared entries have no more than three permission bits. */
  lemma ListKept(es: seq<Entry>, mode: Perm)
    requires ValidAcl(es)
    ensures Taken(es, ModeOf(es, mode), false) == es <==> forall k: nat :: k < |es| && Special(es, k) ==> Small(es[k].perm)
  {
    hide Count, Taken, ModeOf, Joined, Rest, OwnerBits, GroupBits, OtherBits, Small, ValidAcl, Bits;
    var m := ModeOf(es, mode);
    var t := Taken(es, m, false);
    var u, g, o := Shared(es);
    TakenKinds(es, m, false);
    PartsSmall(m);
    forall k: nat | k < |es|
      ensures Special(es, k) ==> Small(t[k].perm)
      ensures !Special(es, k) ==> t[k] == es[k] {
      TakenPerm(es, m, false, k);
    }
    if forall k: nat :: k < |es| && Special(es, k) ==> Small(es[k].perm) {
      assert Special(es, u) && Special(es, g) && Special(es, o);
      SplitOwner(mode, es[u].perm, es[g].perm, es[o].perm);
      SplitGroup(mode, es[u].perm, es[g].perm, es[o].perm);
      SplitOther(mode, es[u].perm, es[g].perm, es[o].perm);
      forall k: nat | k < |es| && Special(es, k) ensures t[k] == es[k] {
        MaskCount(es);
        TakenPerm(es, m, false, k);
        if es[k].tag == Mask {
          CountAt(es, Mask, k);
        }
        assert k == u || k == g || k == o;
      }
    }
  }

  /** The shortest list there is, with a fourth bit for the owner. */
  function FourthBit(): seq<Entry> {
    [Entry(UserObj, 0, 8), Entry(GroupObj, 0, 7), Entry(Other, 0, 7)]
  }

  lemma CountThree(a: Entry, b: Entry, c: Entry, tag: Tag)
    ensures Count([a, b, c], tag)
            == (if a.tag == tag then 1 else 0) + (if b.tag == tag then 1 else 0) + (if c.tag == tag then 1 else 0)
  {
    assert [a, b, c][..2] == [a, b] && [a, b][..1] == [a] && [a][..0] == [];
    assert Count([], tag) == 0;
    assert Count([a], tag) == if a.tag == tag then 1 else 0;
    assert Count([a, b], tag) == Count([a], tag) + if b.tag == tag then 1 else 0;
  }

  /** It is valid, and no mode brings it back. */
  lemma ListKeptMisses(mode: Perm)
    ensures ValidAcl(FourthBit()) && Taken(FourthBit(), ModeOf(FourthBit(), mode), false) != FourthBit()
  {
    hide Count, Taken, ModeOf;
    var es := FourthBit();
    CountThree(es[0], es[1], es[2], UserObj);
    CountThree(es[0], es[1], es[2], GroupObj);
    CountThree(es[0], es[1], es[2], Other);
    CountThree(es[0], es[1], es[2], Mask);
    ListKept(es, mode);
    assert Special(es, 0) && !Small(es[0].perm);
  }
}
