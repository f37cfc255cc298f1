/** Access control lists: which are valid, and whom they let in. */
module Acl {

  const MAX_ENTRIES := 25
  const NOT_PRESENT := -1
  const EACCES := 13
  const EINVAL := 22

  type Perm = p: bv16 | true

  datatype Tag = UserObj | User | GroupObj | Group | Mask | Other | Unknown(code: int)

  datatype Entry = Entry(tag: Tag, id: int, perm: Perm)

  /** A file's owner and group, and the one who asks: his user and the groups he is in. */
  datatype Owner = Owner(uid: int, gid: int)

  datatype Who = Who(uid: int, groups: set<int>)

  /** All the bits asked for are there. */
  predicate Allows(perm: Perm, md: Perm) { perm & md == md }

  /** How many entries have a tag. */
  function Count(es: seq<Entry>, tag: Tag): nat {
    if es == [] then 0
    else Count(es[..|es| - 1], tag) + if es[|es| - 1].tag == tag then 1 else 0
  }

  predicate Named(e: Entry) { e.tag == User || e.tag == Group }

  /** Two different entries for the same user or the same group. */
  predicate Twins(es: seq<Entry>, i: nat, j: nat) {
    i < j < |es| && Named(es[i]) && es[i].tag == es[j].tag && es[i].id == es[j].id
  }

  /** Exactly one entry each for the owner, the group and the others, at most one mask, which named entries need. */
  ghost predicate ValidAcl(es: seq<Entry>) {
    && |es| <= MAX_ENTRIES
    && Count(es, UserObj) == 1 && Count(es, GroupObj) == 1 && Count(es, Other) == 1 && Count(es, Mask) <= 1
    && (forall i: nat :: i < |es| ==> !es[i].tag.Unknown?)
    && (forall i: nat, j: nat :: !Twins(es, i, j))
    && (forall i: nat :: i < |es| && Named(es[i]) ==> Count(es, Mask) == 1)
  }

  lemma {:induction false} CountMono(es: seq<Entry>, tag: Tag, n: nat)
    requires n <= |es|
    ensures Count(es[..n], tag) <= Count(es, tag)
    decreases |es|
  {
    if n < |es| {
      assert es[..|es| - 1][..n] == es[..n];
      CountMono(es[..|es| - 1], tag, n);
    } else {
      assert es[..n] == es;
    }
  }

  lemma CountNext(es: seq<Entry>, tag: Tag, n: nat)
    requires n < |es|
    ensures Count(es[..n + 1], tag) == Count(es[..n], tag) + if es[n].tag == tag then 1 else 0
  {
    assert es[..n + 1][..n] == es[..n];
  }

  lemma {:induction false} CountAt(es: seq<Entry>, tag: Tag, i: nat)
    requires i < |es| && es[i].tag == tag
    ensures Count(es, tag) >= 1
    decreases |es|
  {
    if i < |es| - 1 {
      CountAt(es[..|es| - 1], tag, i);
    }
  }

  lemma {:induction false} CountSome(es: seq<Entry>, tag: Tag)
    requires Count(es, tag) >= 1
    ensures exists i: nat :: i < |es| && es[i].tag == tag
    decreases |es|
  {
    if es[|es| - 1].tag != tag {
      CountSome(es[..|es| - 1], tag);
      var i: nat :| i < |es| - 1 && es[..|es| - 1][i].tag == tag;
      assert es[i].tag == tag;
    }
  }

  /** With at most one entry of a tag, two places of it are the same. */
  lemma {:induction false} CountOne(es: seq<Entry>, tag: Tag, i: nat, j: nat)
    requires Count(es, tag) <= 1 && i < |es| && j < |es| && es[i].tag == tag && es[j].tag == tag
    ensures i == j
    decreases |es|
  {
    if i < |es| - 1 && j < |es| - 1 {
      CountOne(es[..|es| - 1], tag, i, j);
    } else if i < j {
      CountAt(es[..|es| - 1], tag, i);
    } else if j < i {
      CountAt(es[..|es| - 1], tag, j);
    }
  }

  /** The entries that speak about the one who asks. */
  predicate OwnerHit(e: Entry, f: Owner, w: Who) { e.tag == UserObj && f.uid == w.uid }

  predicate UserHit(e: Entry, w: Who) { e.tag == User && e.id == w.uid }

  predicate GroupHit(e: Entry, f: Owner, w: Who) {
    (e.tag == GroupObj && f.gid in w.groups) || (e.tag == Group && e.id in w.groups)
  }

  /** The mask, when there is one, allows what is asked for. */
  ghost predicate MaskAllows(es: seq<Entry>, md: Perm) {
    forall i: nat :: i < |es| && es[i].tag == Mask ==> Allows(es[i].perm, md)
  }

  ghost predicate AnyUser(es: seq<Entry>, w: Who) { exists i: nat :: i < |es| && UserHit(es[i], w) }

  ghost predicate AnyGroup(es: seq<Entry>, f: Owner, w: Who) { exists i: nat :: i < |es| && GroupHit(es[i], f, w) }

  /**
   * The access check of POSIX 1003.1e section 23.1: the owner's entry decides for the owner, else the entry of the user
   * under the mask, else any entry of a group he is in under the mask, else the entry for others.
   */
  ghost predicate Granted(es: seq<Entry>, f: Owner, w: Who, md: Perm) {
    if f.uid == w.uid then
      exists i: nat :: i < |es| && es[i].tag == UserObj && Allows(es[i].perm, md)
    else if AnyUser(es, w) then
      (exists i: nat :: i < |es| && UserHit(es[i], w) && Allows(es[i].perm, md)) && MaskAllows(es, md)
    else if AnyGroup(es, f, w) then
      (exists i: nat :: i < |es| && GroupHit(es[i], f, w) && Allows(es[i].perm, md)) && MaskAllows(es, md)
    else
      exists i: nat :: i < |es| && es[i].tag == Other && Allows(es[i].perm, md)
  }

  /** What the one-pass check knows of the mask and of the owner's entry after the first n entries. */
  ghost predicate MarksSeen(es: seq<Entry>, md: Perm, n: nat, mask: int, owner: bool) {
    && n <= |es|
    && (owner <==> exists k: nat :: k < n && es[k].tag == UserObj)
    && (mask == -1 ==> forall k: nat :: k < n ==> es[k].tag != Mask)
    && (mask != -1 ==> exists k: nat :: k < n && es[k].tag == Mask && (mask != 0 <==> Allows(es[k].perm, md)))
  }

  /** The match so far and whether it allows the access. */
  ghost predicate MatchSeen(es: seq<Entry>, f: Owner, w: Who, md: Perm, n: nat, tag: Tag, perm: bool) {
    && n <= |es|
    && (tag != UserObj ==> forall k: nat :: k < n ==> !OwnerHit(es[k], f, w))
    && (tag != UserObj && tag != User ==> forall k: nat :: k < n ==> !UserHit(es[k], w))
    && match tag
       case UserObj => f.uid == w.uid && exists k: nat :: k < n && es[k].tag == UserObj && perm == Allows(es[k].perm, md)
       case User => exists k: nat :: k < n && UserHit(es[k], w) && perm == Allows(es[k].perm, md)
       case GroupObj => GroupsSeen(es, f, w, md, n, perm)
       case Group => GroupsSeen(es, f, w, md, n, perm)
       case Other =>
         && (forall k: nat :: k < n ==> !GroupHit(es[k], f, w))
         && exists k: nat :: k < n && es[k].tag == Other && perm == Allows(es[k].perm, md)
       case Mask => false
       case Unknown(_) =>
         && tag == Unknown(0) && !perm
         && forall k: nat :: k < n ==> !GroupHit(es[k], f, w) && es[k].tag != Other
  }

  ghost predicate Seen(es: seq<Entry>, f: Owner, w: Who, md: Perm, n: nat, tag: Tag, perm: bool, mask: int, owner: bool) {
    MarksSeen(es, md, n, mask, owner) && MatchSeen(es, f, w, md, n, tag, perm)
  }

  ghost predicate GroupsSeen(es: seq<Entry>, f: Owner, w: Who, md: Perm, n: nat, perm: bool)
    requires n <= |es|
  {
    && (exists k: nat :: k < n && GroupHit(es[k], f, w))
    && (perm <==> exists k: nat :: k < n && GroupHit(es[k], f, w) && Allows(es[k].perm, md))
  }

  /** The verdict on a match. */
  predicate Passes(tag: Tag, perm: bool, mask: int) {
    match tag
    case Other => perm
    case UserObj => perm
    case User => mask != 0 && perm
    case GroupObj => mask != 0 && perm
    case Group => mask != 0 && perm
    case Mask => false
    case Unknown(_) => false
  }

  /** The pass may end: all entries have been seen, or the match and the mask cannot change any more. */
  predicate Settled(es: seq<Entry>, n: nat, tag: Tag, mask: int, owner: bool) {
    n == |es| || tag == UserObj || (tag == User && mask != -1 && owner)
  }

  /** The mask seen is the mask. */
  lemma MaskSeen(es: seq<Entry>, md: Perm, n: nat, mask: int)
    requires n <= |es| && Count(es, Mask) <= 1
    requires mask == -1 ==> n == |es| && forall k: nat :: k < n ==> es[k].tag != Mask
    requires mask != -1 ==> exists k: nat :: k < n && es[k].tag == Mask && (mask != 0 <==> Allows(es[k].perm, md))
    ensures MaskAllows(es, md) <==> mask != 0
  {
    hide Allows;
    if mask != -1 {
      var k: nat :| k < n && es[k].tag == Mask && (mask != 0 <==> Allows(es[k].perm, md));
      forall i: nat | i < |es| && es[i].tag == Mask ensures i == k {
        CountOne(es, Mask, i, k);
      }
    }
  }

  lemma VerdictOwner(es: seq<Entry>, f: Owner, w: Who, md: Perm, n: nat, perm: bool, mask: int, owner: bool)
    requires ValidAcl(es) && Seen(es, f, w, md, n, UserObj, perm, mask, owner)
    ensures Granted(es, f, w, md) <==> perm
  {
    hide Allows;
    var k: nat :| k < n && es[k].tag == UserObj && perm == Allows(es[k].perm, md);
    forall i: nat | i < |es| && es[i].tag == UserObj ensures i == k {
      CountOne(es, UserObj, i, k);
    }
  }

  /** A valid list has an entry for the owner, so a pass that has seen it without a match is not the owner's. */
  lemma NotOwner(es: seq<Entry>, f: Owner, w: Who, n: nat, owner: bool)
    requires ValidAcl(es) && n <= |es| && (n == |es| || owner)
    requires owner <==> exists k: nat :: k < n && es[k].tag == UserObj
    requires forall k: nat :: k < n ==> !OwnerHit(es[k], f, w)
    ensures f.uid != w.uid
  {
    hide Twins;
    CountSome(es, UserObj);
    var k: nat :| k < |es| && es[k].tag == UserObj;
    if n == |es| {
      assert !OwnerHit(es[k], f, w);
    } else {
      var j: nat :| j < n && es[j].tag == UserObj;
      assert !OwnerHit(es[j], f, w);
    }
  }

  lemma VerdictUser(es: seq<Entry>, f: Owner, w: Who, md: Perm, n: nat, perm: bool, mask: int, owner: bool)
    requires ValidAcl(es) && Seen(es, f, w, md, n, User, perm, mask, owner) && Settled(es, n, User, mask, owner)
    ensures Granted(es, f, w, md) <==> mask != 0 && perm
  {
    hide Allows, MaskAllows;
    NotOwner(es, f, w, n, owner);
    MaskSeen(es, md, n, mask);
    var k: nat :| k < n && UserHit(es[k], w) && perm == Allows(es[k].perm, md);
    assert AnyUser(es, w);
    forall i: nat | i < |es| && UserHit(es[i], w) ensures i == k {
      assert !Twins(es, i, k) && !Twins(es, k, i);
    }
  }

  lemma VerdictGroup(es: seq<Entry>, f: Owner, w: Who, md: Perm, tag: Tag, perm: bool, mask: int, owner: bool)
    requires tag == GroupObj || tag == Group
    requires ValidAcl(es) && Seen(es, f, w, md, |es|, tag, perm, mask, owner)
    ensures Granted(es, f, w, md) <==> mask != 0 && perm
  {
    hide Allows, MaskAllows, Twins;
    NotOwner(es, f, w, |es|, owner);
    MaskSeen(es, md, |es|, mask);
    assert !AnyUser(es, w) && AnyGroup(es, f, w);
  }

  lemma VerdictOther(es: seq<Entry>, f: Owner, w: Who, md: Perm, perm: bool, mask: int, owner: bool)
    requires ValidAcl(es) && Seen(es, f, w, md, |es|, Other, perm, mask, owner)
    ensures Granted(es, f, w, md) <==> perm
  {
    hide Allows, Twins;
    NotOwner(es, f, w, |es|, owner);
    assert !AnyUser(es, w) && !AnyGroup(es, f, w);
    var k: nat :| k < |es| && es[k].tag == Other && perm == Allows(es[k].perm, md);
    forall i: nat | i < |es| && es[i].tag == Other ensures i == k {
      CountOne(es, Other, i, k);
    }
  }

  lemma Verdict(es: seq<Entry>, f: Owner, w: Who, md: Perm, n: nat, tag: Tag, perm: bool, mask: int, owner: bool)
    requires ValidAcl(es) && Seen(es, f, w, md, n, tag, perm, mask, owner) && Settled(es, n, tag, mask, owner)
    ensures Granted(es, f, w, md) <==> Passes(tag, perm, mask)
  {
    hide Allows, MaskAllows, Twins, Granted, GroupsSeen;
    match tag {
      case UserObj => VerdictOwner(es, f, w, md, n, perm, mask, owner);
      case User => VerdictUser(es, f, w, md, n, perm, mask, owner);
      case GroupObj => VerdictGroup(es, f, w, md, tag, perm, mask, owner);
      case Group => VerdictGroup(es, f, w, md, tag, perm, mask, owner);
      case Other => VerdictOther(es, f, w, md, perm, mask, owner);
      case Mask => assert false;
      case Unknown(_) => {
        CountSome(es, Other);
        assert false;
      }
    }
  }

  lemma MatchStart(es: seq<Entry>, f: Owner, w: Who, md: Perm)
    ensures MatchSeen(es, f, w, md, 0, Unknown(0), false)
  {
  }

  /** A match with the owner, a user or the others. */
  lemma MatchUser(es: seq<Entry>, f: Owner, w: Who, md: Perm, n: nat, tag: Tag, perm: bool)
    requires n < |es| && MatchSeen(es, f, w, md, n, tag, perm)
    ensures OwnerHit(es[n], f, w) ==> MatchSeen(es, f, w, md, n + 1, UserObj, Allows(es[n].perm, md))
    ensures tag != UserObj && UserHit(es[n], w) ==> MatchSeen(es, f, w, md, n + 1, User, Allows(es[n].perm, md))
    ensures tag == Unknown(0) && es[n].tag == Other ==> MatchSeen(es, f, w, md, n + 1, Other, Allows(es[n].perm, md))
  {
    hide Allows, GroupsSeen;
  }

  /** No match: the entry is about someone else, a user has been found, or the others after a match. */
  lemma MatchNone(es: seq<Entry>, f: Owner, w: Who, md: Perm, n: nat, tag: Tag, perm: bool)
    requires n < |es| && MatchSeen(es, f, w, md, n, tag, perm) && tag != UserObj
    requires !OwnerHit(es[n], f, w)
    requires tag != User ==> !UserHit(es[n], w) && !GroupHit(es[n], f, w)
    requires tag == Unknown(0) ==> es[n].tag != Other
    ensures MatchSeen(es, f, w, md, n + 1, tag, perm)
  {
    hide Allows, GroupsSeen;
    if tag == GroupObj || tag == Group {
      GroupsNext(es, f, w, md, n, perm);
    }
  }

  /** A match with a group replaces any but a better one. */
  lemma MatchGroup(es: seq<Entry>, f: Owner, w: Who, md: Perm, n: nat, tag: Tag, perm: bool, now: Tag)
    requires n < |es| && MatchSeen(es, f, w, md, n, tag, perm) && tag != UserObj && tag != User
    requires GroupHit(es[n], f, w) && (now == GroupObj || now == Group)
    ensures (tag == GroupObj || tag == Group) && !Allows(es[n].perm, md)
            ==> MatchSeen(es, f, w, md, n + 1, tag, perm)
    ensures !((tag == GroupObj || tag == Group) && !Allows(es[n].perm, md))
            ==> MatchSeen(es, f, w, md, n + 1, now, Allows(es[n].perm, md))
  {
    hide Allows, GroupsSeen;
    if tag == GroupObj || tag == Group {
      GroupsNext(es, f, w, md, n, perm);
    } else {
      GroupsFirst(es, f, w, md, n);
    }
  }

  lemma GroupsFirst(es: seq<Entry>, f: Owner, w: Who, md: Perm, n: nat)
    requires n < |es| && GroupHit(es[n], f, w) && forall k: nat :: k < n ==> !GroupHit(es[k], f, w)
    ensures GroupsSeen(es, f, w, md, n + 1, Allows(es[n].perm, md))
  {
    hide Allows;
  }

  lemma GroupsNext(es: seq<Entry>, f: Owner, w: Who, md: Perm, n: nat, perm: bool)
    requires n < |es| && GroupsSeen(es, f, w, md, n, perm)
    ensures GroupsSeen(es, f, w, md, n + 1, perm || (GroupHit(es[n], f, w) && Allows(es[n].perm, md)))
  {
    hide Allows;
  }

  class AccessList {
    var cnt: int
    const entry: array<Entry>

    ghost predicate Sized()
      reads this
    {
      entry.Length == MAX_ENTRIES && cnt <= MAX_ENTRIES
    }

    /** The entries there are. */
    function Entries(): seq<Entry>
      requires Sized()
      reads this, entry
    {
      if cnt < 0 then [] else entry[..cnt]
    }
  }

  /** The access check in one pass over the entries. */
  method Access(f: Owner, acl: AccessList, md: Perm, w: Who) returns (error: int)
    requires acl.Sized()
    ensures error == 0 || error == EACCES
    ensures ValidAcl(acl.Entries()) ==> (error == 0 <==> Granted(acl.Entries(), f, w, md))
  {
    hide Allows, ValidAcl, Granted, Passes, MatchSeen;
    ghost var es := acl.Entries();
    var tag := Unknown(0);
    var perm := false;
    var maskallows := -1;
    var seenUserobj := false;
    var i := 0;
    MatchStart(es, f, w, md);
    while i < acl.cnt
      invariant 0 <= i <= |es|
      invariant -1 <= maskallows <= 1
      invariant Seen(es, f, w, md, i, tag, perm, maskallows, seenUserobj)
    {
      var e := acl.entry[i];
      if tag == UserObj {
        break;
      }
      if tag == User {
        if maskallows != -1 && seenUserobj {
          break;
        }
        if e.tag != Mask && e.tag != UserObj {
          MatchNone(es, f, w, md, i, tag, perm);
          i := i + 1;
          continue;
        }
      }
      var allows := Allows(e.perm, md);
      MatchUser(es, f, w, md, i, tag, perm);
      if tag != User && GroupHit(e, f, w) {
        MatchGroup(es, f, w, md, i, tag, perm, e.tag);
      } else if !OwnerHit(e, f, w) && (tag == User || !UserHit(e, w)) && (tag == Unknown(0) ==> e.tag != Other) {
        MatchNone(es, f, w, md, i, tag, perm);
      }
      match e.tag {
        case UserObj =>
          seenUserobj := true;
          if f.uid == w.uid {
            tag, perm := UserObj, allows;
          }
        case User =>
          if e.id == w.uid {
            tag, perm := User, allows;
          }
        case GroupObj =>
          if (tag == GroupObj || tag == Group) && !allows {
          } else if f.gid in w.groups {
            tag, perm := GroupObj, allows;
          }
        case Group =>
          if (tag == GroupObj || tag == Group) && !allows {
          } else if e.id in w.groups {
            tag, perm := Group, allows;
          }
        case Mask =>
          maskallows := if allows then 1 else 0;
        case Other =>
          if tag == Unknown(0) {
            tag, perm := Other, allows;
          }
        case Unknown(_) =>
      }
      i := i + 1;
    }
    if ValidAcl(es) {
      Verdict(es, f, w, md, i, tag, perm, maskallows, seenUserobj);
    }
    error := if Passes(tag, perm, maskallows) then 0 else EACCES;
  }

  /** What is known of the first n entries, none of which made the list invalid. */
  ghost predicate GoodSoFar(es: seq<Entry>, n: nat, user: nat, group: nat, other: nat, mask: nat, need: nat) {
    && n <= |es| <= MAX_ENTRIES
    && user == Count(es[..n], UserObj) <= 1
    && group == Count(es[..n], GroupObj) <= 1
    && other == Count(es[..n], Other) <= 1
    && mask == Count(es[..n], Mask) <= 1
    && (forall i: nat :: i < n ==> !es[i].tag.Unknown?)
    && (forall i: nat, j: nat :: i < n ==> !Twins(es, i, j))
    && (need > 0 <==> exists i: nat :: i < n && Named(es[i]))
  }

  lemma GoodEnd(es: seq<Entry>, user: nat, group: nat, other: nat, mask: nat, need: nat)
    requires GoodSoFar(es, |es|, user, group, other, mask, need)
    ensures ValidAcl(es) <==> user != 0 && group != 0 && other != 0 && (need == 0 || mask != 0)
  {
    hide Count;
    assert es[..|es|] == es;
    forall i: nat, j: nat ensures !Twins(es, i, j) {
      if i >= |es| {
      }
    }
  }

  /** A second entry of a kind makes the whole list invalid. */
  lemma TooMany(es: seq<Entry>, n: nat, tag: Tag)
    requires n < |es| && es[n].tag == tag && Count(es[..n], tag) > 0
    requires tag == UserObj || tag == GroupObj || tag == Other || tag == Mask
    ensures !ValidAcl(es)
  {
    CountNext(es, tag, n);
    CountMono(es, tag, n + 1);
  }

  lemma GoodNext(es: seq<Entry>, n: nat, user: nat, group: nat, other: nat, mask: nat, need: nat)
    requires GoodSoFar(es, n, user, group, other, mask, need) && n < |es|
    requires !es[n].tag.Unknown?
    requires match es[n].tag
             case UserObj => user == 0
             case GroupObj => group == 0
             case Other => other == 0
             case Mask => mask == 0
             case _ => true
    requires Named(es[n]) ==> forall j: nat :: n < j < |es| ==> !Twins(es, n, j)
    ensures GoodSoFar(es, n + 1,
                      user + (if es[n].tag == UserObj then 1 else 0), group + (if es[n].tag == GroupObj then 1 else 0),
                      other + (if es[n].tag == Other then 1 else 0), mask + (if es[n].tag == Mask then 1 else 0),
                      need + (if Named(es[n]) then 1 else 0))
  {
    hide Count;
    CountNext(es, UserObj, n);
    CountNext(es, GroupObj, n);
    CountNext(es, Other, n);
    CountNext(es, Mask, n);
  }

  /** The check that a list makes sense. */
  method Invalid(aclp: AccessList?) returns (error: int)
    requires aclp != null ==> aclp.entry.Length == MAX_ENTRIES
    ensures error == 0 || error == EINVAL
    ensures error == 0 <==> aclp != null && aclp.Sized() && ValidAcl(aclp.Entries())
  {
    hide Count, ValidAcl, GoodSoFar;
    if aclp == null {
      return EINVAL;
    }
    if aclp.cnt > MAX_ENTRIES {
      return EINVAL;
    }
    ghost var es := aclp.Entries();
    var user, group, other, mask, maskRequired: nat := 0, 0, 0, 0, 0;
    var i := 0;
    GoodStart(es);
    while i < aclp.cnt
      invariant 0 <= i <= |es|
      invariant GoodSoFar(es, i, user, group, other, mask, maskRequired)
    {
      var e := aclp.entry[i];
      GoodCounts(es, i, user, group, other, mask, maskRequired);
      match e.tag {
        case UserObj =>
          if user != 0 {
            TooMany(es, i, UserObj);
            return EINVAL;
          }
          GoodNext(es, i, user, group, other, mask, maskRequired);
          user := user + 1;
        case GroupObj =>
          if group != 0 {
            TooMany(es, i, GroupObj);
            return EINVAL;
          }
          GoodNext(es, i, user, group, other, mask, maskRequired);
          group := group + 1;
        case Other =>
          if other != 0 {
            TooMany(es, i, Other);
            return EINVAL;
          }
          GoodNext(es, i, user, group, other, mask, maskRequired);
          other := other + 1;
        case User =>
          var twin := FindTwin(aclp, i, es);
          if twin {
            return EINVAL;
          }
          GoodNext(es, i, user, group, other, mask, maskRequired);
          maskRequired := maskRequired + 1;
        case Group =>
          var twin := FindTwin(aclp, i, es);
          if twin {
            return EINVAL;
          }
          GoodNext(es, i, user, group, other, mask, maskRequired);
          maskRequired := maskRequired + 1;
        case Mask =>
          if mask != 0 {
            TooMany(es, i, Mask);
            return EINVAL;
          }
          GoodNext(es, i, user, group, other, mask, maskRequired);
          mask := mask + 1;
        case Unknown(_) =>
          UnknownBad(es, i);
          return EINVAL;
      }
      i := i + 1;
    }
    GoodEnd(es, user, group, other, mask, maskRequired);
    if user == 0 || group == 0 || other == 0 || (maskRequired != 0 && mask == 0) {
      return EINVAL;
    }
    return 0;
  }

  lemma GoodStart(es: seq<Entry>)
    requires |es| <= MAX_ENTRIES
    ensures GoodSoFar(es, 0, 0, 0, 0, 0, 0)
  {
    assert es[..0] == [];
  }

  lemma GoodCounts(es: seq<Entry>, n: nat, user: nat, group: nat, other: nat, mask: nat, need: nat)
    requires GoodSoFar(es, n, user, group, other, mask, need)
    ensures user == Count(es[..n], UserObj) && group == Count(es[..n], GroupObj)
    ensures other == Count(es[..n], Other) && mask == Count(es[..n], Mask)
  {
    hide Count;
  }

  lemma UnknownBad(es: seq<Entry>, n: nat)
    requires n < |es| && es[n].tag.Unknown?
    ensures !ValidAcl(es)
  {
    hide Count, Twins;
  }

  /** Look behind entry i for another one with its tag and id. */
  method FindTwin(acl: AccessList, i: nat, ghost es: seq<Entry>) returns (found: bool)
    requires acl.Sized() && es == acl.Entries() && i < |es| && Named(es[i])
    ensures if found then !ValidAcl(es) else forall j: nat :: i < j < |es| ==> !Twins(es, i, j)
  {
    hide Count;
    var entry := acl.entry[i];
    var j := i + 1;
    while j < acl.cnt
      invariant i < j <= |es|
      invariant forall k: nat :: i < k < j ==> !Twins(es, i, k)
    {
      var e := acl.entry[j];
      if e.id == entry.id && e.tag == entry.tag {
        assert Twins(es, i, j);
        return true;
      }
      j := j + 1;
    }
    return false;
  }
}
