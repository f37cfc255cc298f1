/** The circular list of blocks reserved for the free-space btrees (the AGFL). */
module FreeLists {
  import opened Records

  ghost function Elems<T>(queue: seq<T>): set<T> {
    set b | b in queue
  }

  /**
   * The AGFL block and the AGF fields that describe it. `queue` is the list the ring stands for,
   * oldest block first.
   */
  class FreeList {
    const slots: array<nat>
    var flfirst: nat
    var fllast: nat
    var flcount: nat
    var btreeblks: int
    ghost var queue: seq<nat>

    ghost predicate Valid()
      reads this, slots
    {
      && 0 < slots.Length
      && flfirst < slots.Length
      && fllast < slots.Length
      && flcount == |queue| <= slots.Length
      && fllast == Slot(flcount - 1)
      && (forall i :: 0 <= i < flcount ==> queue[i] == slots[Slot(i)])
      && (forall i, j :: 0 <= i < j < flcount ==> queue[i] != queue[j])
      && NULLAGBLOCK !in queue
    }

    /** The slot i places after the first, round the end of the ring. */
    function Slot(i: int): (r: nat)
      requires flfirst < slots.Length && -1 <= i < slots.Length
      reads this
      ensures r < slots.Length
    {
      var s := flfirst + i;
      if s < 0 then s + slots.Length else if s < slots.Length then s else s - slots.Length
    }

    constructor (size: nat)
      requires size > 0
      ensures Valid() && fresh(slots) && slots.Length == size && queue == [] && btreeblks == 0
    {
      slots := new nat[size];
      flfirst, fllast, flcount, btreeblks := 0, size - 1, 0, 0;
      queue := [];
    }

    /** Take the oldest block; NULLAGBLOCK when the list is empty. */
    method Get(btreeblk: bool) returns (bno: nat)
      requires Valid()
      modifies this
      ensures Valid()
      ensures if old(queue) == [] then bno == NULLAGBLOCK && queue == [] && btreeblks == old(btreeblks)
              else bno == old(queue)[0] && queue == old(queue)[1..]
                   && btreeblks == old(btreeblks) + (if btreeblk then 1 else 0)
    {
      if flcount == 0 {
        return NULLAGBLOCK;
      }
      bno := slots[flfirst];
      flfirst := flfirst + 1;
      if flfirst == slots.Length {
        flfirst := 0;
      }
      flcount := flcount - 1;
      if btreeblk {
        btreeblks := btreeblks + 1;
      }
      queue := queue[1..];
    }

    /** Put a block at the end; there must be a slot left, the code does not look. */
    method Put(bno: nat, btreeblk: bool)
      requires Valid() && flcount < slots.Length
      requires bno != NULLAGBLOCK && bno !in queue
      modifies this, slots
      ensures Valid() && queue == old(queue) + [bno]
      ensures btreeblks == old(btreeblks) - (if btreeblk then 1 else 0)
    {
      fllast := fllast + 1;
      if fllast == slots.Length {
        fllast := 0;
      }
      flcount := flcount + 1;
      if btreeblk {
        btreeblks := btreeblks - 1;
      }
      slots[fllast] := bno;
      queue := queue + [bno];
    }
  }
}
