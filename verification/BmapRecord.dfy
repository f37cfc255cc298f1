/** An extent record packed into 128 bits: a flag, 54 bits of file offset, 52 of block number and 21 of length. */
module BmapRecord {

  datatype Fields = Fields(startoff: bv64, startblock: bv64, blockcount: bv64, unwritten: bool)

  /** Ones in the n lowest bits, and in the n highest. */
  function MaskLo(n: nat): bv64
    requires n < 64
  {
    (1 << n) - 1
  }

  function MaskHi(n: nat): bv64
    requires 0 < n <= 64
  {
    0xffff_ffff_ffff_ffff << (64 - n)
  }

  /** Each field has no more bits than its place in the record. */
  predicate InRange(f: Fields) {
    f.startoff < 0x40_0000_0000_0000 && f.startblock < 0x10_0000_0000_0000 && f.blockcount < 0x20_0000
  }

  function GetStartoff(l0: bv64): bv64 { (l0 & MaskLo(63)) >> 9 }

  function GetStartblock(l0: bv64, l1: bv64): bv64 { ((l0 & MaskLo(9)) << 43) | (l1 >> 21) }

  function GetBlockcount(l1: bv64): bv64 { l1 & MaskLo(21) }

  function GetState(l0: bv64): bool { l0 >> 63 != 0 }

  function Unpack(l0: bv64, l1: bv64): Fields {
    Fields(GetStartoff(l0), GetStartblock(l0, l1), GetBlockcount(l1), GetState(l0))
  }

  /** All fields put together. */
  function Pack0(f: Fields): bv64 { ((if f.unwritten then 1 else 0) << 63) | (f.startoff << 9) | (f.startblock >> 43) }

  function Pack1(f: Fields): bv64 { (f.startblock << 21) | (f.blockcount & MaskLo(21)) }

  /** One field put in the place it has. */
  function PutBlockcount(l1: bv64, v: bv64): bv64 { (l1 & MaskHi(43)) | (v & MaskLo(21)) }

  function PutStartblock0(l0: bv64, v: bv64): bv64 { (l0 & MaskHi(55)) | (v >> 43) }

  function PutStartblock1(l1: bv64, v: bv64): bv64 { (l1 & MaskLo(21)) | (v << 21) }

  function PutStartoff(l0: bv64, v: bv64): bv64 { (l0 & MaskHi(1)) | (v << 9) | (l0 & MaskLo(9)) }

  function PutState(l0: bv64, unwritten: bool): bv64 { if unwritten then l0 | MaskHi(1) else l0 & MaskLo(63) }

  lemma PackOff(f: Fields)
    requires InRange(f)
    ensures GetStartoff(Pack0(f)) == f.startoff
  {
  }

  lemma PackState(f: Fields)
    requires InRange(f)
    ensures GetState(Pack0(f)) == f.unwritten
  {
  }

  lemma PackBlock0(f: Fields)
    requires InRange(f)
    ensures Pack0(f) & MaskLo(9) == f.startblock >> 43
  {
  }

  lemma PackBlock1(f: Fields)
    requires InRange(f)
    ensures Pack1(f) >> 21 == f.startblock & MaskLo(43)
  {
  }

  lemma PackCount(f: Fields)
    requires InRange(f)
    ensures GetBlockcount(Pack1(f)) == f.blockcount
  {
  }

  lemma JoinBlock(v: bv64)
    requires v < 0x10_0000_0000_0000
    ensures ((v >> 43) << 43) | (v & MaskLo(43)) == v
  {
  }

  /** What was packed comes out again. */
  lemma UnpackPack(f: Fields)
    requires InRange(f)
    ensures Unpack(Pack0(f), Pack1(f)) == f
  {
    hide Pack0, Pack1, MaskLo;
    PackOff(f);
    PackState(f);
    PackBlock0(f);
    PackBlock1(f);
    PackCount(f);
    JoinBlock(f.startblock);
  }

  lemma CountIn(l1: bv64, v: bv64)
    requires v < 0x20_0000
    ensures GetBlockcount(PutBlockcount(l1, v)) == v
  {
  }

  lemma CountBlock(l1: bv64, v: bv64)
    requires v < 0x20_0000
    ensures PutBlockcount(l1, v) >> 21 == l1 >> 21
  {
  }

  lemma BlockIn0(l0: bv64, v: bv64)
    requires v < 0x10_0000_0000_0000
    ensures PutStartblock0(l0, v) & MaskLo(9) == v >> 43
  {
  }

  lemma BlockIn1(l1: bv64, v: bv64)
    requires v < 0x10_0000_0000_0000
    ensures PutStartblock1(l1, v) >> 21 == v & MaskLo(43)
  {
  }

  lemma BlockOff(l0: bv64, v: bv64)
    requires v < 0x10_0000_0000_0000
    ensures GetStartoff(PutStartblock0(l0, v)) == GetStartoff(l0)
  {
  }

  lemma BlockState(l0: bv64, v: bv64)
    requires v < 0x10_0000_0000_0000
    ensures GetState(PutStartblock0(l0, v)) == GetState(l0)
  {
  }

  lemma BlockCount(l1: bv64, v: bv64)
    ensures GetBlockcount(PutStartblock1(l1, v)) == GetBlockcount(l1)
  {
  }

  lemma OffIn(l0: bv64, v: bv64)
    requires v < 0x40_0000_0000_0000
    ensures GetStartoff(PutStartoff(l0, v)) == v
  {
  }

  lemma OffBlock(l0: bv64, v: bv64)
    requires v < 0x40_0000_0000_0000
    ensures PutStartoff(l0, v) & MaskLo(9) == l0 & MaskLo(9)
  {
  }

  lemma OffState(l0: bv64, v: bv64)
    requires v < 0x40_0000_0000_0000
    ensures GetState(PutStartoff(l0, v)) == GetState(l0)
  {
  }

  lemma StateIn(l0: bv64, u: bool)
    ensures GetState(PutState(l0, u)) == u
  {
  }

  lemma StateOffSet(l0: bv64)
    ensures GetStartoff(l0 | MaskHi(1)) == GetStartoff(l0)
  {
  }

  lemma StateOffClear(l0: bv64)
    ensures GetStartoff(l0 & MaskLo(63)) == GetStartoff(l0)
  {
  }

  lemma StateBlock(l0: bv64, u: bool)
    ensures PutState(l0, u) & MaskLo(9) == l0 & MaskLo(9)
  {
  }

  /** Putting one field leaves the others. */
  lemma PutCount(l0: bv64, l1: bv64, v: bv64)
    requires v < 0x20_0000
    ensures Unpack(l0, PutBlockcount(l1, v)) == Unpack(l0, l1).(blockcount := v)
  {
    hide MaskLo, GetBlockcount, PutBlockcount;
    CountIn(l1, v);
    CountBlock(l1, v);
  }

  lemma PutBlock(l0: bv64, l1: bv64, v: bv64)
    requires v < 0x10_0000_0000_0000
    ensures Unpack(PutStartblock0(l0, v), PutStartblock1(l1, v)) == Unpack(l0, l1).(startblock := v)
  {
    hide MaskLo, GetStartoff, GetBlockcount, GetState, PutStartblock0, PutStartblock1;
    BlockIn0(l0, v);
    BlockIn1(l1, v);
    BlockOff(l0, v);
    BlockState(l0, v);
    BlockCount(l1, v);
    JoinBlock(v);
  }

  lemma PutOff(l0: bv64, l1: bv64, v: bv64)
    requires v < 0x40_0000_0000_0000
    ensures Unpack(PutStartoff(l0, v), l1) == Unpack(l0, l1).(startoff := v)
  {
    hide MaskLo, GetStartoff, GetState, PutStartoff;
    OffIn(l0, v);
    OffBlock(l0, v);
    OffState(l0, v);
  }

  lemma PutFlag(l0: bv64, l1: bv64, u: bool)
    ensures Unpack(PutState(l0, u), l1) == Unpack(l0, l1).(unwritten := u)
  {
    hide MaskLo, GetStartoff, GetState;
    StateIn(l0, u);
    if u {
      StateOffSet(l0);
    } else {
      StateOffClear(l0);
    }
    StateBlock(l0, u);
  }

  /** The packed record with its setters. */
  class PackedRec {
    var l0: bv64
    var l1: bv64

    constructor ()
    {
    }

    function Get(): Fields
      reads this
    {
      Unpack(l0, l1)
    }

    method SetAllf(f: Fields)
      requires InRange(f)
      modifies this
      ensures Get() == f
    {
      hide Unpack, Pack0, Pack1;
      UnpackPack(f);
      l0, l1 := Pack0(f), Pack1(f);
    }

    method SetBlockcount(v: bv64)
      requires v < 0x20_0000
      modifies this
      ensures Get() == old(Get()).(blockcount := v)
    {
      hide Unpack, PutBlockcount;
      PutCount(l0, l1, v);
      l1 := PutBlockcount(l1, v);
    }

    method SetStartblock(v: bv64)
      requires v < 0x10_0000_0000_0000
      modifies this
      ensures Get() == old(Get()).(startblock := v)
    {
      hide Unpack, PutStartblock0, PutStartblock1;
      PutBlock(l0, l1, v);
      l0, l1 := PutStartblock0(l0, v), PutStartblock1(l1, v);
    }

    method SetStartoff(v: bv64)
      requires v < 0x40_0000_0000_0000
      modifies this
      ensures Get() == old(Get()).(startoff := v)
    {
      hide Unpack, PutStartoff;
      PutOff(l0, l1, v);
      l0 := PutStartoff(l0, v);
    }

    method SetState(unwritten: bool)
      modifies this
      ensures Get() == old(Get()).(unwritten := unwritten)
    {
      hide Unpack, PutState;
      PutFlag(l0, l1, unwritten);
      l0 := PutState(l0, unwritten);
    }
  }
}
