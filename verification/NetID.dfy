/** Allocation of network IDs (VNIDs) out of a range, in unsigned 32-bit arithmetic. */
module NetID {
  import opened Wrappers

  const MAX_VNID := 0xFF_FFFF
  const MIN_VNID := 10
  const GLOBAL_VNID := 0

  datatype Error = NotInRange | Allocated | Full | NotFound | NotAllowed | CreateFailed | DeleteFailed

  function Wrap32(x: int): nat {
    x % 0x1_0000_0000
  }

  datatype NetIDRange = NetIDRange(base: nat, size: nat)

  /** The offset of an ID in the range. */
  function OffsetOf(r: NetIDRange, id: nat): (o: Option<nat>)
    ensures o.Some? <==> r.base <= id < r.base + r.size
    ensures o.Some? ==> r.base + o.value == id
  {
    if id >= r.base && id - r.base < r.size then Some(id - r.base) else None
  }

  function MakeRange(base: nat, size: nat): Option<NetIDRange> {
    if base < MIN_VNID then None
    else if size == 0 then None
    else if Wrap32(base + size - 1) > MAX_VNID then None
    else Some(NetIDRange(base, size))
  }

  /** Every ID of the range is a proper VNID. */
  ghost predicate Proper(r: NetIDRange) {
    forall id: nat | OffsetOf(r, id).Some? :: MIN_VNID <= id <= MAX_VNID
  }

  /** A range that does not wrap around is accepted iff it is not empty and all its IDs
      are from 10 to 2^24 - 1. */
  lemma AcceptedIff(base: nat, size: nat)
    requires base + size <= 0x1_0000_0000
    ensures MakeRange(base, size) ==
              if size > 0 && 10 <= base && base + size <= 0x100_0000 then Some(NetIDRange(base, size)) else None
  {
  }

  /** An accepted range is proper exactly when its last ID does not exceed 32 bits. */
  lemma AcceptedIsProper(base: nat, size: nat)
    requires base < 0x1_0000_0000 && size < 0x1_0000_0000 && MakeRange(base, size).Some?
    ensures Proper(MakeRange(base, size).value) <==> base + size <= 0x1_0000_0000
  {
    var r := MakeRange(base, size).value;
    if base + size <= 0x1_0000_0000 {
      assert Wrap32(base + size - 1) == base + size - 1;
    } else {
      assert OffsetOf(r, 0x1_0000_0000 - 1) == Some(0x1_0000_0000 - 1 - base);
    }
  }

  /** A range that wraps around is accepted. */
  lemma WrappingRangeIsAccepted()
    ensures MakeRange(10, 0xFFFF_FFFB) == Some(NetIDRange(10, 0xFFFF_FFFB)) && !Proper(NetIDRange(10, 0xFFFF_FFFB))
  {
    AcceptedIsProper(10, 0xFFFF_FFFB);
  }

  class Allocator {
    const range: NetIDRange
    /** Offsets handed out by the backing store. */
    var alloc: set<nat>

    ghost predicate Valid()
      reads this
    {
      forall x | x in alloc :: x < range.size
    }

    ghost function Taken(): set<nat>
      reads this
    {
      set x | x in alloc :: range.base + x
    }

    constructor (r: NetIDRange)
      ensures Valid() && range == r && Taken() == {}
    {
      range, alloc := r, {};
    }

    method Allocate(id: nat) returns (r: Result<(), Error>)
      requires Valid()
      modifies this
      ensures Valid()
      ensures r == (if OffsetOf(range, id).None? then Err(NotInRange)
                    else if id in old(Taken()) then Err(Allocated) else Ok(()))
      ensures Taken() == old(Taken()) + if OffsetOf(range, id).Some? then {id} else {}
    {
      var offset := OffsetOf(range, id);
      if offset.None? {
        return Err(NotInRange);
      }
      if offset.value in alloc {
        assert id in Taken();
        return Err(Allocated);
      }
      alloc := alloc + {offset.value};
      return Ok(());
    }

    /** Some free ID; which one is up to the backing store. */
    method AllocateNext() returns (r: Result<nat, Error>)
      requires Valid()
      modifies this
      ensures Valid()
      ensures r.Err? <==> forall id: nat | OffsetOf(range, id).Some? :: id in old(Taken())
      ensures r.Err? ==> r.error == Full && Taken() == old(Taken())
      ensures r.Ok? ==>
                OffsetOf(range, r.value).Some? && r.value !in old(Taken()) && Taken() == old(Taken()) + {r.value}
    {
      if free: nat :| free < range.size && free !in alloc {
        assert OffsetOf(range, range.base + free) == Some(free) && range.base + free !in Taken();
        alloc := alloc + {free};
        return Ok(range.base + free);
      } else {
        forall id: nat | OffsetOf(range, id).Some? ensures id in Taken() {
          assert id - range.base in alloc;
        }
        return Err(Full);
      }
    }

    method Release(id: nat)
      requires Valid()
      modifies this
      ensures Valid() && Taken() == old(Taken()) - {id}
    {
      var offset := OffsetOf(range, id);
      if offset.None? {
        assert id !in Taken();
        return;
      }
      alloc := alloc - {offset.value};
      assert forall x | x in old(Taken()) && x != id :: x - range.base in alloc;
    }

    method Has(id: nat) returns (b: bool)
      requires Valid()
      ensures b <==> id in Taken()
    {
      var offset := OffsetOf(range, id);
      b := offset.Some? && offset.value in alloc;
    }
  }
}
