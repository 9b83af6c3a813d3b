/**
 * The paired command/result descriptor rings and the state-record pool
 * (eip93-ring.c, with the shapes of mtk_desc_ring, mtk_ring and
 * mtk_state_pool from eip93-main.h).
 *
 * A cursor is the index of a slot: slot i lives at address
 * base + i * offset, so `base` is index 0 and `base_end` is index R - 1.
 * The locks around the cursors and the atomicity of `free` are not modelled:
 * every operation here runs to completion before the next one starts.
 */
module Ring {
  import opened Common

  /** Number of slots per ring (R) and the index of the last slot, base_end. */
  const R: int := RING_SIZE
  const LAST_SLOT: int := RING_SIZE - 1

  /** A slot index, or the error an ERR_PTR() pointer carries. */
  datatype SlotResult = Slot(index: int) | ErrPtr(errno: int)

  predicate InRing(i: int) { 0 <= i < R }

  /** The "ring is full" test of mtk_ring_next_wptr, on slot indices. */
  predicate WriteBlocked(read: int, write: int) {
    write == read - 1 || (read == 0 && write == LAST_SLOT)
  }

  /** One cursor step: from base_end back to base, otherwise to the next slot. */
  function Next(c: int): int {
    if c == LAST_SLOT then 0 else c + 1
  }

  /** Slots the writer has filled and the reader has not yet taken. */
  function Occupancy(read: int, write: int): int {
    (write - read) % R
  }

  /** A cursor step is addition modulo R and stays inside the ring. */
  lemma NextIsModular(c: int)
    requires InRing(c)
    ensures Next(c) == (c + 1) % R && InRing(Next(c))
  {
  }

  /** n cursor steps from c. */
  function Advance(c: int, n: nat): int
    decreases n
  {
    if n == 0 then c else Next(Advance(c, n - 1))
  }

  /** After n steps from slot c the cursor is slot (c + n) mod R. */
  lemma {:induction false} AdvanceIsModular(c: int, n: nat)
    requires InRing(c)
    ensures Advance(c, n) == (c + n) % R
  {
    if n > 0 {
      AdvanceIsModular(c, n - 1);
      NextIsModular(Advance(c, n - 1));
      assert ((c + n - 1) % R + 1) % R == (c + n) % R;
    }
  }

  /**
   * The writer is blocked exactly when the slot after `write` is `read`,
   * that is when R - 1 slots are occupied: one slot always stays empty.
   */
  lemma WriteBlockedIffFull(read: int, write: int)
    requires InRing(read) && InRing(write)
    ensures WriteBlocked(read, write) <==> (write + 1) % R == read
    ensures WriteBlocked(read, write) <==> Occupancy(read, write) == R - 1
  {
    if write < read {
      assert Occupancy(read, write) == write - read + R;
    } else {
      assert Occupancy(read, write) == write - read;
    }
  }

  /** The reader finds nothing exactly when no slot is occupied. */
  lemma EmptyIffZero(read: int, write: int)
    requires InRing(read) && InRing(write)
    ensures read == write <==> Occupancy(read, write) == 0
    ensures 0 <= Occupancy(read, write) <= R - 1
  {
    if write < read {
      assert Occupancy(read, write) == write - read + R;
    }
  }

  /** A successful write step fills one more slot. */
  lemma OccupancyAfterWrite(read: int, write: int)
    requires InRing(read) && InRing(write) && !WriteBlocked(read, write)
    ensures Occupancy(read, Next(write)) == Occupancy(read, write) + 1
  {
    WriteBlockedIffFull(read, write);
    if write < read {
      assert Occupancy(read, write) == write - read + R;
    }
  }

  /** A successful read step frees one slot. */
  lemma OccupancyAfterRead(read: int, write: int)
    requires InRing(read) && InRing(write) && read != write
    ensures Occupancy(Next(read), write) == Occupancy(read, write) - 1
  {
    if write < read {
      assert Occupancy(read, write) == write - read + R;
    }
  }

  /** Address of slot i of a ring whose slot 0 is at `base`, with stride `offset`. */
  function SlotAddress(base: int, offset: int, i: int): int {
    base + i * offset
  }

  /**
   * The full test as the source writes it on addresses,
   * `write == read - offset || (read == base && write == base_end)`,
   * is the index test, for any positive stride.
   */
  lemma AddressFullTest(base: int, offset: int, read: int, write: int)
    requires offset > 0 && InRing(read) && InRing(write)
    ensures (SlotAddress(base, offset, write) == SlotAddress(base, offset, read) - offset ||
             (SlotAddress(base, offset, read) == base &&
              SlotAddress(base, offset, write) == base + offset * LAST_SLOT))
            <==> WriteBlocked(read, write)
  {
    MulCancel(write - read + 1, offset);
    MulCancel(read, offset);
    MulCancel(write - LAST_SLOT, offset);
    assert write * offset - (read * offset - offset) == (write - read + 1) * offset;
    assert read * offset == (read - 0) * offset;
    assert write * offset - offset * LAST_SLOT == (write - LAST_SLOT) * offset;
  }

  /** Every slot address lies in [base, base_end]. */
  lemma AddressInRegion(base: int, offset: int, i: int)
    requires offset >= 0 && InRing(i)
    ensures base <= SlotAddress(base, offset, i) <= base + offset * LAST_SLOT
  {
    MulNonNegative(i, offset);
    MulNonNegative(LAST_SLOT - i, offset);
    assert offset * LAST_SLOT - i * offset == (LAST_SLOT - i) * offset;
  }

  lemma MulCancel(a: int, b: int)
    requires b > 0
    ensures a * b == 0 <==> a == 0
  {
    if a > 0 {
      MulNonNegative(a - 1, b);
      assert a * b == (a - 1) * b + b;
    } else if a < 0 {
      MulNonNegative(-a - 1, b);
      assert a * b == -((-a - 1) * b + b);
    }
  }

  lemma {:induction false} MulNonNegative(a: int, b: int)
    requires a >= 0 && b >= 0
    ensures a * b >= 0
    decreases a
  {
    if a > 0 {
      MulNonNegative(a - 1, b);
      assert a * b == (a - 1) * b + b;
    }
  }

  /** One entry of the state-record pool. */
  datatype StateEntry = StateEntry(base: int, baseDma: int, inUse: bool)

  /**
   * First-fit search: the lowest index at or after `from` whose entry is not
   * in use, or -ENOENT when there is none.
   */
  function FirstFree(pool: seq<StateEntry>, from: nat): (r: int)
    requires from <= |pool|
    ensures r == -ENOENT <==> forall k :: from <= k < |pool| ==> pool[k].inUse
    ensures r != -ENOENT ==> from <= r < |pool| && !pool[r].inUse &&
                             forall k :: from <= k < r ==> pool[k].inUse
    decreases |pool| - from
  {
    if from == |pool| then -ENOENT
    else if !pool[from].inUse then from
    else FirstFree(pool, from + 1)
  }

  /** One descriptor ring: R slots and a read and a write cursor (mtk_desc_ring). */
  class DescRing {
    const slots: array<Descriptor>
    var base: int      // address of slot 0; 0 until the ring memory is allocated
    var baseDma: int   // bus address of slot 0
    var offset: int    // slot stride in bytes
    var read: int
    var write: int

    ghost predicate Valid()
      reads this
    {
      slots.Length == R && InRing(read) && InRing(write)
    }

    /** A zero-filled ring record, as devm_kcalloc leaves it. */
    constructor ()
      ensures Valid() && fresh(slots)
      ensures base == 0 && baseDma == 0 && offset == 0 && read == 0 && write == 0
    {
      slots := new Descriptor[R](_ => ZERO_DESCRIPTOR);
      base, baseDma, offset := 0, 0, 0;
      read, write := 0, 0;
    }

    /** base_end: the address of the last slot. */
    function BaseEnd(): int
      reads this
    {
      SlotAddress(base, offset, LAST_SLOT)
    }

    /**
     * mtk_ring_next_wptr: hands out the slot at `write` and steps `write`,
     * or fails with -ENOMEM, leaving `write` where it was, when the ring is full.
     */
    method NextWptr() returns (r: SlotResult)
      requires Valid()
      modifies this`write
      ensures Valid()
      ensures r.ErrPtr? <==> (old(write) + 1) % R == read
      ensures r.ErrPtr? <==> Occupancy(read, old(write)) == R - 1
      ensures r.ErrPtr? ==> r.errno == -ENOMEM && write == old(write)
      ensures r.Slot? ==> r.index == old(write) && write == Next(old(write))
      ensures r.Slot? ==> Occupancy(read, write) == Occupancy(read, old(write)) + 1
    {
      WriteBlockedIffFull(read, write);
      var ptr := write;
      if write == read - 1 || (read == 0 && write == LAST_SLOT) {
        return ErrPtr(-ENOMEM);
      }
      OccupancyAfterWrite(read, write);
      if write == LAST_SLOT {
        write := 0;
      } else {
        write := write + 1;
      }
      return Slot(ptr);
    }

    /**
     * mtk_ring_next_rptr: hands out the slot at `read` and steps `read`,
     * or fails with -ENOENT, leaving `read` where it was, when the ring is empty.
     */
    method NextRptr() returns (r: SlotResult)
      requires Valid()
      modifies this`read
      ensures Valid()
      ensures r.ErrPtr? <==> write == old(read)
      ensures r.ErrPtr? <==> Occupancy(old(read), write) == 0
      ensures r.ErrPtr? ==> r.errno == -ENOENT && read == old(read)
      ensures r.Slot? ==> r.index == old(read) && read == Next(old(read))
      ensures r.Slot? ==> Occupancy(read, write) == Occupancy(old(read), write) - 1
    {
      EmptyIffZero(read, write);
      var ptr := read;
      if write == read {
        return ErrPtr(-ENOENT);
      }
      OccupancyAfterRead(read, write);
      if read == LAST_SLOT {
        read := 0;
      } else {
        read := read + 1;
      }
      return Slot(ptr);
    }
  }

  /** The command ring, the result ring, the shared free counter and the state pool (mtk_ring). */
  class RingPair {
    const cdr: DescRing
    const rdr: DescRing
    const pool: array<StateEntry>
    var free: int
    var saState: int      // address of the block of R state records
    var saStateDma: int   // its bus address

    ghost predicate Valid()
      reads this, cdr, rdr
    {
      cdr != rdr && cdr.slots != rdr.slots && cdr.Valid() && rdr.Valid() && pool.Length == R
    }

    /**
     * The accounting the driver relies on: both rings have the same cursors,
     * and `free` counts exactly the slots not in flight.
     */
    ghost predicate Lockstep()
      reads this, cdr, rdr
    {
      cdr.read == rdr.read && cdr.write == rdr.write &&
      free + Occupancy(cdr.read, cdr.write) == R - 1
    }

    /** A zero-filled mtk_ring, as devm_kcalloc leaves it. */
    constructor ()
      ensures Valid() && fresh(cdr) && fresh(rdr) && fresh(cdr.slots) && fresh(rdr.slots) && fresh(pool)
      ensures cdr.read == cdr.write == rdr.read == rdr.write == 0 && free == 0
      ensures forall i :: 0 <= i < R ==> !pool[i].inUse
    {
      cdr := new DescRing();
      rdr := new DescRing();
      pool := new StateEntry[R](_ => StateEntry(0, 0, false));
      free := 0;
      saState, saStateDma := 0, 0;
    }

    /**
     * The state pool laid out over one allocation of R records: entry i sits
     * i record sizes into the block, and every entry is free.
     */
    method LayOutPool(cpu: int, bus: int)
      requires Valid()
      modifies this, pool
      ensures Valid() && free == old(free) && saState == cpu && saStateDma == bus
      ensures forall i :: 0 <= i < R ==>
                pool[i] == StateEntry(cpu + i * SA_STATE_SIZE, bus + i * SA_STATE_SIZE, false)
    {
      saState, saStateDma := cpu, bus;
      for i := 0 to RING_SIZE
        modifies pool
        invariant forall k :: 0 <= k < i ==>
          pool[k] == StateEntry(cpu + k * SA_STATE_SIZE, bus + k * SA_STATE_SIZE, false)
      {
        pool[i] := StateEntry(saState + i * SA_STATE_SIZE, saStateDma + i * SA_STATE_SIZE, false);
      }
    }

    /**
     * mtk_put_descriptor: claims the next result slot, then the next command
     * slot; on success zeroes the result slot, copies `desc` into the command
     * slot and takes one from `free`. Either claim failing gives -ENOENT; a
     * result claim that succeeded before a failing command claim is not undone.
     */
    method PutDescriptor(desc: Descriptor) returns (err: int)
      requires Valid()
      modifies cdr`write, rdr`write, cdr.slots, rdr.slots, this`free
      ensures Valid()
      ensures err == 0 <==> !old(WriteBlocked(rdr.read, rdr.write)) && !old(WriteBlocked(cdr.read, cdr.write))
      ensures err != 0 ==> err == -ENOENT && free == old(free) && cdr.write == old(cdr.write)
      ensures err != 0 ==> cdr.slots[..] == old(cdr.slots[..]) && rdr.slots[..] == old(rdr.slots[..])
      ensures err != 0 ==> rdr.write == if old(WriteBlocked(rdr.read, rdr.write)) then old(rdr.write)
                                        else Next(old(rdr.write))
      ensures err == 0 ==> rdr.write == Next(old(rdr.write)) && cdr.write == Next(old(cdr.write))
      ensures err == 0 ==> cdr.slots[..] == old(cdr.slots[..])[old(cdr.write) := desc]
      ensures err == 0 ==> rdr.slots[..] == old(rdr.slots[..])[old(rdr.write) := ZERO_DESCRIPTOR]
      ensures err == 0 ==> free == old(free) - 1
      ensures old(Lockstep()) ==> Lockstep() && (err == 0 <==> old(free) > 0)
    {
      WriteBlockedIffFull(rdr.read, rdr.write);
      var rdesc := rdr.NextWptr();
      if rdesc.ErrPtr? {
        return -ENOENT;
      }
      var cdesc := cdr.NextWptr();
      if cdesc.ErrPtr? {
        return -ENOENT;
      }
      rdr.slots[rdesc.index] := ZERO_DESCRIPTOR;
      cdr.slots[cdesc.index] := desc;
      free := free - 1;
      err := 0;
    }

    /**
     * mtk_get_descriptor: takes the next command slot and zeroes it, then takes
     * the next result slot and returns it, giving one back to `free`. Either
     * ring being empty gives -ENOENT; a command slot already taken stays taken.
     */
    method GetDescriptor() returns (r: SlotResult)
      requires Valid()
      modifies cdr`read, rdr`read, cdr.slots, this`free
      ensures Valid()
      ensures r.Slot? <==> old(cdr.read != cdr.write && rdr.read != rdr.write)
      ensures r.ErrPtr? ==> r.errno == -ENOENT && free == old(free) && rdr.read == old(rdr.read)
      ensures r.ErrPtr? && old(cdr.read == cdr.write) ==>
                cdr.read == old(cdr.read) && cdr.slots[..] == old(cdr.slots[..])
      ensures old(cdr.read != cdr.write) ==>
                cdr.read == Next(old(cdr.read)) &&
                cdr.slots[..] == old(cdr.slots[..])[old(cdr.read) := ZERO_DESCRIPTOR]
      ensures r.Slot? ==> r.index == old(rdr.read) && rdr.read == Next(old(rdr.read)) &&
                          free == old(free) + 1
      ensures old(Lockstep()) ==> Lockstep() && (r.Slot? <==> old(free) < R - 1)
    {
      EmptyIffZero(cdr.read, cdr.write);
      var cdesc := cdr.NextRptr();
      if cdesc.ErrPtr? {
        return ErrPtr(-ENOENT);
      }
      cdr.slots[cdesc.index] := ZERO_DESCRIPTOR;
      var ptr := rdr.NextRptr();
      if ptr.ErrPtr? {
        return ErrPtr(-ENOENT);
      }
      free := free + 1;
      return ptr;
    }

    /**
     * mtk_get_free_saState: first fit over the pool. Marks the lowest free
     * entry in use and returns its index, or returns -ENOENT and changes nothing.
     */
    method GetFreeSaState() returns (r: int)
      requires Valid()
      modifies pool
      ensures r == FirstFree(old(pool[..]), 0)
      ensures r >= 0 ==> pool[..] == old(pool[..])[r := old(pool[r]).(inUse := true)]
      ensures r < 0 ==> pool[..] == old(pool[..])
    {
      var i := 0;
      while i < R
        invariant 0 <= i <= R
        invariant forall k :: 0 <= k < i ==> pool[k].inUse
        invariant pool[..] == old(pool[..])
      {
        if !pool[i].inUse {
          pool[i] := pool[i].(inUse := true);
          return i;
        }
        i := i + 1;
      }
      return -ENOENT;
    }
  }
}
