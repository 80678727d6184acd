/**
 The Flash block device as the driver executes it, on a memory that is erased
 and programmed in place.
 */
module FlashDriver {
  import opened Prelude
  import opened NorFlash

  datatype Status = Ok | Eio | BadLength

  /** mp_int_t is 32 bits wide. */
  predicate MpInt(x: int) {
    -0x8000_0000 <= x < 0x8000_0000
  }

  /** The byte offset a call addresses; the fourth argument is optional. */
  function OffsetOf(block: int, extra: Option<int>): int {
    block * SECTOR + (if extra.Some? then extra.value else 0)
  }

  predicate InRange(offset: int, n: nat, len: nat) {
    0 <= offset && offset + n <= len
  }

  /** The region after an accepted write whose program call stops after `fault` bytes, if that is given. */
  function AfterWrite(dev: seq<byte>, at: nat, data: seq<byte>, erases: bool, fault: Option<nat>): seq<byte>
    requires at + |data| <= |dev|
  {
    match fault
    case None => if erases then Overwrite(dev, at, data) else Program(dev, at, data)
    case Some(k) => Program(if erases then Erase(dev, at, |data|) else dev, at, data[..Min(k, |data|)])
  }

  /**
   A block write whose program call stops after k bytes leaves those k bytes
   written, the rest of its sectors erased, and everything else alone.
   */
  lemma FailedWriteLeaves(dev: seq<byte>, at: nat, data: seq<byte>, k: nat, j: nat)
    requires at + |data| <= |dev| && k <= |data| && j < |dev|
    ensures AfterWrite(dev, at, data, true, Some(k))[j] ==
      if at <= j < at + k then data[j - at] else if at <= j < at + |data| then ERASED else dev[j]
  {
    if at <= j < at + k {
      AndErased(data[j - at]);
    }
  }

  /** Block `block` lies in the region as a whole. */
  predicate Erasable(block: int, len: nat) {
    0 <= block && (block + 1) * SECTOR <= len
  }

  /** The 32-bit address arithmetic of an accepted call does not wrap. */
  lemma AddressExact(start: nat, len: nat, offset: int)
    requires start + len < TWO_32 && 0 <= offset <= len
    ensures U32(start + U32(offset)) == start + offset
  {
  }

  lemma SliceOfErase(mem: seq<byte>, start: nat, len: nat, at: nat, n: nat)
    requires start + len <= |mem| && start <= at && at + n <= start + len
    ensures Erase(mem, at, n)[start..start + len] == Erase(mem[start..start + len], at - start, n)
  {
  }

  lemma SliceOfProgram(mem: seq<byte>, start: nat, len: nat, at: nat, data: seq<byte>)
    requires start + len <= |mem| && start <= at && at + |data| <= start + len
    ensures Program(mem, at, data)[start..start + len] == Program(mem[start..start + len], at - start, data)
  {
  }

  lemma SliceOfSlice(mem: seq<byte>, start: nat, len: nat, at: nat, n: nat)
    requires start + len <= |mem| && start <= at && at + n <= start + len
    ensures mem[at..at + n] == mem[start..start + len][at - start..at - start + n]
  {
    var region := mem[start..start + len];
    var inner := region[at - start..at - start + n];
    forall k | 0 <= k < n ensures mem[at..at + n][k] == inner[k] {
      assert inner[k] == region[at - start + k];
    }
  }

  class Flash {
    const start: nat
    const len: nat
    const mem: array<byte>

    ghost predicate Valid() {
      && start % SECTOR == 0
      && start + len <= mem.Length < TWO_32
    }

    /** The part of the flash that belongs to the device. */
    ghost function Region(): (r: seq<byte>)
      requires Valid()
      reads mem
      ensures |r| == len
    {
      mem[start..start + len]
    }

    /** The rest of the flash, which the device never touches. */
    ghost function Outside(): seq<byte>
      requires Valid()
      reads mem
    {
      mem[..start] + mem[start + len..]
    }

    constructor (start: nat, len: nat, mem: array<byte>)
      requires start % SECTOR == 0 && start + len <= mem.Length < TWO_32
      ensures Valid() && this.start == start && this.len == len && this.mem == mem
    {
      this.start, this.len, this.mem := start, len, mem;
    }

    /** flash_erase_sector, which checks nothing: the caller must name a sector of the region. */
    method EraseSector(addr: nat)
      requires Valid() && addr % SECTOR == 0 && start <= addr && addr + SECTOR <= start + len
      modifies mem
      ensures Region() == Erase(old(Region()), addr - start, SECTOR) && Outside() == old(Outside())
    {
      ghost var before := mem[..];
      forall k | addr <= k < addr + SECTOR {
        mem[k] := ERASED;
      }
      assert mem[..] == Erase(before, addr, SECTOR);
      SliceOfErase(before, start, len, addr, SECTOR);
      assert mem[start..start + len] == mem[..][start..start + len];
      assert before[start..start + len] == old(mem[start..start + len]);
    }

    /** flash_stream_write, which checks nothing either. */
    method StreamWrite(addr: nat, data: seq<byte>)
      requires Valid() && start <= addr && addr + |data| <= start + len
      modifies mem
      ensures Region() == Program(old(Region()), addr - start, data) && Outside() == old(Outside())
    {
      ghost var before := mem[..];
      forall k | addr <= k < addr + |data| {
        mem[k] := mem[k] & data[k - addr];
      }
      assert mem[..] == Program(before, addr, data);
      SliceOfProgram(before, start, len, addr, data);
      assert mem[start..start + len] == mem[..][start..start + len];
      assert before[start..start + len] == old(mem[start..start + len]);
    }

    /** flash_stream_read, likewise. */
    method StreamRead(addr: nat, n: nat) returns (data: seq<byte>)
      requires Valid() && start <= addr && addr + n <= start + len
      ensures data == Read(Region(), addr - start, n)
    {
      data := mem[addr..addr + n];
      SliceOfSlice(mem[..], start, len, addr, n);
      assert data == mem[..][addr..addr + n] && Region() == mem[..][start..start + len];
    }

    /** amb_flash_readblocks into a buffer of n bytes; `works` is the SDK's verdict on an accepted read. */
    method ReadBlocks(block: int, n: nat, extra: Option<int>, works: bool) returns (status: Status, data: seq<byte>)
      requires Valid() && MpInt(block) && (extra.Some? ==> MpInt(extra.value)) && n < TWO_32
      ensures status.Ok? <==> InRange(OffsetOf(block, extra), n, len) && works
      ensures status.Ok? ==> data == Read(Region(), OffsetOf(block, extra), n)
      ensures !status.Ok? ==> status == Eio
    {
      var offset := OffsetOf(block, extra);
      if offset < 0 || offset + n > len {
        return Eio, [];
      }
      AddressExact(start, len, offset);
      data := StreamRead(U32(start + U32(offset)), n);
      status := if works then Ok else Eio;
    }

    /** The erase loop of amb_flash_writeblocks, with its 32-bit addresses. */
    method EraseBlocks(block: int, count: nat)
      requires Valid() && MpInt(block) && 0 <= block && block * SECTOR + count * SECTOR <= len
      modifies mem
      ensures Region() == Erase(old(Region()), block * SECTOR, count * SECTOR) && Outside() == old(Outside())
    {
      hide Erase, Region, Outside;
      ghost var before := Region();
      EraseNothing(before, block * SECTOR);
      for i := 0 to count
        invariant Region() == Erase(before, block * SECTOR, i * SECTOR) && Outside() == old(Outside())
      {
        BlockAddress(start, len, block + i);
        EraseExtends(before, block * SECTOR, i * SECTOR, SECTOR);
        EraseSector(U32(start + U32(U32(block + i) * SECTOR)));
      }
    }

    /**
     amb_flash_writeblocks.  With three arguments it is the write of a plain
     byte array; with four it can only clear bits.  Nothing is touched unless
     the call is accepted.  If the SDK's program call fails after `fault`
     bytes, the sectors of a three-argument write have been erased already.
     */
    method WriteBlocks(block: int, data: seq<byte>, extra: Option<int>, fault: Option<nat>) returns (status: Status)
      requires Valid() && MpInt(block) && (extra.Some? ==> MpInt(extra.value)) && |data| < TWO_32
      modifies mem
      ensures Outside() == old(Outside())
      ensures status.BadLength? <==> extra.None? && |data| % SECTOR != 0
      ensures status.Ok? <==> !status.BadLength? && InRange(OffsetOf(block, extra), |data|, len) && fault.None?
      ensures !status.BadLength? && InRange(OffsetOf(block, extra), |data|, len) ==>
        Region() == AfterWrite(old(Region()), OffsetOf(block, extra), data, extra.None?, fault)
      ensures status.BadLength? || !InRange(OffsetOf(block, extra), |data|, len) ==> Region() == old(Region())
    {
      hide Erase, Program, Overwrite, Region, Outside;
      var offset := OffsetOf(block, extra);
      if extra.None? && |data| % SECTOR != 0 {
        return BadLength;
      }
      if offset < 0 || offset + |data| > len {
        return Eio;
      }
      if extra.None? {
        EraseBlocks(block, |data| / SECTOR);
        EraseProgramIsOverwrite(old(Region()), offset, data);
      }
      AddressExact(start, len, offset);
      StreamWrite(U32(start + U32(offset)), if fault.Some? then data[..Min(fault.value, |data|)] else data);
      status := if fault.Some? then Eio else Ok;
    }

    /** BLOCK_ERASE of amb_flash_ioctl. */
    method EraseBlock(block: int) returns (status: Status)
      requires Valid() && MpInt(block)
      modifies mem
      ensures Outside() == old(Outside())
      ensures status.Ok? <==> Erasable(block, len)
      ensures status.Ok? ==>
        && Region() == Erase(old(Region()), block * SECTOR, SECTOR) && Blank(Region(), block * SECTOR, SECTOR)
      ensures !status.Ok? ==> status == Eio && Region() == old(Region())
    {
      if block < 0 || (block + 1) * SECTOR > len {
        return Eio;
      }
      BlockAddress(start, len, block);
      EraseSector(U32(start + U32(U32(block) * SECTOR)));
      status := Ok;
    }

    /** BLOCK_COUNT of amb_flash_ioctl: exactly the blocks that can be erased. */
    method BlockCount() returns (count: nat)
      requires Valid()
      ensures forall block :: Erasable(block, len) <==> 0 <= block < count
    {
      count := len / SECTOR;
    }
  }

  /** The address of a block inside the region is exact in 32 bits and starts a sector of it. */
  lemma BlockAddress(start: nat, len: nat, block: int)
    requires start % SECTOR == 0 && start + len < TWO_32 && 0 <= block && block * SECTOR + SECTOR <= len
    ensures var addr := U32(start + U32(U32(block) * SECTOR));
      addr == start + block * SECTOR && addr % SECTOR == 0
  {
    AddressExact(start, len, block * SECTOR);
  }
}
