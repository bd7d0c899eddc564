/** The NOR flash driver (flash/bsp_qspi_flash.c) over a flash device. */
module Qspi {
  import opened Flash
  import opened Words

  const QSPI_FLASH_SIZE := 0x200_0000
  const QSPI_PAGE_SIZE := 256
  const QSPI_BLOCK_64K_SIZE := 0x1_0000

  /** A program operation of 1 to 256 bytes that stays inside its page. */
  predicate InPage(b: Burst) { 1 <= b.len <= QSPI_PAGE_SIZE && b.addr % QSPI_PAGE_SIZE + b.len <= QSPI_PAGE_SIZE }

  ghost predicate AllInPage(bursts: seq<Burst>, from: nat) {
    forall k {:trigger bursts[k]} :: from <= k < |bursts| ==> InPage(bursts[k])
  }

  /** Programming a prefix of d and then going on toward the next piece is going toward the
      whole of d. */
  lemma TowardMore(m: Image, a: nat, d: Image, k: nat, n: nat, now: Image)
    requires k + n <= |d|
    requires Toward(AndRange(m, a, d[..k]), AndRange(AndRange(m, a, d[..k]), a + k, d[k..k + n]), now)
    ensures Toward(m, AndRange(m, a, d), now)
  {
    var p := AndRange(m, a, d[..k]);
    var q := AndRange(p, a + k, d[k..k + n]);
    var t := AndRange(m, a, d);
    forall i | 0 <= i < |m| ensures Mid(m[i], t[i], now[i]) {
      assert Mid(p[i], q[i], now[i]);
      AndLaws(m[i], if a <= i < a + |d| then d[i - a] else 0);
      MidFixed(p[i], now[i]);
    }
  }

  lemma AndMore(m: Image, a: nat, d: Image, k: nat, n: nat)
    requires k + n <= |d|
    ensures AndRange(AndRange(m, a, d[..k]), a + k, d[k..k + n]) == AndRange(m, a, d[..k + n])
  {
  }

  /** Pages end at multiples of the page size. */
  lemma NextPage(a: nat, chunk: nat)
    requires chunk <= QSPI_PAGE_SIZE - a % QSPI_PAGE_SIZE
    ensures a % QSPI_PAGE_SIZE + chunk <= QSPI_PAGE_SIZE
    ensures a < QSPI_FLASH_SIZE ==> a + chunk <= QSPI_FLASH_SIZE
  {
  }

  class Qspi {
    const chip: Device

    ghost predicate Valid()
      reads this, chip
    {
      chip.Valid() && chip.unit == QSPI_PAGE_SIZE && |chip.mem| == QSPI_FLASH_SIZE
    }

    constructor (contents: Image)
      requires |contents| == QSPI_FLASH_SIZE
      ensures Valid() && fresh(chip) && chip.mem == contents
    {
      chip := new Device(contents, QSPI_PAGE_SIZE);
    }

    /** BSP_QSPI_Init resets the controller; the contents stay. */
    method Init() returns (st: Status)
      modifies chip`faults
      ensures chip.faults == old(chip.faults) + (if st == Ok then 0 else 1)
    {
      if * { return Ok; }
      st := chip.Fails();
    }

    method Read(addr: u32, size: u32) returns (st: Status, data: Image)
      requires Valid()
      modifies chip`faults
      ensures Valid() && |data| == size
      ensures st == Ok ==> addr + size <= QSPI_FLASH_SIZE && data == chip.mem[addr..addr + size]
      ensures chip.faults == old(chip.faults) + (if st == Ok then 0 else 1)
    {
      st, data := chip.Read(addr, size);
    }

    /** BSP_QSPI_Write.  (WriteAddr cannot wrap: it fails past the end of the chip.) */
    method Write(data: Image, addr: u32) returns (st: Status)
      requires Valid() && |data| < 0x1_0000_0000
      modifies chip
      ensures Valid()
      ensures st == Ok ==> data == [] || addr + |data| <= QSPI_FLASH_SIZE
      ensures st == Ok ==> chip.mem == AndRange(old(chip.mem), addr, data)
      ensures Toward(old(chip.mem), AndRange(old(chip.mem), addr, data), chip.mem)
      ensures old(chip.bursts) <= chip.bursts && AllInPage(chip.bursts, |old(chip.bursts)|)
      ensures chip.faults == old(chip.faults) + (if st == Ok then 0 else 1)
    {
      hide AndRange, Toward, Programmed;
      var writeAddr: nat, remaining: nat, offset: nat := addr, |data|, 0;
      ghost var m := chip.mem;
      Begin(m, addr, data);
      while remaining > 0
        invariant Valid() && offset + remaining == |data| && writeAddr == addr + offset
        invariant offset > 0 ==> writeAddr <= QSPI_FLASH_SIZE
        invariant chip.mem == AndRange(m, addr, data[..offset])
        invariant old(chip.bursts) <= chip.bursts && AllInPage(chip.bursts, |old(chip.bursts)|)
        invariant chip.faults == old(chip.faults)
      {
        var pageAvail := QSPI_PAGE_SIZE - writeAddr % QSPI_PAGE_SIZE;
        var chunk := if remaining < pageAvail then remaining else pageAvail;
        NextPage(writeAddr, chunk);
        WithinUnit(chip.mem, QSPI_PAGE_SIZE, writeAddr, data[offset..offset + chunk]);
        st := chip.Program(writeAddr, data[offset..offset + chunk]);
        TowardMore(m, addr, data, offset, chunk, chip.mem);
        if st != Ok {
          return st;
        }
        AndMore(m, addr, data, offset, chunk);
        writeAddr := writeAddr + chunk;
        offset := offset + chunk;
        remaining := remaining - chunk;
      }
      assert data[..offset] == data;
      TowardSelf(m, addr, data);
      return Ok;
    }

    /** BSP_QSPI_Erase_Block64K; the address must be aligned. */
    method EraseBlock64K(addr: u32) returns (st: Status)
      requires Valid() && addr % QSPI_BLOCK_64K_SIZE == 0
      modifies chip`mem, chip`faults
      ensures Valid()
      ensures st == Ok ==> addr + QSPI_BLOCK_64K_SIZE <= QSPI_FLASH_SIZE
      ensures st == Ok ==> chip.mem == Filled(old(chip.mem), addr, QSPI_BLOCK_64K_SIZE)
      ensures SameOutside(old(chip.mem), chip.mem, addr, QSPI_BLOCK_64K_SIZE)
      ensures chip.faults >= old(chip.faults) && (st != Ok ==> chip.faults > old(chip.faults))
      ensures if st == Err then chip.faults == old(chip.faults) + 3 else chip.faults <= old(chip.faults) + 3
    {
      for attempt := 0 to 3
        invariant chip.faults == old(chip.faults) + attempt
        invariant Valid() && SameOutside(old(chip.mem), chip.mem, addr, QSPI_BLOCK_64K_SIZE)
      {
        st := chip.Erase(addr, QSPI_BLOCK_64K_SIZE);
        if st == Ok || st == Cut {
          return;
        }
      }
      return Err;
    }

    /** QSPI_Erase_Blocks; start and size must be aligned.  Where start + size wraps the loop
        is over before it began, and reports success. */
    method EraseBlocks(start: u32, size: u32) returns (st: Status)
      requires Valid() && start % QSPI_BLOCK_64K_SIZE == 0 && size % QSPI_BLOCK_64K_SIZE == 0
      modifies chip`mem, chip`faults
      ensures Valid()
      ensures st == Ok && start + size < 0x1_0000_0000 ==>
        (size == 0 || start + size <= QSPI_FLASH_SIZE) && chip.mem == Filled(old(chip.mem), start, size)
      ensures start + size >= 0x1_0000_0000 ==> st == Ok && chip.mem == old(chip.mem)
      ensures SameOutside(old(chip.mem), chip.mem, start, size)
      ensures chip.faults >= old(chip.faults) && (st != Ok ==> chip.faults > old(chip.faults))
      ensures st == Err ==> chip.faults >= old(chip.faults) + 6
    {
      var cnt := 0;
      var addr: nat := start;
      var end := Wrap32(start + size);
      WrappedEnd(start, size);
      while addr < end
        invariant Valid() && start <= addr && (addr <= end || addr == start)
        invariant addr % QSPI_BLOCK_64K_SIZE == 0 && (addr == start || addr <= QSPI_FLASH_SIZE)
        invariant chip.mem == Filled(old(chip.mem), start, addr - start) && chip.faults >= old(chip.faults)
        decreases end - addr
      {
        WholeBlocks(end, addr);
        st := EraseBlock64K(addr);
        if st == Cut {
          return;
        }
        if st != Ok {
          var reset := Init();
          if reset == Cut {
            return Cut;
          }
          st := EraseBlock64K(addr);
          if st != Ok {
            return;
          }
        }
        cnt := cnt + 1;
        if cnt % 8 == 0 {
          var reset := Init();
          if reset == Cut {
            return Cut;
          }
        }
        addr := addr + QSPI_BLOCK_64K_SIZE;
      }
      return Ok;
    }
  }

  lemma WrappedEnd(start: u32, size: u32)
    requires start % QSPI_BLOCK_64K_SIZE == 0 && size % QSPI_BLOCK_64K_SIZE == 0
    ensures var end := Wrap32(start + size);
      end % QSPI_BLOCK_64K_SIZE == 0 && (if start + size < 0x1_0000_0000 then end == start + size else end < start)
  {
  }

  lemma WholeBlocks(end: nat, addr: nat)
    requires end % QSPI_BLOCK_64K_SIZE == 0 && addr % QSPI_BLOCK_64K_SIZE == 0 && addr < end
    ensures addr + QSPI_BLOCK_64K_SIZE <= end && (addr + QSPI_BLOCK_64K_SIZE) % QSPI_BLOCK_64K_SIZE == 0
  {
  }

  lemma Begin(m: Image, a: nat, d: Image)
    ensures d[..0] == [] && AndRange(m, a, []) == m && Toward(m, AndRange(m, a, d), m)
  {
    TowardSelf(m, a, d);
  }

  /** A range cleared by EraseBlocks reads back as what is then written there. */
  lemma ErasedReadsBack(m: Image, start: nat, size: nat, a: nat, d: Image)
    requires start <= a && a + |d| <= start + size <= |m|
    ensures var r := AndRange(Filled(m, start, size), a, d);
      r[a..a + |d|] == d && SameOutside(m, r, start, size)
  {
    ErasedTakes(Filled(m, start, size), a, d);
  }
}
