/** The bootloader's operations on its flash (metadata/metadata.c, menu/menu.c): each method
    runs the loops of the source against devices that may fail or lose power at any step. */
module Boot {
  import opened Flash
  import opened BootSpec
  import opened Words
  import Q = Qspi

  /** m with its first bytes replaced by d. */
  function Loaded(m: Image, d: Image): (r: Image)
    requires |d| <= |m|
    ensures |r| == |m|
  {
    d + m[|d|..]
  }

  /** Sectors that hold the first n bytes, in bytes. */
  function Sectors(n: nat): nat { (n + SECTOR_SIZE - 1) / SECTOR_SIZE * SECTOR_SIZE }

  /** The least number of whole sectors of 128 KB. */
  lemma SectorsIs(n: nat)
    ensures n <= Sectors(n) < n + 0x2_0000 && Sectors(n) % 0x2_0000 == 0
  {
  }

  /** The bitwise AND of the lowest n bits. */
  function AndBits(x: nat, d: nat, n: nat): (r: nat)
    ensures r <= x && r <= d
  {
    if n == 0 then 0 else (if x % 2 == 1 && d % 2 == 1 then 1 else 0) + 2 * AndBits(x / 2, d / 2, n - 1)
  }

  function Pow2(n: nat): nat { if n == 0 then 1 else 2 * Pow2(n - 1) }

  lemma {:induction false} AndBitsLaws(x: nat, d: nat, n: nat)
    requires x < Pow2(n) && d < Pow2(n)
    ensures AndBits(x, x, n) == x && AndBits(Pow2(n) - 1, d, n) == d
    ensures AndBits(x, AndBits(x, d, n), n) == AndBits(x, d, n)
  {
    if n > 0 {
      AndBitsLaws(x / 2, d / 2, n - 1);
      var r := AndBits(x, d, n);
      assert r / 2 == AndBits(x / 2, d / 2, n - 1) && (r % 2 == 1 <==> x % 2 == 1 && d % 2 == 1);
      assert (Pow2(n) - 1) / 2 == Pow2(n - 1) - 1 && (Pow2(n) - 1) % 2 == 1;
    }
  }

  function AndWord(x: u32, d: u32): u32 { AndBits(x, d, 32) }

  lemma AndWordLaws(x: u32, d: u32)
    ensures AndWord(0xFFFF_FFFF, d) == d
    ensures MidWord(x, AndWord(x, d), x) && MidWord(x, AndWord(x, d), AndWord(x, d))
  {
    Pow2Of32();
    AndBitsLaws(x, d, 32);
    AndBitsLaws(AndWord(x, d), d, 32);
  }

  lemma Pow2Of32()
    ensures Pow2(32) == 0x1_0000_0000
  {
    assert Pow2(8) == 0x100;
    assert Pow2(16) == 0x1_0000;
    assert Pow2(24) == 0x100_0000;
  }

  /** n lies between x and the cleared value t. */
  predicate MidWord(x: u32, t: u32, n: u32) { AndWord(x, n) == n && AndWord(n, t) == t }

  /** The i-th flash word of eight combined with that of d. */
  function AndWords(w: Record, i: nat, d: Record): Record {
    seq(16, k requires 0 <= k < 16 => if k / 8 == i then AndWord(w[k], d[k]) else w[k])
  }

  /** Every word of n lies between those of w and of t. */
  predicate OnItsWay(w: Record, t: Record, n: Record) { forall k :: 0 <= k < 16 ==> MidWord(w[k], t[k], n[k]) }

  lemma OnItsWayEnds(w: Record, i: nat, d: Record)
    ensures var t := AndWords(w, i, d); OnItsWay(w, t, w) && OnItsWay(w, t, t)
  {
    hide AndWord;
    var t := AndWords(w, i, d);
    forall k | 0 <= k < 16 ensures MidWord(w[k], t[k], w[k]) && MidWord(w[k], t[k], t[k]) {
      AndWordLaws(w[k], d[k]);
      AndWordLaws(w[k], w[k]);
      AndWordSelf(w[k]);
    }
  }

  lemma AndWordSelf(x: u32)
    ensures AndWord(x, x) == x
  {
    Pow2Of32();
    AndBitsLaws(x, x, 32);
  }

  /** Bit by bit: a chain of clearings, and how a clearing begun is finished. */
  lemma {:induction false} AndBitsChain(x: nat, n: nat, o: nat, d: nat, k: nat)
    ensures AndBits(x, n, k) == n && AndBits(n, o, k) == o ==> AndBits(x, o, k) == o
    ensures AndBits(x, n, k) == n && AndBits(n, AndBits(x, d, k), k) == AndBits(x, d, k)
      ==> AndBits(n, d, k) == AndBits(x, d, k)
    ensures AndBits(x, n, k) == n && AndBits(n, x, k) == x ==> n == x
  {
    if k > 0 {
      AndBitsChain(x / 2, n / 2, o / 2, d / 2, k - 1);
      AndBitsHalves(x, n, k);
      AndBitsHalves(n, o, k);
      AndBitsHalves(x, o, k);
      AndBitsHalves(x, d, k);
      AndBitsHalves(n, d, k);
      AndBitsHalves(n, x, k);
      AndBitsHalves(n, AndBits(x, d, k), k);
    }
  }

  lemma AndBitsHalves(x: nat, d: nat, k: nat)
    requires k > 0
    ensures var r := AndBits(x, d, k);
      r / 2 == AndBits(x / 2, d / 2, k - 1) && (r % 2 == 1 <==> x % 2 == 1 && d % 2 == 1)
  {
  }

  lemma MidWordLaws(x: u32, t: u32, n: u32, o: u32, d: u32)
    ensures MidWord(x, t, n) && MidWord(n, t, o) ==> MidWord(x, t, o)
    ensures MidWord(x, AndWord(x, d), n) ==> AndWord(n, d) == AndWord(x, d)
    ensures MidWord(x, x, n) ==> n == x
  {
    AndBitsChain(x, n, o, d, 32);
  }

  /** Programming a flash word again finishes what an interrupted attempt began. */
  lemma RetryFinishes(w: Record, i: nat, d: Record, n: Record)
    requires OnItsWay(w, AndWords(w, i, d), n)
    ensures AndWords(n, i, d) == AndWords(w, i, d)
  {
    hide AndWord, MidWord;
    var t := AndWords(w, i, d);
    forall k | 0 <= k < 16 ensures AndWords(n, i, d)[k] == t[k] {
      assert MidWord(w[k], t[k], n[k]);
      MidWordLaws(w[k], t[k], n[k], n[k], d[k]);
    }
  }

  lemma OnItsWayTrans(w: Record, t: Record, n: Record, o: Record)
    requires OnItsWay(w, t, n) && OnItsWay(n, t, o)
    ensures OnItsWay(w, t, o)
  {
    hide AndWord, MidWord;
    forall k | 0 <= k < 16 ensures MidWord(w[k], t[k], o[k]) {
      assert MidWord(w[k], t[k], n[k]) && MidWord(n[k], t[k], o[k]);
      MidWordLaws(w[k], t[k], n[k], o[k], 0);
    }
  }

  function Erased(): Record { seq(16, k => 0xFFFF_FFFF) }

  /** The metadata sector once the first flash word of `target` is programmed. */
  function HalfWritten(target: Record): Record { AndWords(Erased(), 0, target) }

  /** What an interrupted write of `target` may leave once the sector is erased: the second
      flash word is begun only when the first one is done. */
  predicate Torn(target: Record, w: Record) {
    OnItsWay(Erased(), HalfWritten(target), w) || OnItsWay(HalfWritten(target), target, w)
  }

  lemma BothHalves(target: Record)
    ensures AndWords(HalfWritten(target), 1, target) == target && Torn(target, Erased()) && Torn(target, target)
  {
    hide AndWord, MidWord;
    OnItsWayEnds(Erased(), 0, target);
    forall k | 0 <= k < 16 ensures AndWords(HalfWritten(target), 1, target)[k] == target[k] {
      AndWordLaws(0, target[k]);
    }
    OnItsWayEnds(HalfWritten(target), 1, target);
  }

  class Board {
    const qspi: Q.Qspi
    const bank2: Device
    var meta: Record
    var iwdg: bool
    ghost var metaFaults: nat

    constructor (chip: Image, app: Image, words: Record)
      requires |chip| == Q.QSPI_FLASH_SIZE && |app| == APP_SIZE
      ensures Valid() && View() == Snap(app, chip, words, false)
    {
      qspi := new Q.Qspi(chip);
      bank2 := new Device(app, 32);
      meta, iwdg, metaFaults := words, false, 0;
    }

    ghost predicate Valid()
      reads this, qspi, qspi.chip, bank2
    {
      && qspi.Valid() && bank2.Valid() && qspi.chip != bank2
      && bank2.unit == 32 && |bank2.mem| == APP_SIZE
    }

    ghost function View(): Snap
      reads this, qspi, qspi.chip, bank2
    {
      Snap(bank2.mem, qspi.chip.mem, meta, iwdg)
    }

    /** Operations that failed or were cut short so far. */
    ghost function Faults(): nat
      reads this, qspi, qspi.chip, bank2
    {
      qspi.chip.faults + bank2.faults + metaFaults
    }

    // -------------------------------------------------------------- metadata.c

    /** Erasing the metadata sector. */
    method EraseMeta() returns (st: Status)
      modifies `meta, `metaFaults
      ensures st == Ok ==> meta == Erased()
      ensures metaFaults == old(metaFaults) + (if st == Ok then 0 else 1)
    {
      if * {
        meta := Erased();
        return Ok;
      }
      var w: Record := *;
      meta := w;
      st := MetaFails();
    }

    /** Programming eight of its words; failing, each stays somewhere on its way. */
    method ProgramMeta(i: nat, d: Record) returns (st: Status)
      requires i < 2
      modifies `meta, `metaFaults
      ensures st == Ok ==> meta == AndWords(old(meta), i, d)
      ensures OnItsWay(old(meta), AndWords(old(meta), i, d), meta)
      ensures metaFaults == old(metaFaults) + (if st == Ok then 0 else 1)
    {
      hide AndBits;
      var target := AndWords(meta, i, d);
      OnItsWayEnds(meta, i, d);
      if * {
        meta := target;
        return Ok;
      }
      var w: Record := *;
      if OnItsWay(meta, target, w) {
        meta := w;
      }
      st := MetaFails();
    }

    method MetaFails() returns (st: Status)
      modifies `metaFaults
      ensures st != Ok && metaFaults == old(metaFaults) + 1
    {
      metaFaults := metaFaults + 1;
      if * { return Err; }
      return Cut;
    }

    /** Metadata_Write; the read-back comparison decides success.  Once the sector is erased,
        wherever it ends, the record is whole or torn.  Two failing operations do not make it
        fail. */
    method MetadataWrite(m: Metadata) returns (st: Status, ghost erased: bool)
      modifies `meta, `metaFaults
      ensures st == Ok ==> meta == Stored(m) && erased
      ensures erased ==> Torn(Stored(m), meta)
      ensures metaFaults >= old(metaFaults) && (st != Ok ==> metaFaults > old(metaFaults))
      ensures st == Err ==> metaFaults >= old(metaFaults) + 3
    {
      hide Stored, AndWords, OnItsWay;
      erased := false;
      var aligned := Stored(m);
      var ok := false;
      var attempt := 0;
      while attempt < 10 && !ok
        invariant attempt <= 10 && metaFaults >= old(metaFaults) + (if ok then 0 else attempt)
        invariant ok ==> meta == Erased()
      {
        st := EraseMeta();
        if st == Cut {
          return;
        }
        ok := st == Ok;
        attempt := attempt + 1;
      }
      if !ok {
        return Err, false;
      }
      erased := true;
      BothHalves(aligned);
      for i := 0 to 2
        invariant metaFaults >= old(metaFaults)
        invariant meta == (if i == 0 then Erased() else if i == 1 then HalfWritten(aligned) else aligned)
      {
        st := ProgramMetaWord(i, aligned);
        if st != Ok {
          return;
        }
      }
      metaFaults := metaFaults + (if meta == aligned then 0 else 1);
      st := if meta == aligned then Ok else Err;
    }

    /** One flash word of eight, tried three times, each attempt finishing the last. */
    method ProgramMetaWord(i: nat, aligned: Record) returns (st: Status)
      requires i < 2
      modifies `meta, `metaFaults
      ensures st == Ok ==> meta == AndWords(old(meta), i, aligned)
      ensures OnItsWay(old(meta), AndWords(old(meta), i, aligned), meta)
      ensures metaFaults >= old(metaFaults) && (st != Ok ==> metaFaults > old(metaFaults))
      ensures if st == Err then metaFaults == old(metaFaults) + 3 else metaFaults <= old(metaFaults) + 3
    {
      hide AndWords, OnItsWay;
      ghost var t := AndWords(meta, i, aligned);
      OnItsWayEnds(meta, i, aligned);
      for attempt := 0 to 3
        invariant metaFaults == old(metaFaults) + attempt && OnItsWay(old(meta), t, meta)
      {
        ghost var w := meta;
        RetryFinishes(old(meta), i, aligned, w);
        st := ProgramMeta(i, aligned);
        OnItsWayTrans(old(meta), t, w, meta);
        if st != Err {
          return;
        }
      }
      return Err;
    }

    // -------------------------------------------------------------- Bank2

    /** Erase the sectors of Bank2 that lie below `limit`, trying each `tries` times. */
    method EraseBank2(limit: nat, tries: nat) returns (st: Status)
      requires Valid() && limit <= APP_SIZE && tries > 0
      modifies bank2`mem, bank2`faults
      ensures Valid() && SameOutside(old(bank2.mem), bank2.mem, 0, Sectors(limit))
      ensures st == Ok ==> bank2.mem == Filled(old(bank2.mem), 0, Sectors(limit))
      ensures bank2.faults >= old(bank2.faults) && (st != Ok ==> bank2.faults > old(bank2.faults))
      ensures st == Err ==> bank2.faults >= old(bank2.faults) + tries
    {
      var s := 0;
      while s < 8 && s * SECTOR_SIZE < limit
        invariant Valid() && s <= 8 && s * SECTOR_SIZE <= Sectors(limit)
        invariant bank2.mem == Filled(old(bank2.mem), 0, s * SECTOR_SIZE) && bank2.faults >= old(bank2.faults)
      {
        st := EraseSector(s, tries);
        if st != Ok {
          return;
        }
        s := s + 1;
      }
      return Ok;
    }

    method EraseSector(s: nat, tries: nat) returns (st: Status)
      requires Valid() && s < 8 && tries > 0
      modifies bank2`mem, bank2`faults
      ensures Valid() && SameOutside(old(bank2.mem), bank2.mem, s * SECTOR_SIZE, SECTOR_SIZE)
      ensures st == Ok ==> bank2.mem == Filled(old(bank2.mem), s * SECTOR_SIZE, SECTOR_SIZE)
      ensures bank2.faults >= old(bank2.faults) && (st != Ok ==> bank2.faults > old(bank2.faults))
      ensures st == Err ==> bank2.faults == old(bank2.faults) + tries
    {
      for attempt := 0 to tries
        invariant Valid() && SameOutside(old(bank2.mem), bank2.mem, s * SECTOR_SIZE, SECTOR_SIZE)
        invariant bank2.faults == old(bank2.faults) + attempt
      {
        st := bank2.Erase(s * SECTOR_SIZE, SECTOR_SIZE);
        if st != Err {
          return;
        }
      }
      return Err;
    }

    /** Copy len bytes of the NOR chip to the start of erased Bank2, a flash word of 32 bytes
        at a time, the last one padded with 0xFF. */
    method LoadBank2(src: nat, len: nat) returns (st: Status)
      requires Valid() && len <= APP_SIZE && src + APP_SIZE <= Q.QSPI_FLASH_SIZE
      requires forall i :: 0 <= i < Sectors(len) ==> bank2.mem[i] == 0xFF
      modifies bank2, qspi.chip`faults
      ensures Valid() && SameOutside(old(bank2.mem), bank2.mem, 0, Sectors(len))
      ensures st == Ok ==> bank2.mem == Loaded(old(bank2.mem), qspi.chip.mem[src..src + len])
      ensures Faults() >= old(Faults()) && (st != Ok ==> Faults() > old(Faults()))
    {
      hide Loaded;
      var off: nat, remain: nat := 0, len;
      ghost var m := bank2.mem;
      ghost var d := qspi.chip.mem[src..src + len];
      LoadNone(m, d);
      while remain > 0
        invariant Valid() && off + remain == len && (off % 32 == 0 || remain == 0)
        invariant bank2.mem == Loaded(m, d[..off]) && Faults() >= old(Faults())
      {
        var chunk := if remain >= 32 then 32 else remain;
        InSectors(off, len);
        LoadMore(m, d, off, chunk);
        st := LoadWord(src, off, chunk);
        assert d[off..off + chunk] == qspi.chip.mem[src + off..src + off + chunk];
        if st != Ok {
          return;
        }
        off := off + chunk;
        remain := remain - chunk;
      }
      assert d[..off] == d;
      LoadedOutside(m, d);
      return Ok;
    }

    /** One round of that loop. */
    method LoadWord(src: nat, off: nat, chunk: nat) returns (st: Status)
      requires Valid() && 0 < chunk <= 32 && off % 32 == 0 && off + 32 <= APP_SIZE
        && src + off + chunk <= Q.QSPI_FLASH_SIZE
      modifies bank2, qspi.chip`faults
      ensures Valid() && SameOutside(old(bank2.mem), bank2.mem, off, 32)
      ensures st == Ok ==>
        bank2.mem == AndRange(old(bank2.mem), off, Word32(qspi.chip.mem[src + off..src + off + chunk]))
      ensures Faults() >= old(Faults()) && (st != Ok ==> Faults() > old(Faults()))
    {
      hide AndRange, Toward;
      var data;
      st, data := qspi.Read(src + off, chunk);
      if st != Ok {
        return;
      }
      ghost var m := bank2.mem;
      st := ProgramWord(off, Word32(data));
      TowardOutside(m, off, Word32(data), bank2.mem);
    }

    /** One flash word of Bank2, tried three times. */
    method ProgramWord(off: nat, wbuf: Image) returns (st: Status)
      requires Valid() && off % 32 == 0 && off + 32 <= APP_SIZE && |wbuf| == 32
      modifies bank2
      ensures Valid() && Toward(old(bank2.mem), AndRange(old(bank2.mem), off, wbuf), bank2.mem)
      ensures st == Ok ==> bank2.mem == AndRange(old(bank2.mem), off, wbuf)
      ensures bank2.faults >= old(bank2.faults) && (st != Ok ==> bank2.faults > old(bank2.faults))
      ensures if st == Err then bank2.faults == old(bank2.faults) + 3 else bank2.faults <= old(bank2.faults) + 3
    {
      hide AndRange, Toward, Programmed;
      ghost var m := bank2.mem;
      TowardSelf(m, off, wbuf);
      for attempt := 0 to 3
        invariant Valid() && Toward(m, AndRange(m, off, wbuf), bank2.mem)
        invariant bank2.faults == old(bank2.faults) + attempt
      {
        RetryCompletes(m, off, wbuf, bank2.mem);
        WithinUnit(bank2.mem, 32, off, wbuf);
        ghost var n := bank2.mem;
        st := bank2.Program(off, wbuf);
        TowardTrans(m, AndRange(m, off, wbuf), n, bank2.mem);
        if st != Err {
          return;
        }
      }
      return Err;
    }

    // -------------------------------------------------------------- menu.c

    /** Boot_DoRollback, and the flash part of Restore_SlotA: Bank2 is erased and loaded from
        the NOR backup, unless there is none. */
    method CopyBack() returns (st: Status)
      requires Valid()
      modifies bank2, qspi.chip`faults
      ensures Valid()
      ensures st == Ok ==> bank2.mem == Backup(qspi.chip.mem)
      ensures NoBackup(qspi.chip.mem) ==> st != Ok && bank2.mem == old(bank2.mem)
      ensures Faults() >= old(Faults()) && (st == Cut ==> Faults() > old(Faults()))
      ensures st == Err ==> Faults() > old(Faults()) || NoBackup(qspi.chip.mem)
    {
      var hdr;
      st, hdr := qspi.Read(BACKUP_OFFSET, 4);
      if st != Ok {
        return;
      }
      assert forall i :: 0 <= i < 4 ==> Backup(qspi.chip.mem)[i] == hdr[i];
      if hdr[0] == 0xFF && hdr[1] == 0xFF && hdr[2] == 0xFF && hdr[3] == 0xFF {
        return Err;
      }
      st := EraseBank2(APP_SIZE, 4);
      if st != Ok {
        return;
      }
      st := LoadBank2(BACKUP_OFFSET, APP_SIZE);
      if st == Ok {
        assert bank2.mem[..APP_SIZE] == bank2.mem;
      }
    }

    method Rollback(inited: bool) returns (st: Status)
      requires Valid()
      modifies bank2, qspi.chip`faults
      ensures Valid()
      ensures st == Ok ==> bank2.mem == Backup(qspi.chip.mem)
      ensures NoBackup(qspi.chip.mem) ==> st != Ok && bank2.mem == old(bank2.mem)
      ensures Faults() >= old(Faults()) && (st == Cut ==> Faults() > old(Faults()))
      ensures st == Err ==> Faults() > old(Faults()) || NoBackup(qspi.chip.mem)
    {
      if !inited {
        st := qspi.Init();
        if st != Ok {
          return;
        }
      }
      st := CopyBack();
    }

    /** Restore_SlotA.  `metaOk` says that the metadata write, if it came to it, succeeded. */
    method RestoreSlotA() returns (st: Status, ghost copied: bool, ghost metaOk: bool)
      requires Valid()
      modifies this, bank2, qspi.chip`faults
      ensures Valid() && RestoreOutcome(old(View()), View(), copied, metaOk) && (st == Ok ==> copied)
      ensures NoBackup(qspi.chip.mem) ==> st != Ok && View() == old(View())
      ensures Faults() >= old(Faults())
      ensures st != Ok || !metaOk ==> Faults() > old(Faults()) || NoBackup(qspi.chip.mem)
    {
      copied, metaOk := false, true;
      st := CopyBack();
      if st != Ok {
        return;
      }
      copied := true;
      var m := BootSpec.Read(meta);
      var written, erased := MetadataWrite(RolledBack(m));
      metaOk := written == Ok;
      st := if written == Cut then Cut else Ok;
    }

    /** Backup_SlotA: Bank2 copied to NOR in blocks of 4096 bytes, then the backup's label. */
    method BackupSlotA() returns (st: Status, ghost copied: bool, ghost metaOk: bool)
      requires Valid()
      modifies this, qspi.chip
      ensures Valid() && BackupOutcome(old(View()), View(), copied, metaOk) && (st == Ok ==> copied)
      ensures NoVector(bank2.mem) ==> st != Ok && View() == old(View())
      ensures Faults() >= old(Faults())
      ensures st != Ok || !metaOk ==> Faults() > old(Faults()) || NoVector(bank2.mem)
    {
      copied, metaOk := false, true;
      var msp := bank2.mem[..4];
      if msp == [0xFF, 0xFF, 0xFF, 0xFF] || msp == [0, 0, 0, 0] {
        return Err, false, true;
      }
      st := CopyOut(4096, 1, 256);
      if st != Ok {
        return;
      }
      copied := true;
      var m := BootSpec.Read(meta);
      var written, erased := MetadataWrite(BackedUp(m));
      metaOk := written == Ok;
      st := if written == Cut then Cut else Ok;
    }

    /** Bank2 to the erased NOR backup in blocks of `block` bytes, each tried `tries` times
        with a controller reset in between. */
    method CopyOut(block: nat, tries: nat, ghost blocks: nat) returns (st: Status)
      requires Valid() && block > 0 && tries > 0 && block * blocks == APP_SIZE
      modifies qspi.chip
      ensures Valid() && SameOutside(old(qspi.chip.mem), qspi.chip.mem, BACKUP_OFFSET, APP_SIZE)
      ensures st == Ok ==> Backup(qspi.chip.mem) == bank2.mem
      ensures qspi.chip.faults >= old(qspi.chip.faults) && (st != Ok ==> qspi.chip.faults > old(qspi.chip.faults))
    {
      hide AndRange, Toward;
      st := qspi.EraseBlocks(BACKUP_OFFSET, APP_SIZE);
      if st != Ok {
        return;
      }
      var i: nat := 0;
      ghost var m := qspi.chip.mem;
      ghost var k: nat := 0;
      CopyNone(m, bank2.mem);
      while i < APP_SIZE
        invariant Valid() && i <= APP_SIZE && i == block * k
        invariant qspi.chip.mem == AndRange(m, BACKUP_OFFSET, bank2.mem[..i])
          && qspi.chip.faults >= old(qspi.chip.faults)
      {
        BlockFits(block, k, blocks);
        st := CopyRound(i, block, tries);
        CopyMore(m, bank2.mem, i, block, qspi.chip.mem);
        if st != Ok {
          return;
        }
        i, k := i + block, k + 1;
      }
      CopyDone(m, bank2.mem, i);
      return Ok;
    }

    /** One round of that loop; the OTA copy resets the controller every 128 KB. */
    method CopyRound(i: nat, block: nat, tries: nat) returns (st: Status)
      requires Valid() && i + block <= APP_SIZE && tries > 0
      modifies qspi.chip
      ensures var m, d := old(qspi.chip.mem), bank2.mem[i..i + block];
        && Valid() && Toward(m, AndRange(m, BACKUP_OFFSET + i, d), qspi.chip.mem)
        && (st == Ok ==> qspi.chip.mem == AndRange(m, BACKUP_OFFSET + i, d))
      ensures qspi.chip.faults >= old(qspi.chip.faults) && (st != Ok ==> qspi.chip.faults > old(qspi.chip.faults))
      ensures st == Err ==> qspi.chip.faults >= old(qspi.chip.faults) + tries
    {
      TowardSelf(qspi.chip.mem, BACKUP_OFFSET + i, bank2.mem[i..i + block]);
      hide AndRange, Toward;
      if i != 0 && tries > 1 && i % SECTOR_SIZE == 0 {
        var reset := qspi.Init();
        if reset == Cut {
          return Cut;
        }
      }
      st := WriteBlock(bank2.mem[i..i + block], BACKUP_OFFSET + i, tries);
    }

    method WriteBlock(tmp: Image, addr: nat, tries: nat) returns (st: Status)
      requires Valid() && addr + |tmp| <= Q.QSPI_FLASH_SIZE && tries > 0
      modifies qspi.chip
      ensures Valid() && Toward(old(qspi.chip.mem), AndRange(old(qspi.chip.mem), addr, tmp), qspi.chip.mem)
      ensures st == Ok ==> qspi.chip.mem == AndRange(old(qspi.chip.mem), addr, tmp)
      ensures qspi.chip.faults >= old(qspi.chip.faults) && (st != Ok ==> qspi.chip.faults > old(qspi.chip.faults))
      ensures st == Err ==> qspi.chip.faults >= old(qspi.chip.faults) + tries
    {
      hide AndRange, Toward;
      ghost var m := qspi.chip.mem;
      TowardSelf(m, addr, tmp);
      for attempt := 0 to tries
        invariant Valid() && Toward(m, AndRange(m, addr, tmp), qspi.chip.mem)
        invariant qspi.chip.faults >= old(qspi.chip.faults) + attempt
      {
        RetryCompletes(m, addr, tmp, qspi.chip.mem);
        ghost var n := qspi.chip.mem;
        st := qspi.Write(tmp, addr);
        TowardTrans(m, AndRange(m, addr, tmp), n, qspi.chip.mem);
        if st != Err {
          return;
        }
        if tries > 1 {
          var reset := qspi.Init();
          if reset == Cut {
            return Cut;
          }
        }
      }
      return Err;
    }

    /** Reset_Reason_Is_IWDG: reading the flag clears it. */
    method ResetReasonIsIwdg() returns (r: bool)
      modifies `iwdg
      ensures r == old(iwdg) && !iwdg
    {
      r := iwdg;
      iwdg := false;
    }

    /** Boot_Metadata_Step. */
    method BootMetadataStep(inited: bool) returns (req: nat, cut: bool, ghost erased: bool)
      requires Valid()
      modifies this, bank2, qspi.chip`faults
      ensures Valid()
      ensures BootOutcome(old(View()), View(), req, cut, Faults() > old(Faults()))
      ensures Faults() >= old(Faults()) && (cut ==> Faults() > old(Faults()))
      ensures var was := BootSpec.Read(old(meta));
        erased && was.state == STATE_PENDING_UPDATE ==> Torn(Stored(was.(state := STATE_TESTING)), meta)
    {
      hide Stored, Torn;
      req, cut, erased := 0, false, false;
      var m := BootSpec.Read(meta);
      if m.magic != METADATA_MAGIC || m.state == STATE_EMPTY {
        return;
      }
      if m.state == STATE_PENDING_UPDATE {
        var st;
        st, erased := MetadataWrite(m.(state := STATE_TESTING));
        return 1, st == Cut, erased;
      } else if m.state == STATE_TESTING {
        var watchdog := ResetReasonIsIwdg();
        if watchdog {
          var st := Rollback(inited);
          if st == Cut {
            return 0, true, false;
          }
          if st == Ok {
            st, erased := MetadataWrite(RolledBack(m));
            return 2, st == Cut, erased;
          }
          return 0, false, false;
        }
        return 1, false, false;
      }
      return 2, false, false;
    }
  }

  /** The backup's test for an application: its first word is neither erased nor 0. */
  predicate NoVector(app: Image)
    requires |app| >= 4
  {
    app[..4] == [0xFF, 0xFF, 0xFF, 0xFF] || app[..4] == [0, 0, 0, 0]
  }

  /** Four bytes alike: all clear or all set. */
  lemma NoVectorIs(app: Image)
    requires |app| >= 4
    ensures NoVector(app) <==> app[0] == app[1] == app[2] == app[3] && app[0] in {0x00, 0xFF}
  {
    assert app[..4] == [app[0], app[1], app[2], app[3]];
  }

  /** A write buffer filled with 0xFF and then with data. */
  function Word32(data: Image): (r: Image)
    requires |data| <= 32
    ensures |r| == 32
  {
    data + seq(32 - |data|, i => 0xFF)
  }

  /** The next flash word of an image goes to erased bytes and arrives as it is; whatever
      became of it, the bytes outside the image's sectors are as before. */
  lemma LoadMore(m: Image, d: Image, off: nat, chunk: nat)
    requires off + chunk <= |d| && 0 < chunk <= 32 && off + 32 <= Sectors(|d|) <= |m|
    requires off + chunk == |d| || chunk == 32
    requires forall i :: 0 <= i < Sectors(|d|) ==> m[i] == 0xFF
    ensures AndRange(Loaded(m, d[..off]), off, Word32(d[off..off + chunk])) == Loaded(m, d[..off + chunk])
    ensures forall n :: SameOutside(Loaded(m, d[..off]), n, off, 32) ==> SameOutside(m, n, 0, Sectors(|d|))
    ensures SameOutside(m, Loaded(m, d[..off]), 0, Sectors(|d|))
  {
    var r, s := AndRange(Loaded(m, d[..off]), off, Word32(d[off..off + chunk])), Loaded(m, d[..off + chunk]);
    forall i | 0 <= i < |m| ensures r[i] == s[i] {
      if off <= i < off + 32 {
        AndLaws(0xFF, Word32(d[off..off + chunk])[i - off]);
      }
    }
  }

  lemma LoadedOutside(m: Image, d: Image)
    requires |d| <= |m|
    ensures SameOutside(m, Loaded(m, d), 0, Sectors(|d|))
  {
  }

  lemma LoadNone(m: Image, d: Image)
    ensures d[..0] == [] && Loaded(m, []) == m
  {
  }

  /** A flash word that holds bytes of the image lies in one of its sectors. */
  lemma InSectors(off: nat, len: nat)
    requires off < len <= APP_SIZE && off % 32 == 0
    ensures off + 32 <= Sectors(len) <= APP_SIZE
  {
    var s := (len + SECTOR_SIZE - 1) / SECTOR_SIZE;
    assert Sectors(len) == s * SECTOR_SIZE >= len;
    assert Sectors(len) % 32 == 0 by { assert s * SECTOR_SIZE == 32 * (s * 4096); }
  }

  lemma CopyNone(m: Image, d: Image)
    ensures d[..0] == [] && AndRange(m, BACKUP_OFFSET, []) == m
  {
  }

  lemma CopyMore(m: Image, d: Image, i: nat, block: nat, now: Image)
    requires |d| == APP_SIZE && i + block <= APP_SIZE && |m| >= BACKUP_OFFSET + APP_SIZE
    ensures var p := AndRange(m, BACKUP_OFFSET, d[..i]);
      AndRange(p, BACKUP_OFFSET + i, d[i..i + block]) == AndRange(m, BACKUP_OFFSET, d[..i + block])
    ensures var p := AndRange(m, BACKUP_OFFSET, d[..i]);
      Toward(p, AndRange(p, BACKUP_OFFSET + i, d[i..i + block]), now) ==> SameOutside(m, now, BACKUP_OFFSET, APP_SIZE)
  {
    var p := AndRange(m, BACKUP_OFFSET, d[..i]);
    if Toward(p, AndRange(p, BACKUP_OFFSET + i, d[i..i + block]), now) {
      TowardOutside(p, BACKUP_OFFSET + i, d[i..i + block], now);
    }
  }

  lemma CopyDone(m: Image, d: Image, i: nat)
    requires |d| == APP_SIZE == i && |m| >= BACKUP_OFFSET + APP_SIZE
    requires forall k :: BACKUP_OFFSET <= k < BACKUP_OFFSET + APP_SIZE ==> m[k] == 0xFF
    ensures var r := AndRange(m, BACKUP_OFFSET, d[..i]); Backup(r) == d && SameOutside(m, r, BACKUP_OFFSET, APP_SIZE)
  {
    assert d[..i] == d;
    ErasedTakes(m, BACKUP_OFFSET, d);
  }

  lemma BlockFits(block: nat, k: nat, n: nat)
    requires block * k < block * n
    ensures block * k + block == block * (k + 1) <= block * n
  {
    MulMono(block, n, k);
    MulMono(block, k + 1, n);
  }

  lemma MulMono(b: nat, x: nat, y: nat)
    ensures x <= y ==> b * x <= b * y
  {
  }
}
