/** What the bootloader keeps across resets, and what one boot may do with it
    (metadata/metadata.c, menu/menu.c, main.c). */
module BootSpec {
  import opened Flash
  import opened Words

  const APP_SIZE := 0x10_0000
  const SECTOR_SIZE := 0x2_0000
  const BACKUP_OFFSET := 0x20_0000

  // ---------------------------------------------------------------- metadata

  const METADATA_MAGIC: u32 := 0x4D45_5441
  const STATE_EMPTY: u32 := 0xFFFF_FFFF
  const STATE_PENDING_UPDATE: u32 := 0x5045_4E44
  const STATE_TESTING: u32 := 0x5445_5354
  const STATE_CONFIRMED: u32 := 0x434F_4E46

  datatype Version = Version(major: u32, minor: u32, patch: u32)

  /** The 64-byte record, in the fields ota.c and menu.c use. */
  datatype Metadata = Metadata(magic: u32, state: u32, crc32: u32, fwSize: u32, bakCrc32: u32, bakFwSize: u32,
                               cur: Version, bak: Version, ota: Version, reserved: u32)

  type Record = w: seq<u32> | |w| == 16 witness seq(16, i => 0)

  function Encode(m: Metadata): Record {
    [m.magic, m.state, m.crc32, m.fwSize, m.bakCrc32, m.bakFwSize,
     m.cur.major, m.cur.minor, m.cur.patch, m.bak.major, m.bak.minor, m.bak.patch,
     m.ota.major, m.ota.minor, m.ota.patch, m.reserved]
  }

  function Decode(w: Record): Metadata {
    Metadata(w[0], w[1], w[2], w[3], w[4], w[5], Version(w[6], w[7], w[8]), Version(w[9], w[10], w[11]),
             Version(w[12], w[13], w[14]), w[15])
  }

  lemma DecodeEncode(m: Metadata)
    ensures Decode(Encode(m)) == m
  {
  }

  function Defaults(): Metadata {
    var v := Version(0, 0, 0);
    Metadata(METADATA_MAGIC, STATE_EMPTY, 0, 0, 0, 0, v, v, v, 0)
  }

  /** Metadata_Read. */
  function Read(w: Record): Metadata { if w[0] == METADATA_MAGIC then Decode(w) else Defaults() }

  /** What Metadata_Write stores. */
  function Stored(m: Metadata): Record { Encode(m.(magic := METADATA_MAGIC)) }

  lemma ReadStored(m: Metadata)
    ensures Read(Stored(m)) == m.(magic := METADATA_MAGIC)
  {
    DecodeEncode(m.(magic := METADATA_MAGIC));
  }

  // ---------------------------------------------------------------- the persistent state

  /** Bank2, the NOR chip, the metadata sector and the sticky watchdog-reset flag. */
  datatype Snap = Snap(bank2: Image, nor: Image, meta: Record, iwdg: bool)

  predicate Sized(b: Snap) { |b.bank2| == APP_SIZE && |b.nor| >= BACKUP_OFFSET + APP_SIZE }

  function Backup(nor: Image): Image
    requires |nor| >= BACKUP_OFFSET + APP_SIZE
  {
    nor[BACKUP_OFFSET..BACKUP_OFFSET + APP_SIZE]
  }

  /** The restore code's test for a backup: the first word is not erased. */
  predicate NoBackup(nor: Image)
    requires |nor| >= BACKUP_OFFSET + APP_SIZE
  {
    forall i :: 0 <= i < 4 ==> Backup(nor)[i] == 0xFF
  }

  /** In raw terms: the word at offset 0x200000 of the chip is erased. */
  lemma NoBackupIs(nor: Image)
    requires |nor| >= 0x30_0000
    ensures NoBackup(nor) <==> nor[0x20_0000..0x20_0004] == [0xFF, 0xFF, 0xFF, 0xFF]
  {
    assert forall i :: 0 <= i < 4 ==> nor[0x20_0000..0x20_0004][i] == Backup(nor)[i];
  }

  /** cur_* := bak_* and CONFIRMED, after a restore or a rollback. */
  function RolledBack(m: Metadata): Metadata {
    m.(cur := m.bak, crc32 := m.bakCrc32, fwSize := m.bakFwSize, state := STATE_CONFIRMED)
  }

  /** bak_* := cur_*, after a backup. */
  function BackedUp(m: Metadata): Metadata { m.(bak := m.cur, bakCrc32 := m.crc32, bakFwSize := m.fwSize) }

  // ---------------------------------------------------------------- one boot

  /** What Boot_Metadata_Step may make of b: the request it returns, or that the power went,
      and whether some flash operation failed on the way. */
  ghost predicate BootOutcome(b: Snap, r: Snap, req: nat, cut: bool, faulty: bool)
    requires Sized(b)
  {
    var m := Read(b.meta);
    && Sized(r) && r.nor == b.nor
    && if m.state == STATE_EMPTY then r == b && req == 0 && !cut
       else if m.state == STATE_PENDING_UPDATE then
         && r.bank2 == b.bank2 && r.iwdg == b.iwdg
         && (!cut ==> req == 1 && (faulty || r.meta == Stored(m.(state := STATE_TESTING))))
       else if m.state == STATE_TESTING then
         && !r.iwdg
         && (if !b.iwdg then r == b && req == 1 && !cut
             else if NoBackup(b.nor) then r == b.(iwdg := false) && req == 0
             else if cut then r.meta == b.meta || r.bank2 == Backup(b.nor)
             else if req == 2 then r.bank2 == Backup(b.nor) && (faulty || r.meta == Stored(RolledBack(m)))
             else req == 0 && r.meta == b.meta && faulty)
       else r == b && req == 2 && !cut
  }

  /** What Restore_SlotA may make of b: whether Bank2 was wholly copied, and whether the
      metadata write that follows succeeded. */
  ghost predicate RestoreOutcome(b: Snap, r: Snap, copied: bool, metaOk: bool)
    requires Sized(b)
  {
    && Sized(r) && r.nor == b.nor && r.iwdg == b.iwdg
    && (copied ==> r.bank2 == Backup(b.nor) && (metaOk ==> r.meta == Stored(RolledBack(Read(b.meta)))))
    && (!copied ==> r.meta == b.meta)
  }

  /** The same for Backup_SlotA. */
  ghost predicate BackupOutcome(b: Snap, r: Snap, copied: bool, metaOk: bool)
    requires Sized(b)
  {
    && Sized(r) && r.bank2 == b.bank2 && r.iwdg == b.iwdg && SameOutside(b.nor, r.nor, BACKUP_OFFSET, APP_SIZE)
    && (copied ==> Backup(r.nor) == b.bank2 && (metaOk ==> r.meta == Stored(BackedUp(Read(b.meta)))))
    && (!copied ==> r.meta == b.meta)
  }
}
