/** The update itself (ota/ota.c): staging a received image, backing up the old application
    and writing the new one. */
module Ota {
  import opened Flash
  import opened BootSpec
  import opened Boot
  import opened Words

  const OTA_BUF_SIZE := 512 * 1024
  const STAGING_SIZE := 2 * 1024 * 1024

  /** The new version's label, and PENDING_UPDATE. */
  function Updated(m: Metadata, received: u32, crc: u32, v: Version): Metadata
  {
    m.(ota := v, cur := v, crc32 := crc, fwSize := received, state := STATE_PENDING_UPDATE)
  }

  /** How far an update got: nothing but the backup area touched, the backup complete and
      labelled, Bank2 written. */
  datatype Reached = Nothing | BackupDone | Bank2Done

  /** What OTA_Flash_Write may make of b, given how it ended, how far it got and whether
      every metadata write it came to succeeded. */
  ghost predicate OtaOutcome(b: Snap, r: Snap, received: nat, crc: u32, v: Version, st: Status, reached: Reached,
      metaOk: bool)
    requires Sized(b) && received <= OTA_BUF_SIZE
  {
    && Sized(r) && r.iwdg == b.iwdg && SameOutside(b.nor, r.nor, BACKUP_OFFSET, APP_SIZE)
    && (reached == Nothing ==> st != Ok && r.bank2 == b.bank2 && r.meta == b.meta)
    && (reached != Nothing ==> Backup(r.nor) == b.bank2)
    && (reached == BackupDone ==> st != Ok && (metaOk ==> r.meta == Stored(BackedUp(Read(b.meta)))))
    && (reached == Bank2Done ==>
          && r.bank2 == Loaded(Filled(b.bank2, 0, Sectors(received)), b.nor[..received])
          && (metaOk ==> st == Ok && r.meta == Stored(Updated(BackedUp(Read(b.meta)), received, crc, v))))
    && (st == Ok ==> reached == Bank2Done && Labelled(r.meta, received, crc, v))
  }

  predicate Labelled(w: Record, received: u32, crc: u32, v: Version)
  {
    var m := Read(w);
    m.state == STATE_PENDING_UPDATE && m.crc32 == crc && m.fwSize == received && m.cur == v && m.ota == v
  }

  /** In raw words: the magic, PENDING, the checksum and size of the image, and its version as
      the current and as the offered one. */
  lemma LabelledIs(w: Record, received: u32, crc: u32, v: Version)
    ensures Labelled(w, received, crc, v) <==>
      && w[0] == 0x4D45_5441 && w[1] == 0x5045_4E44 && w[2] == crc && w[3] == received
      && w[6..9] == [v.major, v.minor, v.patch] == w[12..15]
  {
    assert w[6..9] == [w[6], w[7], w[8]] && w[12..15] == [w[12], w[13], w[14]];
    assert [v.major, v.minor, v.patch][1] == v.minor;
  }

  /** A new label leaves the backup's alone, and that of the old image becomes the backup's. */
  lemma UpdateLabels(w: Record, received: u32, crc: u32, v: Version)
    requires w[0] == 0x4D45_5441
    ensures var u := Stored(Updated(BackedUp(Read(w)), received, crc, v));
      Labelled(u, received, crc, v) && u[4..6] == [w[2], w[3]] && u[9..12] == w[6..9] && u[15] == w[15]
  {
    ReadStored(Updated(BackedUp(Read(w)), received, crc, v));
  }

  /** A successful update has the staged image in Bank2, labelled. */
  lemma ImageLoaded(b: Snap, r: Snap, n: nat, crc: u32, v: Version, reached: Reached, metaOk: bool)
    requires Sized(b) && n <= OTA_BUF_SIZE && OtaOutcome(b, r, n, crc, v, Ok, reached, metaOk)
    ensures n <= |r.bank2| && n <= |b.nor| && r.bank2[..n] == b.nor[..n] && Labelled(r.meta, n, crc, v)
  {
    hide Filled, Sectors, Labelled, Stored;
  }

  /** OTA_Flash_Write.  `received` and `crc` are ota_received and ota_crc_expected, v is what
      Version_Check_GetVersionNumbers delivers. */
  method OtaFlashWrite(b: Board, received: nat, crc: u32, v: Version)
    returns (st: Status, ghost reached: Reached, ghost metaOk: bool)
    requires b.Valid() && received <= OTA_BUF_SIZE
    modifies b, b.qspi.chip, b.bank2
    ensures b.Valid() && OtaOutcome(old(b.View()), b.View(), received, crc, v, st, reached, metaOk)
    ensures b.bank2.mem == old(b.bank2.mem) || Backup(b.qspi.chip.mem) == old(b.bank2.mem)
    ensures b.Faults() >= old(b.Faults()) && (st != Ok || !metaOk ==> b.Faults() > old(b.Faults()))
  {
    hide Loaded, Filled, Stored, Updated, Labelled, Read;
    reached, metaOk := Nothing, true;
    st := b.CopyOut(64, 3, 0x4000);
    if st != Ok {
      return;
    }
    reached := BackupDone;
    var m := Read(b.meta);
    var written, erased := b.MetadataWrite(BackedUp(m));
    metaOk := written == Ok;
    if written == Cut {
      st := Cut;
      return;
    }
    StagingKept(old(b.qspi.chip.mem), b.qspi.chip.mem, received);
    UpdateKeeps(BackedUp(m), received, crc, v);
    st := WriteBank2(b, received);
    if st != Ok {
      return;
    }
    reached := Bank2Done;
    st, metaOk := MarkPending(b, received, crc, v, metaOk);
  }

  /** Step 2: the sectors the image needs are erased, then it is copied from staging. */
  method WriteBank2(b: Board, received: nat) returns (st: Status)
    requires b.Valid() && received <= OTA_BUF_SIZE
    modifies b.qspi.chip`faults, b.bank2
    ensures b.Valid()
    ensures st == Ok ==>
      b.bank2.mem == Loaded(Filled(old(b.bank2.mem), 0, Sectors(received)), b.qspi.chip.mem[..received])
    ensures b.Faults() >= old(b.Faults()) && (st != Ok ==> b.Faults() > old(b.Faults()))
  {
    hide Loaded;
    st := b.EraseBank2(received, 8);
    if st != Ok {
      return;
    }
    st := b.LoadBank2(0, received);
    assert b.qspi.chip.mem[0..0 + received] == b.qspi.chip.mem[..received];
  }

  /** Step 3: the new label. */
  method MarkPending(b: Board, received: nat, crc: u32, v: Version, ghost ok: bool) returns (st: Status,
      ghost metaOk: bool)
    requires b.Valid() && received <= OTA_BUF_SIZE
    modifies b
    ensures b.Valid() && b.iwdg == old(b.iwdg)
    ensures b.Faults() >= old(b.Faults()) && (st != Ok || (ok && !metaOk) ==> b.Faults() > old(b.Faults()))
    ensures st == Ok ==> Labelled(b.meta, received, crc, v)
    ensures metaOk ==> ok && st == Ok && b.meta == Stored(Updated(Read(old(b.meta)), received, crc, v))
    ensures st == Ok && ok ==> metaOk
  {
    var m := Updated(Read(b.meta), received, crc, v);
    ghost var erased;
    st, erased := b.MetadataWrite(m);
    metaOk := ok && st == Ok;
    if st == Ok {
      ReadStored(m);
    }
  }

  lemma StagingKept(m: Image, n: Image, received: nat)
    requires |m| >= BACKUP_OFFSET && SameOutside(m, n, BACKUP_OFFSET, APP_SIZE) && received <= OTA_BUF_SIZE
    ensures n[..received] == m[..received]
  {
  }

  lemma UpdateKeeps(m: Metadata, received: u32, crc: u32, v: Version)
    ensures Stored(Updated(Read(Stored(m)), received, crc, v)) == Stored(Updated(m, received, crc, v))
  {
    ReadStored(m);
  }
}
