/** What holds over runs of boots, updates, backups and restores. */
module BootRuns {
  import opened Flash
  import opened BootSpec
  import opened Boot
  import opened Ota
  import opened Words
  import Crc

  // ---------------------------------------------------------------- jumping to the application

  datatype Action = Menu | JumpWatched | JumpFree

  /** The boot branch of main: the key, then the request. */
  function Chosen(req: nat, key1: bool): Action {
    if key1 || req == 0 then Menu else if req == 1 then JumpWatched else JumpFree
  }

  /** In PENDING and TESTING the boot branch never jumps without the watchdog, unless Bank2
      was just restored from the backup.  (Key 5 of the menu jumps in any state, without the
      watchdog.)  Any state word that is not one of the four, in a
      record with valid magic, is taken for a confirmed one. */
  lemma JumpsFree(b: Snap, r: Snap, req: nat, faulty: bool)
    requires Sized(b) && BootOutcome(b, r, req, false, faulty)
    ensures var s := Read(b.meta).state;
      && (Chosen(req, false) == JumpFree && s in {STATE_PENDING_UPDATE, STATE_TESTING}
        ==> r.bank2 == Backup(b.nor) && b.iwdg)
      && (s !in {STATE_EMPTY, STATE_PENDING_UPDATE, STATE_TESTING} ==> Chosen(req, false) == JumpFree && r == b)
      && (s == STATE_EMPTY ==> Chosen(req, false) == Menu)
  {
  }

  /** What a boot without the key does with the words found in the metadata sector: 0x4D45_5441
      is the magic; 0x5045_4E44, 0x5445_5354 and 0xFFFF_FFFF say PENDING, TESTING and EMPTY. */
  lemma BootTable(b: Snap, r: Snap, req: nat, faulty: bool)
    requires Sized(b) && BootOutcome(b, r, req, false, faulty)
    ensures var w, action := b.meta, Chosen(req, false);
      && (w[0] != 0x4D45_5441 || w[1] == 0xFFFF_FFFF ==> action == Menu && r == b)
      && (w[0] == 0x4D45_5441 && w[1] == 0x5045_4E44 ==>
            action == JumpWatched && r.bank2 == b.bank2 && (faulty || r == b.(meta := w[1 := 0x5445_5354])))
      && (w[0] == 0x4D45_5441 && w[1] == 0x5445_5354 && !b.iwdg ==> action == JumpWatched && r == b)
      && (w[0] == 0x4D45_5441 && w[1] == 0x5445_5354 && b.iwdg ==>
            if NoBackup(b.nor) then action == Menu && r == b.(iwdg := false)
            else if action == JumpFree then
              r.bank2 == Backup(b.nor) && (faulty || Read(r.meta).state == STATE_CONFIRMED)
            else action == Menu && faulty && r.meta == w)
      && (w[0] == 0x4D45_5441 && w[1] !in {0xFFFF_FFFF, 0x5045_4E44, 0x5445_5354} ==> action == JumpFree && r == b)
  {
    var m := Read(b.meta);
    ReadStored(RolledBack(m));
    if b.meta[0] == METADATA_MAGIC {
      assert Stored(m.(state := STATE_TESTING)) == b.meta[1 := STATE_TESTING];
    }
  }

  /** The boot part of main. */
  method MainBoot(b: Board, key1: bool) returns (action: Action, cut: bool)
    requires b.Valid()
    modifies b, b.bank2, b.qspi.chip`faults
    ensures b.Valid()
    ensures b.Faults() >= old(b.Faults()) && (cut ==> b.Faults() > old(b.Faults()))
    ensures !cut ==> exists req ::
      action == Chosen(req, key1) && BootOutcome(old(b.View()), b.View(), req, false, b.Faults() > old(b.Faults()))
    ensures !cut && key1 ==> action == Menu
    ensures var w := old(b.meta);
      !cut && !key1 ==>
        if w[0] != 0x4D45_5441 || w[1] == 0xFFFF_FFFF then action == Menu
        else if w[1] == 0x5045_4E44 then action == JumpWatched
        else if w[1] != 0x5445_5354 then action == JumpFree
        else if !old(b.iwdg) then action == JumpWatched
        else if NoBackup(b.qspi.chip.mem) then action == Menu
        else if action == JumpFree then b.bank2.mem == Backup(b.qspi.chip.mem)
        else action == Menu && b.Faults() > old(b.Faults())
  {
    var bootReq;
    ghost var erased;
    bootReq, cut, erased := b.BootMetadataStep(false);
    if cut {
      return Menu, true;
    }
    if key1 {
      action := Menu;
    } else if bootReq == 0 {
      action := Menu;
    } else {
      action := if bootReq == 1 then JumpWatched else JumpFree;
    }
    assert action == Chosen(bootReq, key1);
    BootTable(old(b.View()), b.View(), bootReq, b.Faults() > old(b.Faults()));
  }

  /** What an interrupted PENDING -> TESTING write may leave, and exactly which of it makes
      the next boot run the untested image without the watchdog: every record with the magic
      whole and any state word that is none of the three. */
  lemma TornRecordJumpsFreeIff(b: Snap, w: Record, r: Snap, req: nat, cut: bool, faulty: bool)
    requires Sized(b) && Read(b.meta).state == STATE_PENDING_UPDATE
    requires Torn(Stored(Read(b.meta).(state := STATE_TESTING)), w)
    requires BootOutcome(b.(meta := w, iwdg := false), r, req, cut, faulty)
    ensures BootOutcome(b, b.(meta := w), 0, true, false)
    ensures !cut && Chosen(req, false) == JumpFree <==>
      w[0] == METADATA_MAGIC && w[1] !in {STATE_EMPTY, STATE_PENDING_UPDATE, STATE_TESTING}
    ensures !cut && Chosen(req, false) == JumpFree ==> r.bank2 == b.bank2
  {
    hide Torn, Stored;
  }

  /** Every update passes such a record: the first flash word programmed up to one bit of the
      state word, the second not begun. */
  lemma TornStateJumpsFree(b: Snap, r: Snap, req: nat, cut: bool, faulty: bool) returns (w: Record)
    requires Sized(b) && Read(b.meta).state == STATE_PENDING_UPDATE
    ensures var target := Stored(Read(b.meta).(state := STATE_TESTING));
      w == target[..8][1 := 0x5445_5355] + Erased()[8..] && Torn(target, w)
    ensures w[0] == METADATA_MAGIC && Read(w).state == 0x5445_5355
    ensures BootOutcome(b.(meta := w, iwdg := false), r, req, cut, faulty) ==>
      !cut && Chosen(req, false) == JumpFree && r.bank2 == b.bank2
  {
    hide AndWord;
    var target := Stored(Read(b.meta).(state := STATE_TESTING));
    w := target[..8][1 := 0x5445_5355] + Erased()[8..];
    var h := HalfWritten(target);
    forall k | 0 <= k < 16 ensures MidWord(Erased()[k], h[k], w[k]) {
      AndWordLaws(0, target[k]);
      AndWordLaws(0, w[k]);
      AndWordSelf(w[k]);
      TestingBit();
    }
  }

  lemma TestingBit()
    ensures AndWord(0x5445_5355, STATE_TESTING) == STATE_TESTING
  {
    hide AndBits;
    Pow2Of32();
    AndBitsLaws(0x2A22_A9AA, 0x2A22_A9AA, 31);
    LowBitDrops(0x2A22_A9AA, 32);
  }

  lemma LowBitDrops(a: nat, n: nat)
    requires n > 0
    ensures AndBits(2 * a + 1, 2 * a, n) == 2 * AndBits(a, a, n - 1)
  {
  }

  // ---------------------------------------------------------------- an image that hangs

  /** How a boot ended: the power went or the reset pin came during the boot itself, the new
      image hung until the watchdog fired, power or pin ended what was running, or it runs
      on. */
  datatype Ending = CutInBoot | ResetInBoot | Hung | PowerLost | PinReset | RunsOn

  datatype Turn = Turn(after: Snap, req: nat, ending: Ending)

  /** The state the next boot finds: a power-up clears the watchdog flag, the watchdog sets
      it, the pin leaves it. */
  function Next(t: Turn): Snap {
    match t.ending
    case CutInBoot => t.after.(iwdg := false)
    case Hung => t.after.(iwdg := true)
    case PowerLost => t.after.(iwdg := false)
    case _ => t.after
  }

  predicate InBoot(e: Ending) { e.CutInBoot? || e.ResetInBoot? }

  /** One boot with working flash, or the part of it up to where it was cut short.  Under the
      watchdog runs only the new image, which hangs unless it is interrupted. */
  ghost predicate GoodTurn(b: Snap, t: Turn)
    requires Sized(b)
  {
    if InBoot(t.ending) then t.after == b || BootOutcome(b, t.after, t.req, true, false)
    else
      && BootOutcome(b, t.after, t.req, false, false)
      && (t.ending == Hung ==> Chosen(t.req, false) == JumpWatched)
      && (t.ending == RunsOn ==> Chosen(t.req, false) != JumpWatched)
  }

  /** The new image is still being tried; the old one is back and confirmed. */
  predicate Trying(b: Snap, nor: Image) {
    Sized(b) && b.nor == nor && Read(b.meta).state in {STATE_PENDING_UPDATE, STATE_TESTING}
  }

  predicate Recovered(b: Snap, nor: Image) {
    Sized(b) && b.nor == nor && Read(b.meta).state == STATE_CONFIRMED && b.bank2 == Backup(nor)
  }

  /** The record says one of the two. */
  predicate OnTrack(b: Snap, nor: Image) { Trying(b, nor) || Recovered(b, nor) }

  /** Boots still needed when nothing interferes. */
  function Effort(b: Snap): nat { if Read(b.meta).state == STATE_TESTING && b.iwdg then 1 else 2 }

  /** The power or the reset pin came in the way while the new image was being tried. */
  function Interrupted(t: Turn): nat {
    if InBoot(t.ending) || (Chosen(t.req, false) == JumpWatched && t.ending != Hung) then 1 else 0
  }

  /** A boot that is not cut short stays on track; whichever does comes nearer to the end or
      was interrupted; and the rollback boot gets there. */
  lemma TurnProgress(b: Snap, t: Turn)
    requires Trying(b, b.nor) && GoodTurn(b, t) && !NoBackup(b.nor)
    ensures Sized(Next(t)) && Next(t).nor == b.nor
    ensures !InBoot(t.ending) ==> OnTrack(Next(t), b.nor)
    ensures OnTrack(Next(t), b.nor) ==>
      || Recovered(Next(t), b.nor)
      || Effort(Next(t)) + 1 <= Effort(b) + 2 * Interrupted(t)
    ensures !InBoot(t.ending) && Effort(b) == 1 ==> Recovered(Next(t), b.nor)
  {
    hide Stored;
    var m := Read(b.meta);
    ReadStored(m.(state := STATE_TESTING));
    ReadStored(RolledBack(m));
  }

  /** Off the track nothing changes any more: no later boot writes anything. */
  lemma TurnStuck(b: Snap, t: Turn)
    requires Sized(b) && GoodTurn(b, t) && !Trying(b, b.nor)
    ensures Next(t) == b.(iwdg := Next(t).iwdg)
  {
  }

  ghost predicate GoodRun(b: Snap, ts: seq<Turn>)
    decreases |ts|
  {
    |ts| > 0 ==> Sized(b) && GoodTurn(b, ts[0]) && GoodRun(Next(ts[0]), ts[1..])
  }

  function Last(b: Snap, ts: seq<Turn>): Snap
    decreases |ts|
  {
    if |ts| == 0 then b else Last(Next(ts[0]), ts[1..])
  }

  function Interruptions(ts: seq<Turn>): nat
    decreases |ts|
  {
    if |ts| == 0 then 0 else Interrupted(ts[0]) + Interruptions(ts[1..])
  }

  /** After every boot the record reads as PENDING or TESTING, or as CONFIRMED with the backup
      in Bank2. */
  predicate AllOnTrack(ts: seq<Turn>, nor: Image)
    decreases |ts|
  {
    |ts| > 0 ==> OnTrack(Next(ts[0]), nor) && AllOnTrack(ts[1..], nor)
  }

  /** A board that is not trying keeps what it has, for good or ill. */
  lemma {:induction false} RunStuck(b: Snap, ts: seq<Turn>, nor: Image)
    requires Sized(b) && GoodRun(b, ts) && b.nor == nor && !Trying(b, nor)
    ensures Recovered(Last(b, ts), nor) == Recovered(b, nor)
    ensures Recovered(b, nor) ==> AllOnTrack(ts, nor)
    decreases |ts|
  {
    hide GoodTurn;
    if |ts| > 0 {
      TurnStuck(b, ts[0]);
      RunStuck(Next(ts[0]), ts[1..], nor);
    }
  }

  lemma {:induction false} RunProgress(b: Snap, ts: seq<Turn>, nor: Image)
    requires Trying(b, nor) && GoodRun(b, ts) && !NoBackup(nor)
    ensures AllOnTrack(ts, nor) ==>
      || Recovered(Last(b, ts), nor)
      || Effort(Last(b, ts)) + |ts| <= Effort(b) + 2 * Interruptions(ts)
    ensures Recovered(Last(b, ts), nor) ==> AllOnTrack(ts, nor)
    decreases |ts|
  {
    hide GoodTurn, Effort;
    if |ts| > 0 {
      var c := Next(ts[0]);
      TurnProgress(b, ts[0]);
      if Trying(c, nor) {
        RunProgress(c, ts[1..], nor);
      } else {
        RunStuck(c, ts[1..], nor);
      }
    }
  }

  lemma TryingNor(b: Snap, nor: Image)
    requires Trying(b, nor)
    ensures b.nor == nor && Sized(b)
  {
  }

  /** An update whose image always hangs: with a backup and working flash, after 2 boots (1 if
      the watchdog has already fired) and 2 more for every interruption while it was tried,
      the old application is back in Bank2 and confirmed if and only if no interrupted
      metadata write ever left a record that says neither PENDING, nor TESTING, nor the
      truth. */
  lemma HangingImageIsTakenBackIff(b: Snap, ts: seq<Turn>)
    requires Trying(b, b.nor) && !NoBackup(b.nor) && GoodRun(b, ts)
    requires |ts| >= Effort(b) + 2 * Interruptions(ts)
    ensures Recovered(Last(b, ts), b.nor) <==> AllOnTrack(ts, b.nor)
  {
    hide GoodRun, Last, Recovered, NoBackup, Interruptions, Trying, AllOnTrack;
    RunProgress(b, ts, b.nor);
  }

  /** The metadata a boot in state m means to write. */
  function Intended(m: Metadata): Record {
    if m.state == STATE_PENDING_UPDATE then Stored(m.(state := STATE_TESTING)) else Stored(RolledBack(m))
  }

  /** Metadata is written whole or not at all, even when the boot is cut short. */
  predicate WholeWrites(b: Snap, ts: seq<Turn>)
    decreases |ts|
  {
    |ts| > 0 ==>
      && (InBoot(ts[0].ending) ==> ts[0].after.meta in {b.meta, Intended(Read(b.meta))})
      && WholeWrites(Next(ts[0]), ts[1..])
  }

  lemma WholeTurnOnTrack(b: Snap, t: Turn)
    requires Trying(b, b.nor) && GoodTurn(b, t) && !NoBackup(b.nor)
    requires InBoot(t.ending) ==> t.after.meta in {b.meta, Intended(Read(b.meta))}
    ensures OnTrack(Next(t), b.nor)
  {
    hide Stored;
    var m := Read(b.meta);
    ReadStored(m.(state := STATE_TESTING));
    ReadStored(RolledBack(m));
  }

  lemma {:induction false} WholeStaysOnTrack(b: Snap, ts: seq<Turn>, nor: Image)
    requires Trying(b, nor) && !NoBackup(nor) && GoodRun(b, ts) && WholeWrites(b, ts)
    ensures AllOnTrack(ts, nor)
    decreases |ts|
  {
    hide GoodTurn, Recovered, Trying, Intended;
    if |ts| > 0 {
      var c := Next(ts[0]);
      TryingNor(b, nor);
      TurnProgress(b, ts[0]);
      WholeTurnOnTrack(b, ts[0]);
      if Trying(c, nor) {
        WholeStaysOnTrack(c, ts[1..], nor);
      } else {
        RunStuck(c, ts[1..], nor);
      }
    }
  }

  /** So with whole metadata writes it is always taken back. */
  lemma HangingImageIsTakenBack(b: Snap, ts: seq<Turn>)
    requires Trying(b, b.nor) && !NoBackup(b.nor) && GoodRun(b, ts) && WholeWrites(b, ts)
    requires |ts| >= Effort(b) + 2 * Interruptions(ts)
    ensures Recovered(Last(b, ts), b.nor)
  {
    hide GoodRun, Last, Recovered, NoBackup, Interruptions, Trying, AllOnTrack, WholeWrites;
    WholeStaysOnTrack(b, ts, b.nor);
    HangingImageIsTakenBackIff(b, ts);
  }

  /** The shortest such run, there for every pending update: one boot into the hanging image,
      one that rolls it back. */
  lemma TwoBootsTakeItBack(b: Snap) returns (ts: seq<Turn>)
    requires Trying(b, b.nor) && Read(b.meta).state == STATE_PENDING_UPDATE && !NoBackup(b.nor)
    ensures GoodRun(b, ts) && WholeWrites(b, ts) && |ts| == 2 && Interruptions(ts) == 0 && Effort(b) == 2
    ensures Recovered(Last(b, ts), b.nor)
  {
    hide Stored;
    var m := Read(b.meta);
    var tested := m.(state := STATE_TESTING);
    ReadStored(tested);
    ReadStored(RolledBack(tested));
    var first := Turn(b.(meta := Stored(tested)), 1, Hung);
    var c := Next(first);
    var second := Turn(Snap(Backup(b.nor), b.nor, Stored(RolledBack(tested)), false), 2, RunsOn);
    assert GoodTurn(b, first) && GoodTurn(c, second);
    ts := [first, second];
    TwoTurns(b, first, second);
  }

  lemma TwoTurns(b: Snap, x: Turn, y: Turn)
    requires Sized(b) && GoodTurn(b, x) && Sized(Next(x)) && GoodTurn(Next(x), y)
    requires !InBoot(x.ending) && !InBoot(y.ending)
    ensures GoodRun(b, [x, y]) && WholeWrites(b, [x, y]) && Last(b, [x, y]) == Next(y)
    ensures Interruptions([x, y]) == Interrupted(x) + Interrupted(y)
  {
    hide GoodTurn, Interrupted;
    assert [x, y][1..] == [y] && [y][1..] == [];
    assert GoodRun(Next(x), [y]) && Interruptions([y]) == Interrupted(y) && Last(Next(x), [y]) == Next(y);
    assert WholeWrites(Next(x), [y]);
  }

  /** And a run that never recovers, however long: the first boot is cut inside the state
      word, every later one jumps into the hanging image without the watchdog. */
  lemma {:induction false} TornRunNeverRecovers(b: Snap, n: nat) returns (ts: seq<Turn>)
    requires Trying(b, b.nor) && Read(b.meta).state == STATE_PENDING_UPDATE && !NoBackup(b.nor)
    ensures GoodRun(b, ts) && |ts| == n + 1 && Interruptions(ts) == 1
    ensures ts[0].ending == CutInBoot && Torn(Stored(Read(b.meta).(state := STATE_TESTING)), ts[0].after.meta)
    ensures !Recovered(Last(b, ts), b.nor) && !AllOnTrack(ts, b.nor)
  {
    hide Stored, AndWord, Torn;
    var r, req, cut, faulty := b, 0, false, false;
    var w := TornStateJumpsFree(b, r, req, cut, faulty);
    var first := Turn(b.(meta := w), 0, CutInBoot);
    var c := Next(first);
    assert GoodTurn(b, first);
    var rest := FreeJumps(c, n);
    RunStuck(c, rest, b.nor);
    ts := [first] + rest;
    assert ts[1..] == rest;
  }

  lemma {:induction false} FreeJumps(c: Snap, n: nat) returns (ts: seq<Turn>)
    requires Sized(c) && !c.iwdg && Read(c.meta).state == 0x5445_5355
    ensures GoodRun(c, ts) && |ts| == n && Interruptions(ts) == 0
  {
    if n == 0 {
      ts := [];
    } else {
      var first := Turn(c, 2, PowerLost);
      assert GoodTurn(c, first) && Next(first) == c;
      var rest := FreeJumps(c, n - 1);
      ts := [first] + rest;
      assert ts[1..] == rest;
    }
  }

  // ---------------------------------------------------------------- labels

  /** The checksum in the metadata is that of the image it labels. */
  ghost predicate LabelOk(image: Image, size: u32, crc: u32) {
    size <= |image| && Crc.Value(image[..size]) == crc
  }

  ghost predicate CurOk(b: Snap) { LabelOk(b.bank2, Read(b.meta).fwSize, Read(b.meta).crc32) }

  ghost predicate BakOk(b: Snap)
    requires Sized(b)
  {
    LabelOk(Backup(b.nor), Read(b.meta).bakFwSize, Read(b.meta).bakCrc32)
  }

  /** Which of the two labels can be relied on. */
  datatype Trust = Trust(cur: bool, bak: bool)

  ghost predicate Holds(b: Snap, t: Trust)
    requires Sized(b)
  {
    (t.cur ==> CurOk(b)) && (t.bak ==> BakOk(b))
  }

  /** Something done to the board, with how it ended.  A restart is by the watchdog, by a
      power-up, or, being neither, by the pin or by software. */
  datatype Deed =
    | Update(received: nat, crc: u32, v: Version, st: Status, reached: Reached)
    | Backing(copied: bool)
    | Restoring(copied: bool)
    | Booting(req: nat, cut: bool, faulty: bool)
    | AppConfirms
    | Restarts(watchdog: bool, power: bool)

  /** The deed's outcome, its metadata writes having succeeded; an update starts from a
      staged image that passed the read-back check. */
  ghost predicate Happens(b: Snap, d: Deed, r: Snap)
    requires Sized(b)
  {
    match d
    case Update(n, crc, v, st, reached) =>
      n <= OTA_BUF_SIZE && Crc.Value(b.nor[..n]) == crc && OtaOutcome(b, r, n, crc, v, st, reached, true)
    case Backing(copied) => BackupOutcome(b, r, copied, true)
    case Restoring(copied) => RestoreOutcome(b, r, copied, true)
    case Booting(req, cut, faulty) =>
      var m := Read(b.meta);
      && BootOutcome(b, r, req, cut, faulty)
      && (r.meta == b.meta || r.meta == Intended(m))
      && (req == 2 && m.state == STATE_TESTING ==> r.meta == Stored(RolledBack(m)))
    case AppConfirms => r == b.(meta := Stored(Read(b.meta).(state := STATE_CONFIRMED)))
    case Restarts(watchdog, power) => r == b.(iwdg := watchdog || (b.iwdg && !power))
  }

  /** A copy that fails costs only its destination's label. */
  function After(t: Trust, b: Snap, d: Deed): Trust {
    match d
    case Update(_, _, _, _, reached) =>
      if reached == Nothing then Trust(t.cur, false)
      else if reached == BackupDone then Trust(false, t.cur)
      else Trust(true, t.cur)
    case Backing(copied) => Trust(t.cur, copied && t.cur)
    case Restoring(copied) => Trust(copied && t.bak, t.bak)
    case Booting(req, cut, _) =>
      if Read(b.meta).state == STATE_TESTING && b.iwdg then Trust(req == 2 && !cut && t.bak, t.bak) else t
    case AppConfirms => t
    case Restarts(_, _) => t
  }

  lemma UpdateKeepsLabels(b: Snap, n: nat, crc: u32, v: Version, st: Status, reached: Reached, r: Snap, t: Trust)
    requires Sized(b) && Holds(b, t) && n <= OTA_BUF_SIZE && Crc.Value(b.nor[..n]) == crc
    requires OtaOutcome(b, r, n, crc, v, st, reached, true)
    ensures Sized(r) && Holds(r, After(t, b, Update(n, crc, v, st, reached)))
  {
    hide Stored, Crc.Value, Sectors, Labelled;
    var m := Read(b.meta);
    ReadStored(BackedUp(m));
    ReadStored(Updated(BackedUp(m), n, crc, v));
    if reached == Bank2Done {
      assert r.bank2[..n] == b.nor[..n];
    }
  }

  lemma BootKeepsLabels(b: Snap, req: nat, cut: bool, faulty: bool, r: Snap, t: Trust)
    requires Sized(b) && Holds(b, t) && Happens(b, Booting(req, cut, faulty), r)
    ensures Sized(r) && Holds(r, After(t, b, Booting(req, cut, faulty)))
  {
    hide Stored, Crc.Value, LabelOk;
    var m := Read(b.meta);
    ReadStored(RolledBack(m));
    ReadStored(m.(state := STATE_TESTING));
  }

  lemma DeedKeepsLabels(b: Snap, d: Deed, r: Snap, t: Trust)
    requires Sized(b) && Holds(b, t) && Happens(b, d, r)
    ensures Sized(r) && Holds(r, After(t, b, d))
  {
    hide Stored, Crc.Value, BootOutcome, OtaOutcome;
    var m := Read(b.meta);
    match d
    case Update(n, crc, v, st, reached) => UpdateKeepsLabels(b, n, crc, v, st, reached, r, t);
    case Backing(copied) => ReadStored(BackedUp(m));
    case Restoring(copied) => ReadStored(RolledBack(m));
    case Booting(req, cut, faulty) => BootKeepsLabels(b, req, cut, faulty, r, t);
    case AppConfirms => ReadStored(m.(state := STATE_CONFIRMED));
    case Restarts(_, _) =>
  }

  /** Without a record both labels read as those of empty images, which they are. */
  lemma NoRecordHolds(b: Snap)
    requires Sized(b) && b.meta[0] != METADATA_MAGIC
    ensures Holds(b, Trust(true, true))
  {
    assert b.bank2[..0] == [] && Backup(b.nor)[..0] == [];
    assert Crc.Update(0xFFFF_FFFF, []) == 0xFFFF_FFFF;
  }

  datatype Event = Event(deed: Deed, after: Snap)

  ghost predicate History(b: Snap, es: seq<Event>)
    decreases |es|
  {
    |es| > 0 ==> Sized(b) && Happens(b, es[0].deed, es[0].after) && History(es[0].after, es[1..])
  }

  function Final(b: Snap, es: seq<Event>): Snap { if |es| == 0 then b else es[|es| - 1].after }

  function Trusted(t: Trust, b: Snap, es: seq<Event>): Trust
    decreases |es|
  {
    if |es| == 0 then t else Trusted(After(t, b, es[0].deed), es[0].after, es[1..])
  }

  /** Over every run of updates, backups, restores, boots, rollbacks and restarts whose
      metadata writes succeed, the trusted labels are the checksums of what they label. */
  lemma {:induction false} LabelsHold(b: Snap, es: seq<Event>, t: Trust)
    requires Sized(b) && Holds(b, t) && History(b, es)
    ensures Sized(Final(b, es)) && Holds(Final(b, es), Trusted(t, b, es))
    decreases |es|
  {
    hide Happens, Holds, After;
    if |es| > 0 {
      DeedKeepsLabels(b, es[0].deed, es[0].after, t);
      LabelsHold(es[0].after, es[1..], After(t, b, es[0].deed));
    }
  }

  /** The deed came to its end: a copy it makes is complete. */
  predicate Whole(b: Snap, d: Deed) {
    match d
    case Update(_, _, _, _, reached) => reached == Bank2Done
    case Backing(copied) => copied
    case Restoring(copied) => copied
    case Booting(req, cut, _) => Read(b.meta).state == STATE_TESTING && b.iwdg ==> req == 2 && !cut
    case _ => true
  }

  predicate AllWhole(b: Snap, es: seq<Event>)
    decreases |es|
  {
    |es| > 0 ==> Whole(b, es[0].deed) && AllWhole(es[0].after, es[1..])
  }

  /** So both labels are right for good as long as no copy is broken off. */
  lemma {:induction false} WholeRunKeepsLabels(b: Snap, es: seq<Event>)
    requires Sized(b) && CurOk(b) && BakOk(b) && History(b, es) && AllWhole(b, es)
    ensures var r := Final(b, es); Sized(r) && CurOk(r) && BakOk(r)
    decreases |es|
  {
    hide Happens, CurOk, BakOk;
    if |es| > 0 {
      DeedKeepsLabels(b, es[0].deed, es[0].after, Trust(true, true));
      WholeRunKeepsLabels(es[0].after, es[1..]);
    }
  }

  /** An update whose image confirms itself is there to stay: every later boot starts the new
      image, without the watchdog, and changes nothing. */
  lemma ConfirmedUpdateStays(b: Snap, es: seq<Event>)
    requires History(b, es) && |es| >= 3
    requires es[0].deed.Update? && es[0].deed.st == Ok
    requires es[1].deed.Booting? && !es[1].deed.cut && es[2].deed.AppConfirms?
    requires forall k :: 3 <= k < |es| ==> es[k].deed.Booting? || es[k].deed.Restarts?
    ensures Chosen(es[1].deed.req, false) == JumpWatched
    ensures forall k :: 3 <= k < |es| && es[k].deed.Booting? ==> Chosen(es[k].deed.req, false) == JumpFree
    ensures var r, n := Final(b, es), es[0].deed.received;
      n <= |r.bank2| && n <= |b.nor| && r.bank2[..n] == b.nor[..n] && Read(r.meta).state == STATE_CONFIRMED
  {
    hide Stored, Crc.Value, OtaOutcome, Labelled;
    var s1, s2, s3 := es[0].after, es[1].after, es[2].after;
    OneEvent(b, es, 0);
    OneEvent(s1, es, 1);
    OneEvent(s2, es, 2);
    assert es[0..] == es;
    ReadStored(Read(s2.meta).(state := STATE_CONFIRMED));
    var d := es[0].deed;
    ImageLoaded(b, s1, d.received, d.crc, d.v, d.reached, true);
    LabelledIs(s1.meta, d.received, d.crc, d.v);
    ConfirmedStays(s3, es[3..]);
    assert forall k :: 3 <= k < |es| ==> es[k] == es[3..][k - 3];
  }

  lemma {:induction false} ConfirmedStays(b: Snap, es: seq<Event>)
    requires Sized(b) && Read(b.meta).state == STATE_CONFIRMED && History(b, es)
    requires forall k :: 0 <= k < |es| ==> es[k].deed.Booting? || es[k].deed.Restarts?
    ensures forall k :: 0 <= k < |es| && es[k].deed.Booting? ==> Chosen(es[k].deed.req, false) == JumpFree
    ensures var r := Final(b, es); r == b.(iwdg := r.iwdg)
    decreases |es|
  {
    if |es| > 0 { ConfirmedStays(es[0].after, es[1..]); }
  }

  /** Somebody's application is in Bank2: the backup made of it will be taken for one. */
  predicate HasApp(b: Snap)
    requires Sized(b)
  {
    exists i :: 0 <= i < 4 && b.bank2[i] != 0xFF
  }

  lemma BackupOfApp(b: Snap, nor: Image)
    requires Sized(b) && HasApp(b) && |nor| >= BACKUP_OFFSET + APP_SIZE && Backup(nor) == b.bank2
    ensures !NoBackup(nor)
  {
    var i :| 0 <= i < 4 && b.bank2[i] != 0xFF;
    assert Backup(nor)[i] != 0xFF;
  }

  /** An update, a boot into its image, the watchdog, and the boot after that: the old
      application is back, with its label. */
  predicate HangsOnce(es: seq<Event>) {
    && |es| == 4 && es[0].deed.Update? && es[0].deed.st == Ok
    && es[1].deed.Booting? && Chosen(es[1].deed.req, false) == JumpWatched && !es[1].deed.cut
    && es[2].deed.Restarts? && es[2].deed.watchdog
    && es[3].deed.Booting? && Chosen(es[3].deed.req, false) == JumpFree && !es[3].deed.cut
  }

  lemma FourEvents(b: Snap, es: seq<Event>)
    requires |es| == 4
    ensures History(b, es) <==>
      && Sized(b) && Happens(b, es[0].deed, es[0].after)
      && Sized(es[0].after) && Happens(es[0].after, es[1].deed, es[1].after)
      && Sized(es[1].after) && Happens(es[1].after, es[2].deed, es[2].after)
      && Sized(es[2].after) && Happens(es[2].after, es[3].deed, es[3].after)
  {
    hide Happens, Sized, History;
    OneEvent(b, es, 0);
    OneEvent(es[0].after, es, 1);
    OneEvent(es[1].after, es, 2);
    OneEvent(es[2].after, es, 3);
    NoEvent(es[3].after, es);
    assert es[0..] == es;
  }

  lemma OneEvent(b: Snap, es: seq<Event>, k: nat)
    requires k < |es|
    ensures History(b, es[k..]) <==>
      Sized(b) && Happens(b, es[k].deed, es[k].after) && History(es[k].after, es[k + 1..])
    ensures forall t :: Trusted(t, b, es[k..]) == Trusted(After(t, b, es[k].deed), es[k].after, es[k + 1..])
  {
    hide Happens, Sized, After;
    assert es[k..][1..] == es[k + 1..];
  }

  lemma NoEvent(b: Snap, es: seq<Event>)
    ensures History(b, es[|es|..]) && forall t :: Trusted(t, b, es[|es|..]) == t
  {
  }

  lemma RollbackRestores(b: Snap, es: seq<Event>)
    requires History(b, es) && HangsOnce(es)
    ensures var r := Final(b, es); var m, was := Read(r.meta), Read(b.meta);
      && r.bank2 == b.bank2 && m.state == STATE_CONFIRMED
      && m.cur == was.cur && m.crc32 == was.crc32 && m.fwSize == was.fwSize
  {
    hide Stored, Sectors, Labelled, Crc.Value;
    FourEvents(b, es);
    var m := Read(b.meta);
    var d := es[0].deed;
    var updated := Updated(BackedUp(m), d.received, d.crc, d.v);
    ReadStored(updated);
    ReadStored(updated.(state := STATE_TESTING));
    ReadStored(RolledBack(updated.(state := STATE_TESTING)));
  }

  /** There is such a run for every board with an application and a staged image. */
  lemma RollbackHappens(b: Snap, n: nat, crc: u32, v: Version) returns (es: seq<Event>)
    requires Sized(b) && HasApp(b) && n <= OTA_BUF_SIZE && Crc.Value(b.nor[..n]) == crc
    ensures History(b, es) && HangsOnce(es)
    ensures Trusted(Trust(true, true), b, es) == Trust(true, true)
  {
    hide Stored, Sectors, Crc.Value, NoBackup;
    var m := Read(b.meta);
    var nor := b.nor[..BACKUP_OFFSET] + b.bank2 + b.nor[BACKUP_OFFSET + APP_SIZE..];
    BackupOfApp(b, nor);
    var updated := Updated(BackedUp(m), n, crc, v);
    var tested := updated.(state := STATE_TESTING);
    ReadStored(updated);
    ReadStored(tested);
    ReadStored(RolledBack(tested));
    var bank2 := Loaded(Filled(b.bank2, 0, Sectors(n)), b.nor[..n]);
    var s1 := Snap(bank2, nor, Stored(updated), b.iwdg);
    var s2 := s1.(meta := Stored(tested));
    var s3 := s2.(iwdg := true);
    var s4 := Snap(b.bank2, nor, Stored(RolledBack(tested)), false);
    es := [Event(Update(n, crc, v, Ok, Bank2Done), s1), Event(Booting(1, false, false), s2),
           Event(Restarts(true, false), s3), Event(Booting(2, false, false), s4)];
    FourEvents(b, es);
    FourTrusted(b, es);
  }

  lemma FourTrusted(b: Snap, es: seq<Event>)
    requires |es| == 4
    ensures forall t :: Trusted(t, b, es) == After(After(After(After(t, b, es[0].deed), es[0].after, es[1].deed),
                                                         es[1].after, es[2].deed), es[2].after, es[3].deed)
  {
    hide After, Trusted;
    OneEvent(b, es, 0);
    OneEvent(es[0].after, es, 1);
    OneEvent(es[1].after, es, 2);
    OneEvent(es[2].after, es, 3);
    NoEvent(es[3].after, es);
    assert es[0..] == es;
  }

  /** Whatever interrupts it: after an update whose image always hangs, the application that
      was there before the update comes back, if and only if the board stays on track. */
  lemma OldApplicationComesBack(b: Snap, n: nat, crc: u32, v: Version, reached: Reached, metaOk: bool, r: Snap,
                                ts: seq<Turn>)
    requires Sized(b) && HasApp(b) && n <= OTA_BUF_SIZE && OtaOutcome(b, r, n, crc, v, Ok, reached, metaOk)
    requires GoodRun(r, ts) && |ts| >= 2 + 2 * Interruptions(ts)
    ensures var l := Last(r, ts);
      Read(l.meta).state == STATE_CONFIRMED && l.bank2 == b.bank2 && Sized(l) && l.nor == r.nor
      <==> AllOnTrack(ts, r.nor)
  {
    hide Last, Interruptions, GoodRun, AllOnTrack, NoBackup, Stored;
    BackupOfApp(b, r.nor);
    HangingImageIsTakenBackIff(r, ts);
  }
}
