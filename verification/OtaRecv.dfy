/** Receiving an image over TCP and staging it (ota/ota.c): the callbacks, and the step of
    the main loop that checks and stages what they stored. */
module OtaRecv {
  import opened Flash
  import opened BootSpec
  import opened Ota
  import opened Words
  import B = Boot
  import Crc

  const OTA_MAGIC := 0x0041_544F
  const ESC := 27 as char

  datatype OtaState = IDLE | RECEIVING | VERIFY | CONFIRM | DONE | ERROR

  /** A little-endian 32-bit word. */
  function Le32(d: Image): nat
    requires |d| == 4
  {
    d[0] as nat + 0x100 * (d[1] as nat) + 0x1_0000 * (d[2] as nat) + 0x100_0000 * (d[3] as nat)
  }

  /** What the bytes of a connection mean, read in one go: an 8-byte header of magic and
      length, then the image. */
  datatype Parsed = Header | Bad | Payload(expected: nat, image: Image)

  function Parse(all: Image): Parsed {
    if |all| < 8 then Header
    else if Le32(all[..4]) != OTA_MAGIC then Bad
    else if |all| - 8 > OTA_BUF_SIZE then Bad
    else Payload(Le32(all[4..8]), all[8..])
  }

  /** What a sender puts on the wire: the bytes of "OTA" and a NUL, the length with its lowest
      byte first, the image. */
  predicate Wire(all: Image, n: u32, image: Image) {
    && |all| == 8 + |image|
    && all[..4] == [0x4F, 0x54, 0x41, 0x00]
    && all[4] as nat == n % 0x100
    && all[5] as nat == n / 0x100 % 0x100
    && all[6] as nat == n / 0x1_0000 % 0x100
    && all[7] as nat == n / 0x100_0000
    && all[8..] == image
  }

  /** Exactly such bytes are a header: what overflows the buffer of 512 KB is refused. */
  lemma WireParses(all: Image, n: u32, image: Image)
    requires Wire(all, n, image)
    ensures Parse(all) == if |image| <= 0x8_0000 then Payload(n, image) else Bad
  {
    Digits(n);
    MagicBytes(all[..4]);
    assert all[4..8] == [all[4], all[5], all[6], all[7]];
  }

  /** A number is the sum of its bytes. */
  lemma Digits(n: u32)
    ensures n == n % 0x100 + 0x100 * (n / 0x100 % 0x100) + 0x1_0000 * (n / 0x1_0000 % 0x100)
              + 0x100_0000 * (n / 0x100_0000)
    ensures n / 0x100_0000 < 0x100
  {
    assert n / 0x1_0000 == n / 0x100 / 0x100 && n / 0x100_0000 == n / 0x1_0000 / 0x100;
  }

  lemma MagicBytes(d: Image)
    requires |d| == 4
    ensures Le32(d) == OTA_MAGIC <==> d == [0x4F, 0x54, 0x41, 0x00]
  {
    FourBytes(d[0] as nat, d[1] as nat, d[2] as nat, d[3] as nat);
    assert d == [d[0], d[1], d[2], d[3]];
  }

  lemma FourBytes(a: nat, b: nat, c: nat, d: nat)
    requires a < 0x100 && b < 0x100 && c < 0x100 && d < 0x100
    ensures a + 0x100 * b + 0x1_0000 * c + 0x100_0000 * d == 0x0041_544F <==>
      a == 0x4F && b == 0x54 && c == 0x41 && d == 0
  {
  }

  /** Fewer than 8 bytes wait for more; any other first four are refused. */
  lemma OtherHeadRefused(all: Image)
    ensures |all| < 8 <==> Parse(all) == Header
    ensures |all| >= 8 && all[..4] != [0x4F, 0x54, 0x41, 0x00] ==> Parse(all) == Bad
    ensures |all| >= 8 && all[..4] == [0x4F, 0x54, 0x41, 0x00] && |all| <= 0x8_0008 ==> Parse(all).Payload?
  {
    hide Le32;
    if |all| >= 8 { MagicBytes(all[..4]); }
  }

  /** A stream that is refused stays refused, whatever follows. */
  lemma BadStays(all: Image, more: Image)
    requires Parse(all) == Bad
    ensures Parse(all + more) == Bad
  {
    assert (all + more)[..4] == all[..4];
  }

  function Concat(pieces: seq<Image>): Image { if |pieces| == 0 then [] else pieces[0] + Concat(pieces[1..]) }

  lemma ConcatEnds(pieces: seq<Image>)
    ensures pieces[0..] == pieces && Concat(pieces[|pieces|..]) == []
  {
  }

  lemma ConcatAt(pieces: seq<Image>, i: nat)
    requires i < |pieces|
    ensures Concat(pieces[i..]) == pieces[i] + Concat(pieces[i + 1..])
  {
  }

  /** Copying into an array, one byte after the other (memcpy). */
  method CopyInto(a: array<bv8>, at: nat, d: Image)
    requires at + |d| <= a.Length
    modifies a
    ensures a[..at] == old(a[..at]) && a[at..at + |d|] == d
  {
    for i := 0 to |d|
      invariant a[..at] == old(a[..at]) && a[at..at + i] == d[..i]
    {
      a[at + i] := d[i];
    }
    assert d[..|d|] == d;
  }

  class Receiver {
    const stage: array<bv8>
    const buf: array<bv8>
    var state: OtaState
    var headerParsed: bool
    var expected: nat
    var received: nat
    /** Every byte handed to the callback since the server was started. */
    ghost var all: Image

    /** OTA_Server_Start. */
    constructor ()
      ensures Valid() && state == RECEIVING && all == [] && fresh(stage) && fresh(buf)
    {
      stage := new bv8[8];
      buf := new bv8[OTA_BUF_SIZE];
      state, headerParsed, expected, received := RECEIVING, false, 0, 0;
      all := [];
    }

    ghost predicate Valid()
      reads this, stage, buf
    {
      && stage != buf && stage.Length == 8 && buf.Length == OTA_BUF_SIZE
      && (if headerParsed then received <= OTA_BUF_SIZE else received <= 8 && expected == 0)
      && (!headerParsed && received == 8 ==> Le32(stage[..4]) != OTA_MAGIC && state == ERROR)
      && (if Parse(all) == Bad then state == ERROR else Agrees(all))
    }

    /** The fields hold what the bytes mean. */
    ghost predicate Agrees(bytes: Image)
      reads this, stage, buf
      requires stage.Length == 8 && buf.Length == OTA_BUF_SIZE
    {
      match Parse(bytes)
      case Header => !headerParsed && received == |bytes| < 8 && stage[..received] == bytes
      case Bad => false
      case Payload(n, image) => headerParsed && expected == n && received == |image| && buf[..received] == image
    }

    /** ota_recv_cb with data: the payloads of a pbuf chain, each of 16-bit length.  Every way
        of cutting a stream into chains and pbufs ends in what Parse says of the whole. */
    method RecvCb(pieces: seq<Image>)
      requires Valid() && forall i :: 0 <= i < |pieces| ==> |pieces[i]| <= 0xffff
      modifies this, stage, buf
      ensures Valid() && all == old(all) + Concat(pieces)
      ensures state == (if Parse(all) == Bad then ERROR else old(state))
    {
      RefusedIsError();
      hide Parse, Concat, Receiver.Valid;
      var q := 0;
      ConcatEnds(pieces);
      while q < |pieces|
        invariant q <= |pieces| && Valid() && all + Concat(pieces[q..]) == old(all) + Concat(pieces)
        invariant state == (if Parse(all) == Bad then ERROR else old(state))
      {
        ConcatAt(pieces, q);
        if Parse(all) == Bad { BadStays(all, pieces[q]); }
        var ok := TakePbuf(pieces[q]);
        q := q + 1;
        if !ok {
          Drop(Concat(pieces[q..]));
          return;
        }
      }
    }

    lemma RefusedIsError()
      requires Valid()
      ensures Parse(all) == Bad ==> state == ERROR
    {
    }

    /** Bytes after a refusal change nothing. */
    ghost method Drop(rest: Image)
      requires Valid() && Parse(all) == Bad
      modifies `all
      ensures Valid() && all == old(all) + rest && Parse(all) == Bad
    {
      BadStays(all, rest);
      all := all + rest;
    }

    /** One pbuf: false when the stream is refused and the rest is dropped. */
    method TakePbuf(data0: Image) returns (ok: bool)
      requires Valid() && |data0| <= 0xffff
      modifies this, stage, buf
      ensures Valid() && all == old(all) + data0
      ensures !ok ==> Parse(all) == Bad
      ensures state == (if Parse(all) == Bad then ERROR else old(state))
    {
      hide Parse, Le32;
      ghost var before := all;
      all := all + data0;
      if Parse(before) == Bad { BadStays(before, data0); }
      if received + |data0| > OTA_BUF_SIZE {
        if Parse(before) != Bad { Overflows(before, data0); }
        state := ERROR;
        return false;
      }
      var data, len := data0, |data0|;
      ghost var seen := before;
      while len > 0
        invariant Bounded() && len == |data| && all == before + data0 == seen + data
        invariant headerParsed ==> received + len <= OTA_BUF_SIZE
        invariant !headerParsed && received == 8 ==> Parse(before) == Bad
        invariant state == old(state) && (Parse(before) == Bad ==> state == ERROR)
        invariant Parse(before) != Bad ==> Parse(seen) != Bad && Agrees(seen)
        decreases len
      {
        if !headerParsed {
          var bad, take := TakeHeader(data, seen);
          if bad {
            assert all == seen + data;
            state := ERROR;
            return false;
          }
          SplitAt(seen, data, take);
          seen := seen + data[..take];
          data, len := data[take..], len - take;
        } else {
          TakePayload(data, seen);
          SplitAt(seen, data, len);
          seen := seen + data;
          data, len := [], 0;
        }
      }
      assert seen + data == seen;
      return true;
    }

    /** The peer closed the connection (ota_recv_cb without a pbuf). */
    method Disconnect()
      requires Valid()
      modifies `state
      ensures Valid()
      ensures old(state) == RECEIVING ==>
        state == (match Parse(all)
                  case Payload(n, image) => if n != 0 && |image| >= n then VERIFY else ERROR
                  case _ => ERROR)
      ensures old(state) != RECEIVING ==> state == old(state)
    {
      hide Le32, Parse;
      if state == RECEIVING {
        if expected != 0 && received >= expected {
          state := VERIFY;
        } else {
          state := ERROR;
        }
      }
    }

    /** ota_err_cb. */
    method ErrCb()
      requires Valid()
      modifies `state
      ensures Valid() && state == (if old(state) == RECEIVING then ERROR else old(state))
    {
      hide Le32, Parse;
      if state == RECEIVING {
        state := ERROR;
      }
    }

    /** OTA_Poll in state VERIFY: the image is checked against the expected checksum, staged
        and read back.  It reaches CONFIRM exactly when both checks succeed, and does so when
        the checksum is right and no flash operation fails. */
    method Poll(b: B.Board, crcExpected: u32) returns (cut: bool)
      requires Valid() && b.Valid() && state == VERIFY
      modifies `state, b.qspi.chip
      ensures Valid() && b.Valid()
      ensures SameOutside(old(b.qspi.chip.mem), b.qspi.chip.mem, 0, STAGING_SIZE)
      ensures b.qspi.chip.faults >= old(b.qspi.chip.faults)
      ensures if cut then b.qspi.chip.faults > old(b.qspi.chip.faults) else state in {CONFIRM, ERROR}
      ensures state == CONFIRM ==>
        Crc.Value(buf[..received]) == crcExpected && Crc.Value(b.qspi.chip.mem[..received]) == crcExpected
      ensures state == ERROR ==>
        Crc.Value(buf[..received]) != crcExpected || b.qspi.chip.faults > old(b.qspi.chip.faults)
      ensures state == CONFIRM && b.qspi.chip.faults == old(b.qspi.chip.faults) ==>
        b.qspi.chip.mem[..received] == buf[..received]
    {
      hide AndRange, Toward, Parse, Le32;
      ghost var before := b.qspi.chip.mem;
      cut := false;
      var crc := Crc.Calculate(buf[..received]);
      if (crc as int) != crcExpected {
        state := ERROR;
        return;
      }
      var st := Stage(b, buf[..received]);
      if st == Ok {
        var readBack;
        st, readBack := ReadBack(b, received);
        if st == Ok {
          state := if readBack == crcExpected then CONFIRM else ERROR;
          return;
        }
      }
      if st == Cut {
        return true;
      }
      state := ERROR;
    }

    /** OTA_Server_Stop and OTA_ResetState, as far as the state goes. */
    method Stop()
      requires Valid()
      modifies `state
      ensures state == IDLE && (Parse(all) != Bad ==> Valid())
    {
      hide Le32, Parse;
      state := IDLE;
    }

    /** The CONFIRM prompt of interactive_mode, for one key.  A reset follows only a complete
        update, and then Bank2 holds an image with the checksum its label carries. */
    method Confirm(b: B.Board, key: char, crc: u32, v: Version)
      returns (reset: bool, cut: bool, ghost reached: Reached, ghost metaOk: bool)
      requires Valid() && b.Valid() && state == CONFIRM
      requires Crc.Value(b.qspi.chip.mem[..received]) == crc
      modifies `state, b, b.qspi.chip, b.bank2
      ensures Valid() && b.Valid()
      ensures b.bank2.mem == old(b.bank2.mem) || Backup(b.qspi.chip.mem) == old(b.bank2.mem)
      ensures key !in {'y', 'Y'} ==> b.View() == old(b.View()) && !reset && !cut
      ensures key in {'y', 'Y'} ==> b.Faults() >= old(b.Faults()) && (!reset ==> b.Faults() > old(b.Faults()))
      ensures !cut ==> state == (if reset then DONE else if key in {'y', 'Y', 'n', 'N', ESC} then IDLE else CONFIRM)
      ensures reset ==>
        && OtaOutcome(old(b.View()), b.View(), received, crc, v, Ok, reached, metaOk)
        && Labelled(b.meta, received, crc, v) && Crc.Value(b.bank2.mem[..received]) == crc
        && b.bank2.mem[..received] == old(b.qspi.chip.mem[..received])
    {
      hide Crc.Value, Parse, Labelled, Le32, OtaOutcome;
      reset, cut, reached, metaOk := false, false, Nothing, true;
      if key == 'y' || key == 'Y' {
        var st;
        st, reached, metaOk := OtaFlashWrite(b, received, crc, v);
        if st == Ok {
          state := DONE;
          reset := true;
          ImageLoaded(old(b.View()), b.View(), received, crc, v, reached, metaOk);
        } else if st == Cut {
          cut := true;
        } else {
          Stop();
        }
      } else if key == 'n' || key == 'N' || key == ESC {
        Stop();
      }
    }

    ghost predicate Bounded()
      reads this, stage, buf
    {
      && stage != buf && stage.Length == 8 && buf.Length == OTA_BUF_SIZE
      && (if headerParsed then received <= OTA_BUF_SIZE else received <= 8 && expected == 0)
      && (!headerParsed && received == 8 ==> Le32(stage[..4]) != OTA_MAGIC)
    }

    /** All the rest of a pbuf belongs to the image. */
    method TakePayload(data: Image, ghost seen: Image)
      requires Bounded() && headerParsed && received + |data| <= OTA_BUF_SIZE
      modifies `received, buf
      ensures Bounded() && received == old(received) + |data|
      ensures Parse(seen) != Bad && old(Agrees(seen)) ==> Parse(seen + data) != Bad && Agrees(seen + data)
    {
      hide Parse, Le32;
      if Parse(seen).Payload? && |Parse(seen).image| + |data| <= OTA_BUF_SIZE { PayloadGrows(seen, data); }
      ghost var r0 := received;
      CopyInto(buf, received, data);
      received := received + |data|;
      assert buf[..received] == buf[..r0] + buf[r0..received];
    }

    /** As much of the header as the pbuf holds, and its check once it is whole. */
    method TakeHeader(data: Image, ghost seen: Image) returns (bad: bool, take: nat)
      requires Bounded() && !headerParsed && 0 < |data| <= 0xffff
      requires received == 8 || |data| <= OTA_BUF_SIZE
      modifies `received, `expected, `headerParsed, stage
      ensures Bounded() && take <= |data|
      ensures bad ==> !headerParsed && received == 8
      ensures bad && old(received) < 8 && old(stage[..received]) == seen && old(received) == |seen|
        ==> Parse(seen + data) == Bad
      ensures !bad ==> old(received) < 8 && take > 0
      ensures !bad ==> if headerParsed then received == 0 else received < 8
      ensures !bad && old(stage[..received]) == seen && old(received) == |seen| ==>
        Parse(seen + data[..take]) != Bad && Agrees(seen + data[..take])
    {
      hide OTA_MAGIC;
      var need := 8 - received;
      take := if |data| < need then |data| else need;
      ghost var r0 := received;
      CopyInto(stage, received, data[..take]);
      received := received + take;
      bad := false;
      ghost var bytes := seen + data[..take];
      assert stage[..received] == stage[..r0] + stage[r0..received];
      if received == 8 {
        assert stage[..8][..4] == stage[..4] && stage[..8][4..8] == stage[4..8];
        if Le32(stage[..4]) != OTA_MAGIC {
          assert r0 < 8 && stage[..8] == bytes ==> (seen + data)[..4] == stage[..4];
          return true, take;
        }
        expected := Le32(stage[4..]);
        received := 0;
        headerParsed := true;
        assert stage[4..] == stage[4..8] && buf[..0] == [];
        assert |bytes| == 8 ==> bytes[8..] == [];
      }
    }
  }

  function Streamed(chains: seq<seq<Image>>): Image {
    if |chains| == 0 then [] else Concat(chains[0]) + Streamed(chains[1..])
  }

  lemma StreamedAt(chains: seq<seq<Image>>, i: nat)
    requires i < |chains|
    ensures Streamed(chains[i..]) == Concat(chains[i]) + Streamed(chains[i + 1..])
  {
    assert chains[i..][1..] == chains[i + 1..];
  }

  /** A whole connection: the server is started, a sender's stream arrives in any number of
      chains, cut anywhere, and the sender closes.  The image is there, ready to be verified,
      unless it is shorter than announced, empty or too long. */
  method Connection(chains: seq<seq<Image>>, ghost n: u32, ghost image: Image) returns (r: Receiver)
    requires forall i, j :: 0 <= i < |chains| && 0 <= j < |chains[i]| ==> |chains[i][j]| <= 0xffff
    ensures r.Valid() && fresh(r) && r.all == Streamed(chains)
    ensures Wire(Streamed(chains), n, image) ==>
      && r.state == (if 0 < n <= |image| <= 0x8_0000 then VERIFY else ERROR)
      && (|image| <= 0x8_0000 ==> r.expected == n && r.received == |image| && r.buf[..r.received] == image)
    ensures |Streamed(chains)| < 8 || Streamed(chains)[..4] != [0x4F, 0x54, 0x41, 0x00] ==> r.state == ERROR
  {
    hide Le32, Wire;
    r := new Receiver();
    assert chains[0..] == chains;
    for i := 0 to |chains|
      invariant r.Valid() && fresh(r) && fresh(r.stage) && fresh(r.buf)
      invariant r.all + Streamed(chains[i..]) == Streamed(chains)
      invariant r.state == (if Parse(r.all) == Bad then ERROR else RECEIVING)
    {
      StreamedAt(chains, i);
      if Parse(r.all) == Bad { BadStays(r.all, Concat(chains[i])); }
      r.RecvCb(chains[i]);
    }
    if Wire(r.all, n, image) { WireParses(r.all, n, image); }
    OtherHeadRefused(r.all);
    r.Disconnect();
  }

  /** Staging: 2 MB erased - a failure is only reported - then the image written, once more
      after a failure. */
  method Stage(b: B.Board, d: Image) returns (st: Status)
    requires b.Valid() && |d| <= OTA_BUF_SIZE
    modifies b.qspi.chip
    ensures b.Valid() && SameOutside(old(b.qspi.chip.mem), b.qspi.chip.mem, 0, STAGING_SIZE)
    ensures b.qspi.chip.faults >= old(b.qspi.chip.faults)
    ensures st != Ok ==> b.qspi.chip.faults > old(b.qspi.chip.faults)
    ensures st == Ok && b.qspi.chip.faults == old(b.qspi.chip.faults) ==> b.qspi.chip.mem[..|d|] == d
  {
    st := b.qspi.EraseBlocks(0, STAGING_SIZE);
    if st == Cut {
      return;
    }
    ghost var erased := st == Ok;
    st := b.qspi.Init();
    if st != Ok {
      return;
    }
    ghost var m := b.qspi.chip.mem;
    st := b.qspi.Write(d, 0);
    TowardOutside(m, 0, d, b.qspi.chip.mem);
    if st == Err {
      ghost var n := b.qspi.chip.mem;
      st := b.qspi.Init();
      if st == Cut {
        return;
      }
      st := b.qspi.Write(d, 0);
      TowardOutside(n, 0, d, b.qspi.chip.mem);
    }
    if erased {
      ErasedTakes(m, 0, d);
      assert AndRange(m, 0, d)[0..0 + |d|] == AndRange(m, 0, d)[..|d|];
    }
  }

  lemma NextChunk(m: Image, off: nat, n: nat)
    requires off + n <= |m|
    ensures Crc.Update(0xFFFF_FFFF, m[..off + n]) == Crc.Update(Crc.Update(0xFFFF_FFFF, m[..off]), m[off..off + n])
  {
    hide Crc.Update;
    Crc.UpdateConcat(0xFFFF_FFFF, m[..off], m[off..off + n]);
    assert m[..off] + m[off..off + n] == m[..off + n];
  }

  /** The checksum of the staged image, read 64 bytes at a time. */
  method ReadBack(b: B.Board, n: nat) returns (st: Status, crc: u32)
    requires b.Valid() && n <= OTA_BUF_SIZE
    modifies b.qspi.chip`faults
    ensures b.Valid()
    ensures st == Ok ==> crc == Crc.Value(b.qspi.chip.mem[..n])
    ensures b.qspi.chip.faults >= old(b.qspi.chip.faults)
    ensures st != Ok ==> b.qspi.chip.faults > old(b.qspi.chip.faults)
  {
    crc := 0;
    var crcRb: bv32 := 0xFFFF_FFFF;
    var off: nat := 0;
    ghost var m := b.qspi.chip.mem;
    assert m[..0] == [];
    assert Crc.Update(0xFFFF_FFFF, []) == 0xFFFF_FFFF;
    hide Crc.Update;
    while off < n
      invariant b.Valid() && off <= n && crcRb == Crc.Update(0xFFFF_FFFF, m[..off])
      invariant b.qspi.chip.faults >= old(b.qspi.chip.faults)
    {
      var chunk := if n - off < 64 then n - off else 64;
      var tmp;
      st, tmp := b.qspi.Read(off, chunk);
      if st != Ok {
        return;
      }
      crcRb := Crc.UpdateChunk(crcRb, tmp);
      NextChunk(m, off, chunk);
      off := off + chunk;
    }
    return Ok, Crc.Xor(crcRb, 0xFFFF_FFFF) as int;
  }

  /** What CONFIRM is worth: a staged image that differs from the received one only within
      four consecutive bytes never passes. */
  lemma CorruptStagingRejected(received: Image, staged: Image, crcExpected: u32, i: nat)
    requires |staged| == |received| && i <= |staged| && staged != received && staged[..i] == received[..i]
    requires i + 4 <= |staged| ==> staged[i + 4..] == received[i + 4..]
    requires Crc.Value(received) == crcExpected
    ensures Crc.Value(staged) != crcExpected
  {
    hide Crc.Value, Crc.Crc32;
    Crc.BurstDetected(staged, received, i);
    if Crc.Value(staged) == Crc.Value(received) {
      Crc.ValueInjective(staged, received);
    }
  }

  /** A whole update: a sender's stream arrives, cut anywhere, its image is checked and staged,
      and the user answers 'y'.  With the right checksum and no failing operation the board
      reset is one with the image in Bank2, labelled, and the old application in the backup;
      without a failing operation a wrong checksum changes nothing but the staging area. */
  method WholeUpdate(chains: seq<seq<Image>>, b: B.Board, crc: u32, v: Version, ghost n: u32, ghost image: Image)
    returns (reset: bool)
    requires forall i, j :: 0 <= i < |chains| && 0 <= j < |chains[i]| ==> |chains[i][j]| <= 0xffff
    requires Wire(Streamed(chains), n, image) && 0 < n <= |image| <= 0x8_0000 && b.Valid()
    modifies b, b.qspi.chip, b.bank2
    ensures b.Valid() && b.Faults() >= old(b.Faults())
    ensures b.Faults() == old(b.Faults()) ==> (reset <==> Crc.Value(image) == crc)
    ensures b.Faults() == old(b.Faults()) && reset ==>
      && b.bank2.mem[..|image|] == image && Labelled(b.meta, |image|, crc, v)
      && b.qspi.chip.mem[0x20_0000..0x30_0000] == old(b.bank2.mem)
    ensures b.Faults() == old(b.Faults()) && !reset ==> b.bank2.mem == old(b.bank2.mem) && b.meta == old(b.meta)
    ensures reset ==> Labelled(b.meta, |image|, crc, v) && Crc.Value(b.bank2.mem[..|image|]) == crc
  {
    hide Wire, Le32, Parse, Crc.Value, Labelled;
    reset := false;
    var r := Connection(chains, n, image);
    var cut := r.Poll(b, crc);
    if cut || r.state == ERROR {
      return;
    }
    ghost var reached, metaOk;
    reset, cut, reached, metaOk := r.Confirm(b, 'y', crc, v);
  }

  lemma SplitAt(seen: Image, data: Image, n: nat)
    requires n <= |data|
    ensures seen + data == seen + data[..n] + data[n..]
    ensures n == |data| ==> seen + data == seen + data + []
  {
  }

  lemma Overflows(seen: Image, data: Image)
    requires Parse(seen).Payload? && |Parse(seen).image| + |data| > OTA_BUF_SIZE
    ensures Parse(seen + data) == Bad
  {
  }

  lemma PayloadGrows(seen: Image, data: Image)
    requires Parse(seen).Payload? && |Parse(seen).image| + |data| <= OTA_BUF_SIZE
    ensures Parse(seen + data).Payload? && Parse(seen + data).expected == Parse(seen).expected
    ensures Parse(seen + data).image == Parse(seen).image + data
  {
    assert (seen + data)[..4] == seen[..4] && (seen + data)[4..8] == seen[4..8];
  }
}