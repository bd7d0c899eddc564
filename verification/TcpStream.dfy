/** What the application of a TCP connection gets to see of the peer's stream
    (section 3.9 of RFC 793): over every run, an exact prefix of it. */
module TcpStream {
  import opened Words
  import opened TcpSpec

  const HALF: int := 0x8000_0000

  /** The peer's side: its initial sequence number and every byte it will ever send. */
  datatype Peer = Peer(irs: u32, stream: seq<u8>)

  /** A segment cut from the stream at offset `at`, within half the sequence space of `pos`.
      A SYN takes the place before byte 0. */
  predicate Cut(s: Seg, at: int, p: Peer) {
    && s.seqno == Wrap32(p.irs + 1 + at)
    && (if s.syn then at == -1 && s.data <= p.stream
        else 0 <= at && at + |s.data| <= |p.stream| && s.data == p.stream[at..at + |s.data|])
    && (s.fin ==> (if s.syn then 0 else at) + |s.data| == |p.stream|)
  }

  predicate Near(s: Seg, at: int, pos: int) {
    -HALF < pos - at - SegLen(s) && pos - at < HALF && |s.data| < 0xffff
  }

  /** Half the sequence space is as far as it goes: one byte exactly that far behind is taken
      for the next one of the stream. */
  lemma HalfBehindIsTaken(c: Pcb, s: Seg)
    requires TakesText(c.state) && 0 < c.rcvWnd <= TCP_WND && |s.data| == 1 && !s.syn && !s.fin
    requires s.seqno == Wrap32(c.rcvNxt - HALF)
    ensures Receive(c, s).data == s.data && Receive(c, s).pcb.rcvNxt == Wrap32(c.rcvNxt + 1)
  {
    hide Wrap32, Diff;
    var n: int := c.rcvNxt;
    WrapAdd(n, -HALF, 1);
    WrapAdd(n, -HALF, 0);
    DiffIsDistance(n, 0, 1 - HALF);
    HalfDiff(c.rcvNxt);
    DiffIsDistance(n, 0, 0);
    DiffIsDistance(n, 0, c.rcvWnd - 1);
  }

  /** The difference of half the space is the smallest number, not the largest. */
  lemma HalfDiff(n: u32)
    ensures Diff(n, Wrap32(n - HALF)) == -HALF && Wrap32(n - Wrap32(n - HALF)) == HALF && Wrap32(n) == n
    ensures Wrap32(Wrap32(n - HALF)) == Wrap32(n - HALF)
  {
  }

  /** The end of the stream is known here: told to the application, held with refused
      data, or about to be reported. */
  predicate EndSeen(c: Pcb, gotFin: bool) { c.eof || gotFin || (c.refused.Some? && c.refused.value.fin) }

  /** The invariant, with `pending` bytes and `gotFin` received but not yet offered. */
  predicate InStream(c: Pcb, pending: seq<u8>, gotFin: bool, p: Peer) {
    && Given(c) + pending <= p.stream
    && (EndSeen(c, gotFin) ==> |Given(c) + pending| == |p.stream|)
    && (c.eof ==> c.refused.None? && pending == [] && !gotFin)
    && (c.refused.Some? ==> |c.refused.value.data| > 0 && pending == [] && !(c.refused.value.fin && gotFin))
    && (Active(c.state) ==>
          c.rcvNxt == Wrap32(p.irs + 1 + (Pos(c) + |pending|)) && (FinIn(c.state) <==> EndSeen(c, gotFin)))
    && (c.state == SYN_RCVD ==> Given(c) == [] && pending == [])
  }

  // ---------------------------------------------------------------- one segment

  /** The new bytes of a segment at stream offset `at` for a receiver at `pos` with room for
      `wnd`: nothing unless it covers pos. */
  predicate Covers(s: Seg, at: int, pos: int) { at <= pos < at + SegLen(s) }

  /** What of it the window admits: the bytes, and the FIN if there is room for it too. */
  function Admitted(c: Pcb, s: Seg, at: int, pos: int): int { Min(at + |s.data| - pos, c.rcvWnd) }

  predicate AdmitsFin(c: Pcb, s: Seg, at: int, pos: int) { s.fin && at + |s.data| - pos < c.rcvWnd }

  /** The trimming of tcp_receive, in wrapped 32-bit arithmetic, is an intersection of
      intervals of the stream. */
  lemma ReceiveIntersects(c: Pcb, s: Seg, at: int, pos: nat, p: Peer)
    requires Cut(s, at, p) && !s.syn && Near(s, at, pos)
    requires c.rcvNxt == Wrap32(p.irs + 1 + pos)
    ensures var r := Receive(c, s);
      if TakesText(c.state) && Covers(s, at, pos) && c.rcvWnd > 0 then
        var n, fin := Admitted(c, s, at, pos), AdmitsFin(c, s, at, pos);
        && 0 <= n && pos + n <= |p.stream|
        && r.data == p.stream[pos..pos + n]
        && r.gotFin == fin
        && (fin ==> pos + n == |p.stream|)
        && Moved(c, r.pcb, Wrap32(p.irs + 1 + (pos + n + (if fin then 1 else 0))), n + (if fin then 1 else 0))
      else r == Received(c, [], false)
  {
    hide Wrap32, Diff, TakeText, UpdateAnn, FrontTrimmed, Cut, SegLen;
    var b: int := p.irs + 1;
    FrontIsCut(c, s, at, pos, p);
    if TakesText(c.state) && Covers(s, at, pos) {
      var t := FrontTrimmed(c.rcvNxt, s);
      DiffIsDistance(b, pos, pos);
      WrapAdd(b, pos, c.rcvWnd - 1);
      DiffIsDistance(b, pos, pos + c.rcvWnd - 1);
      if c.rcvWnd > 0 {
        TakeTextIs(c, t, pos, p);
      }
    }
  }

  lemma FrontIsCut(c: Pcb, s: Seg, at: int, pos: nat, p: Peer)
    requires Cut(s, at, p) && !s.syn && Near(s, at, pos) && c.rcvNxt == Wrap32(p.irs + 1 + pos)
    ensures var t := FrontTrimmed(c.rcvNxt, s);
      && (SegLen(s) > 0 ==> (t.seqno == c.rcvNxt <==> Covers(s, at, pos)))
      && (Covers(s, at, pos) ==>
            Cut(t, pos, p) && pos + |t.data| == at + |s.data| && t.fin == s.fin && !t.syn && t.seqno == c.rcvNxt)
    ensures Covers(s, at, pos) ==>
      && SegLen(s) > 0 && SegLen(FrontTrimmed(c.rcvNxt, s)) > 0
      && at + |s.data| <= |p.stream| && (s.fin ==> at + |s.data| == |p.stream|)
  {
    hide Wrap32, Diff;
    FrontCompares(c, s, at, pos, p);
  }

  /** The pcb after `len` sequence numbers were accepted. */
  predicate Moved(c: Pcb, d: Pcb, rcvNxt: u32, len: nat) {
    && len <= c.rcvWnd
    && d == UpdateAnn(c.(rcvNxt := rcvNxt, rcvWnd := c.rcvWnd - len))
  }

  /** The wrapped comparisons at the front of a segment decide what they are meant to. */
  lemma FrontCompares(c: Pcb, s: Seg, at: int, pos: nat, p: Peer)
    requires s.seqno == Wrap32(p.irs + 1 + at) && Near(s, at, pos)
    requires c.rcvNxt == Wrap32(p.irs + 1 + pos)
    ensures SegLen(s) > 0 ==> (TrimsFront(c.rcvNxt, s) <==> at < pos < at + SegLen(s))
    ensures TrimsFront(c.rcvNxt, s) && SegLen(s) > 0 ==> FrontOffset(c.rcvNxt, s) == pos - at
    ensures s.seqno == c.rcvNxt <==> at == pos
  {
    hide Wrap32, Diff;
    var b: int := p.irs + 1;
    DiffIsDistance(b, pos, at);
    if SegLen(s) > 0 {
      WrapAdd(b, at, 1);
      WrapAdd(b, at, SegLen(s) - 1);
      DiffIsDistance(b, pos, at + 1);
      DiffIsDistance(b, pos, at + SegLen(s) - 1);
    }
  }

  /** An in-order segment is accepted as far as the window reaches. */
  lemma TakeTextIs(c: Pcb, t: Seg, pos: nat, p: Peer)
    requires Cut(t, pos, p) && !t.syn && c.rcvNxt == t.seqno && SegLen(t) > 0 && c.rcvWnd > 0
    ensures var r, n, fin := TakeText(c, t), Min(|t.data|, c.rcvWnd), t.fin && |t.data| < c.rcvWnd;
      && r.data == p.stream[pos..pos + n]
      && r.gotFin == fin
      && Moved(c, r.pcb, Wrap32(p.irs + 1 + (pos + n + (if fin then 1 else 0))), n + (if fin then 1 else 0))
  {
    hide Wrap32, UpdateAnn;
    WrapAdd(p.irs + 1, pos, SegLen(TailTrimmed(c, t)));
  }

  // ---------------------------------------------------------------- processing

  /** The one segment that loses a byte: a retransmitted SYN carrying data and completing
      the handshake, whose first byte is cut off as if it were the SYN. */
  predicate SynData(c: Pcb, s: Seg, e: Env) {
    c.state == SYN_RCVD && s.syn && !s.rst && s.ack && e.ackOk && e.accepted && |s.data| > 0 && c.rcvWnd > 0
  }

  /** A SYN without data, or with data no window admits, changes nothing. */
  lemma SynIgnored(c: Pcb, s: Seg, p: Peer)
    requires Cut(s, -1, p) && s.syn && Near(s, -1, 0)
    requires c.rcvNxt == Wrap32(p.irs + 1) && (s.data == [] || c.rcvWnd == 0)
    ensures Receive(c, s) == Received(c, [], false)
  {
    hide Wrap32, Diff, TakeText, UpdateAnn;
    FrontCompares(c, s, -1, 0, p);
    if |s.data| > 0 {
      DiffIsDistance(p.irs + 1, 0, 0);
      WrapAdd(p.irs + 1, 0, -1);
      DiffIsDistance(p.irs + 1, 0, -1);
    }
  }

  /** The text of a segment keeps the invariant. */
  lemma ReceiveInStream(c: Pcb, s: Seg, at: int, p: Peer)
    requires InStream(c, [], false, p) && Active(c.state) && (SegLen(s) > 0 ==> c.refused.None?)
    requires c.state != SYN_RCVD && Cut(s, at, p) && Near(s, at, Pos(c))
    requires !s.syn
    ensures var r := Receive(c, s);
      InStream(r.pcb.(state := if r.gotFin then CLOSE_WAIT else c.state), r.data, r.gotFin, p)
    ensures var r := Receive(c, s); r.pcb.state == c.state && r.pcb.refused == c.refused
    ensures Receive(c, s).gotFin ==> TakesText(c.state) && c.refused.None?
  {
    hide Wrap32, Receive;
    ReceiveIntersects(c, s, at, Pos(c), p);
    assert TakesText(c.state) || Receive(c, s) == Received(c, [], false);
  }

  lemma SettledInStream(r: Received, s: Seg, e: Env, p: Peer)
    requires InStream(r.pcb.(state := if r.gotFin then CLOSE_WAIT else r.pcb.state), r.data, r.gotFin, p)
    requires r.gotFin ==> TakesText(r.pcb.state) && r.pcb.refused.None?
    requires Active(r.pcb.state) && r.pcb.state != SYN_RCVD
    ensures var q := Settled(r, s, e);
      InStream(q.pcb, q.data, q.gotFin, p) && (q.gotFin ==> q.pcb.refused.None?)
  {
    hide Wrap32;
  }

  /** The text of a segment and the state switch after it. */
  lemma TextInStream(c: Pcb, s: Seg, e: Env, at: int, p: Peer)
    requires InStream(c, [], false, p) && Active(c.state) && (SegLen(s) > 0 ==> c.refused.None?)
    requires c.state != SYN_RCVD && Cut(s, at, p) && Near(s, at, Pos(c)) && !s.syn
    ensures var r := Settled(Receive(c, s), s, e);
      InStream(r.pcb, r.data, r.gotFin, p) && (r.gotFin ==> r.pcb.refused.None?)
  {
    hide Wrap32, Receive, Settled, InStream, Pos;
    ReceiveInStream(c, s, at, p);
    SettledInStream(Receive(c, s), s, e, p);
  }

  /** A state change that brings in no FIN. */
  lemma StateInStream(c: Pcb, st: State, p: Peer)
    requires InStream(c, [], false, p) && (st == GONE || (c.state == SYN_RCVD && st == ESTABLISHED))
    ensures InStream(c.(state := st), [], false, p) && Pos(c.(state := st)) <= Pos(c)
    ensures st != GONE ==> Pos(c.(state := st)) == Pos(c)
  {
  }

  /** The handshake's last segment, and the text it brings. */
  lemma HandshakeInStream(c: Pcb, s: Seg, e: Env, at: int, p: Peer)
    requires InStream(c, [], false, p) && c.state == SYN_RCVD
    requires Cut(s, at, p) && Near(s, at, Pos(c))
    requires s.syn ==> s.data == [] || c.rcvWnd == 0
    ensures var r := Settled(Receive(c.(state := ESTABLISHED), s), s, e);
      InStream(r.pcb, r.data, r.gotFin, p) && (r.gotFin ==> r.pcb.refused.None?)
  {
    var d := c.(state := ESTABLISHED);
    StateInStream(c, ESTABLISHED, p);
    FreshRefusedNone(c, p);
    hide Wrap32, Receive, InStream, Pos;
    if s.syn {
      SynIgnored(d, s, p);
    } else {
      TextInStream(d, s, e, at, p);
    }
  }

  lemma FreshRefusedNone(c: Pcb, p: Peer)
    requires InStream(c, [], false, p) && c.state == SYN_RCVD
    ensures c.refused.None? && Pos(c) == 0 && c.rcvNxt == Wrap32(p.irs + 1)
  {
  }

  /** tcp_process keeps the invariant. */
  lemma ProcessInStream(c: Pcb, s: Seg, e: Env, at: int, p: Peer)
    requires InStream(c, [], false, p) && Active(c.state) && (SegLen(s) > 0 ==> c.refused.None?)
    requires Cut(s, at, p) && Near(s, at, Pos(c))
    requires !SynData(c, s, e)
    ensures var r := Process(c, s, e);
      InStream(r.pcb, r.data, r.gotFin, p) && (r.gotFin ==> r.pcb.refused.None?)
  {
    hide Wrap32, Receive, Settled, InStream, Pos, Cut, Near;
    StateInStream(c, GONE, p);
    if s.rst || (s.syn && c.state != SYN_RCVD) {
    } else if c.state != SYN_RCVD {
      TextInStream(c, s, e, at, p);
    } else if s.ack && e.ackOk && e.accepted {
      HandshakeInStream(c, s, e, at, p);
    }
  }

  /** What tcp_receive makes of it: the cut takes byte 0, the SYN still counts. */
  lemma SynDataTrimmed(c: Pcb, s: Seg, p: Peer)
    requires c.rcvNxt == Wrap32(p.irs + 1) && TakesText(c.state) && c.rcvWnd > 0
    requires Cut(s, -1, p) && Near(s, -1, 0) && s.syn && |s.data| > 0
    ensures var r := Receive(c, s);
      && |r.data| < |s.data| && r.data == s.data[1..][..|r.data|]
      && r.pcb.rcvNxt == Wrap32(p.irs + 1 + (|r.data| + 1))
      && (r.gotFin ==> |r.data| + 1 == |p.stream|)
      && r.pcb.state == c.state && r.pcb.refused == c.refused && Given(r.pcb) == Given(c)
  {
    hide Wrap32, Diff;
    var b: int := p.irs + 1;
    FrontCompares(c, s, -1, 0, p);
    DiffIsDistance(b, 0, 0);
    WrapAdd(b, 0, c.rcvWnd - 1);
    DiffIsDistance(b, 0, c.rcvWnd - 1);
    var u := TailTrimmed(c, FrontTrimmed(c.rcvNxt, s));
    assert SegLen(u) == |u.data| + 1;
    WrapAdd(b, 0, SegLen(u));
  }

  /** A segment of SynData's kind breaks it: rcv_nxt is past a byte nobody was given. */
  lemma SynDataLosesByte(c: Pcb, s: Seg, e: Env, p: Peer)
    requires InStream(c, [], false, p) && Cut(s, -1, p) && Near(s, -1, Pos(c))
    requires SynData(c, s, e)
    ensures var r := Process(c, s, e);
      && |r.data| < |p.stream| && r.data == p.stream[1..][..|r.data|]
      && !InStream(r.pcb, r.data, r.gotFin, p)
  {
    hide Wrap32, Receive;
    var d := c.(state := ESTABLISHED);
    SynDataTrimmed(d, s, p);
    var n := |Receive(d, s).data|;
    DiffIsDistance(p.irs + 1, n + 1, n);
  }

  /** Exactly those segments break it. */
  lemma ProcessInStreamIff(c: Pcb, s: Seg, e: Env, at: int, p: Peer)
    requires InStream(c, [], false, p) && Active(c.state) && (SegLen(s) > 0 ==> c.refused.None?)
    requires Cut(s, at, p) && Near(s, at, Pos(c))
    ensures var r := Process(c, s, e); InStream(r.pcb, r.data, r.gotFin, p) <==> !SynData(c, s, e)
  {
    hide Process, InStream;
    if SynData(c, s, e) {
      SynDataLosesByte(c, s, e, p);
    } else {
      ProcessInStream(c, s, e, at, p);
    }
  }

  /** It does happen: the peer's SYN sent again with its data, acknowledging ours, to a fresh
      connection. */
  lemma SynDataHappens(p: Peer, mss: u16, e: Env) returns (s: Seg)
    requires 0 < |p.stream| < 1000 && e.ackOk && e.accepted
    ensures var c := Fresh(p.irs, mss);
      && s.data == p.stream && SynData(c, s, e) && InStream(c, [], false, p)
      && Cut(s, -1, p) && Near(s, -1, Pos(c))
      && var r := Process(c, s, e); r.data == p.stream[1..] && !InStream(r.pcb, r.data, r.gotFin, p)
  {
    hide Diff, Receive;
    var c := Fresh(p.irs, mss);
    s := Seg(p.irs, p.stream, true, false, false, true);
    FrontCompares(c, s, -1, 0, p);
    SynDataLosesByte(c, s, e, p);
    SynDataWhole(c.(state := ESTABLISHED), s, p);
  }

  lemma SynDataWhole(c: Pcb, s: Seg, p: Peer)
    requires c.rcvNxt == Wrap32(p.irs + 1) && TakesText(c.state) && 0 < |s.data| <= c.rcvWnd
    requires Cut(s, -1, p) && Near(s, -1, 0) && s.syn
    ensures Receive(c, s).data == s.data[1..]
  {
    hide Wrap32, Diff, UpdateAnn;
    var b: int := p.irs + 1;
    FrontCompares(c, s, -1, 0, p);
    DiffIsDistance(b, 0, 0);
    WrapAdd(b, 0, c.rcvWnd - 1);
    DiffIsDistance(b, 0, c.rcvWnd - 1);
  }

  // ---------------------------------------------------------------- delivery

  lemma RecvedAllInStream(c: Pcb, reports: seq<Report>, p: Peer)
    requires InStream(c, [], false, p)
    ensures InStream(RecvedAll(c, reports), [], false, p)
  {
    RecvedAllFrame(c, reports);
  }

  lemma OfferInStream(c: Pcb, data: seq<u8>, fin: bool, gotFin: bool, reply: Reply, p: Peer)
    requires InStream(c, data, fin || gotFin, p) && |data| > 0 && c.refused.None? && !(fin && gotFin)
    ensures var d := Offer(c, data, fin, reply);
      InStream(d, [], (if reply.Refuse? then gotFin else if reply.Abort? then false else fin || gotFin), p)
  {
    if reply.Accept? {
      RecvedAllFrame(c.(delivered := c.delivered + data, refused := None), reply.reports);
    }
  }

  /** Reporting the end: the application then has the whole stream. */
  lemma ReportFinInStream(c: Pcb, reply: Reply, p: Peer)
    requires InStream(c, [], true, p) && c.refused.None?
    ensures InStream(ReportFin(c, reply), [], false, p)
  {
    if reply.Accept? {
      RecvedAllInStream(FinCounted(c), reply.reports, p);
    }
  }

  lemma RetryInStream(c: Pcb, a: Reply, b: Reply, p: Peer)
    requires InStream(c, [], false, p)
    ensures var d := RetryRefused(c, a, b);
      && InStream(d, [], false, p)
      && (d.state == GONE || (d.state == c.state && Pos(d) == Pos(c)))
  {
    if c.refused.Some? {
      var r := c.refused.value;
      var taken := c.(refused := None);
      OfferInStream(taken, r.data, r.fin, false, a, p);
      if a.Accept? {
        RecvedAllFrame(c.(delivered := c.delivered + r.data, refused := None), a.reports);
        if r.fin {
          var d := Offer(taken, r.data, r.fin, a);
          ReportFinInStream(d, b, p);
          if b.Accept? {
            RecvedAllFrame(FinCounted(d), b.reports);
          }
        }
      }
    }
  }

  lemma DeliverInStream(r: Received, e: Env, p: Peer)
    requires InStream(r.pcb, r.data, r.gotFin, p) && (r.gotFin ==> r.pcb.refused.None?)
    ensures InStream(Deliver(r, e), [], false, p)
  {
    if r.pcb.state != GONE && !(|r.data| > 0 && r.pcb.rxClosed) {
      var d := r.pcb;
      if |r.data| > 0 {
        d := Offer(r.pcb, r.data, false, e.recv);
        OfferInStream(r.pcb, r.data, false, r.gotFin, e.recv, p);
      }
      if d.state != GONE && r.gotFin && d.refused.None? {
        ReportFinInStream(d, e.fin, p);
      }
    }
  }

  // ---------------------------------------------------------------- runs

  /** What a run may contain: segments of the peer's stream near rcv_nxt, in any order and
      any number of times, none of them of SynData's kind; anything else at will. */
  predicate Legal(c: Pcb, ev: Event, p: Peer) {
    ev.Segment? ==>
      && Cut(ev.s, ev.at, p) && Near(ev.s, ev.at, Pos(c))
      && !SynData(RetryRefused(c, ev.e.retry, ev.e.retryFin), ev.s, ev.e)
  }

  lemma StepInStream(c: Pcb, ev: Event, p: Peer)
    requires InStream(c, [], false, p) && Legal(c, ev, p)
    ensures InStream(Step(c, ev), [], false, p)
  {
    hide Wrap32, Process, Deliver, RetryRefused, Recved, Cut, Near;
    if Active(c.state) {
      match ev
      case Segment(s, at, e) =>
        RetryInStream(c, e.retry, e.retryFin, p);
        RetryKeepsRcvNxt(c, e.retry, e.retryFin);
        var d := RetryRefused(c, e.retry, e.retryFin);
        if d.state != GONE && !(d.refused.Some? && SegLen(s) > 0) {
          ProcessInStream(d, s, e, at, p);
          DeliverInStream(Process(d, s, e), e, p);
        }
      case Reported(r) => RecvedFrame(c, r);
      case FastTimer(a, b) => RetryInStream(c, a, b, p);
      case Output =>
      case Closed(queued) =>
      case ShutTx(queued) =>
    }
  }

  predicate LegalRun(c: Pcb, evs: seq<Event>, p: Peer)
    decreases |evs|
  {
    |evs| == 0 || (Legal(c, evs[0], p) && LegalRun(Step(c, evs[0]), evs[1..], p))
  }

  function Run(c: Pcb, evs: seq<Event>, p: Peer): Pcb
    requires LegalRun(c, evs, p)
    decreases |evs|
  {
    if |evs| == 0 then c else Run(Step(c, evs[0]), evs[1..], p)
  }

  /** A pcb made by tcp_listen_input for a SYN with sequence number irs. */
  function Fresh(irs: u32, mss: u16): Pcb {
    Pcb(SYN_RCVD, Wrap32(irs + 1), TCP_WND, TCP_WND, Wrap32(irs + 1), mss, false, None, [], 0, false, 0)
  }

  /** Whatever arrives and however the application answers: the bytes it was given,
      followed by those it refused, are a prefix of the peer's stream; rcv_nxt stands right
      after them, and after the FIN once the whole stream is in; the end is reported only
      to an application that has everything. */
  lemma DeliveredIsPrefix(irs: u32, mss: u16, evs: seq<Event>, p: Peer)
    requires p.irs == irs && LegalRun(Fresh(irs, mss), evs, p)
    ensures var c := Run(Fresh(irs, mss), evs, p);
      && c.delivered + Held(c) <= p.stream
      && (c.eof ==> c.delivered == p.stream)
      && (Active(c.state) ==>
            && c.rcvNxt == Wrap32(irs + 1 + (|c.delivered + Held(c)| + (if FinIn(c.state) then 1 else 0)))
            && (FinIn(c.state) ==> c.delivered + Held(c) == p.stream))
  {
    RunInStream(Fresh(irs, mss), evs, p);
  }

  lemma {:induction false} RunInStream(c: Pcb, evs: seq<Event>, p: Peer)
    requires InStream(c, [], false, p) && LegalRun(c, evs, p)
    ensures InStream(Run(c, evs, p), [], false, p)
    decreases |evs|
  {
    if |evs| > 0 {
      StepInStream(c, evs[0], p);
      RunInStream(Step(c, evs[0]), evs[1..], p);
    }
  }
}
