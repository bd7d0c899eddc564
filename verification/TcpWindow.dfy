/** The receive window of a TCP connection (section 4.2.2.16 of RFC 1122): every byte of it
    is accounted for, and what was once announced to the peer is never taken back. */
module TcpWindow {
  import opened Words
  import opened TcpSpec
  import opened TcpStream

  /** Bytes given to the application and not yet reported back. */
  function Unread(c: Pcb): int { |c.delivered| - c.consumed }

  /** The place of a FIN that was received and not yet reported to the application. */
  function FinPlace(c: Pcb): nat { if FinIn(c.state) && !c.eof then 1 else 0 }

  /** Every byte of TCP_WND is free, unread, refused, pending, or the FIN's. */
  predicate Accounted(c: Pcb, pending: nat) {
    && Unread(c) >= 0
    && c.rcvWnd + Unread(c) + |Held(c)| + pending + FinPlace(c) == TCP_WND
  }

  /** The announced edge is at or left of the edge rcv_ann_wnd would announce, which is at
      or left of the real one. */
  predicate EdgesOrdered(c: Pcb, pending: nat, p: Peer) {
    && c.annEdge == Wrap32(p.irs + 1 + c.edge)
    && c.edge <= Pos(c) + pending + c.annWnd <= Pos(c) + pending + c.rcvWnd
  }

  /** rcv_nxt stands for the stream position. */
  predicate Synced(c: Pcb, pending: nat, p: Peer) {
    Active(c.state) ==> c.rcvNxt == Wrap32(p.irs + 1 + (Pos(c) + pending))
  }

  predicate InWindow(c: Pcb, pending: nat, p: Peer) {
    Active(c.state) ==> Accounted(c, pending) && EdgesOrdered(c, pending, p)
  }

  /** No more than half the sequence space was received since an edge was last announced. */
  predicate Recent(c: Pcb, pending: nat, slack: nat) { Active(c.state) ==> Pos(c) + pending + slack - c.edge < HALF }

  function RightEdge(c: Pcb): int { Pos(c) + c.rcvWnd }

  predicate Grows(c: Pcb, d: Pcb) {
    && c.consumed <= d.consumed
    && (c.eof ==> d.eof)
    && (Active(d.state) ==> Active(c.state) && c.edge <= d.edge)
  }

  // ---------------------------------------------------------------- announcing

  lemma UpdateAnnKeeps(c: Pcb, pos: int, p: Peer)
    requires c.rcvNxt == Wrap32(p.irs + 1 + pos) && c.annEdge == Wrap32(p.irs + 1 + c.edge)
    requires c.edge <= pos + c.rcvWnd && c.rcvWnd <= TCP_WND && pos + TCP_WND - c.edge < HALF
    ensures c.edge <= pos + UpdateAnn(c).annWnd <= pos + c.rcvWnd
  {
    hide Wrap32, Diff;
    var b: int := p.irs + 1;
    var m := Min(TCP_WND / 2, c.mss);
    assert 0 <= m <= TCP_WND / 2;
    WrapAdd(b, pos, c.rcvWnd);
    WrapAdd(b, c.edge, m);
    DiffIsDistance(b, pos + c.rcvWnd, c.edge + m);
    DiffIsDistance(b, pos, c.edge);
    if pos <= c.edge {
      DiffIsDistance(b, c.edge, pos);
      assert Wrap16(c.edge - pos) == c.edge - pos;
    }
  }

  lemma UpdateAnnFrame(c: Pcb)
    ensures UpdateAnn(c) == c.(annWnd := UpdateAnn(c).annWnd)
  {
    hide Wrap32, Diff;
  }

  // ---------------------------------------------------------------- tcp_recved

  /** A report of no more than what is unread; and not an empty one while the window is
      closed after the peer's FIN, which the source takes for an overflow. */
  predicate Honest(c: Pcb, r: Report) {
    r.len <= Unread(c) && !(r.len == 0 && c.rcvWnd == 0 && (c.state == CLOSE_WAIT || c.state == LAST_ACK))
  }

  /** Exactly the honest reports keep the account. */
  lemma RecvedAccounted(c: Pcb, r: Report)
    requires Active(c.state) && Accounted(c, 0)
    ensures Accounted(Recved(c, r), 0) <==> Honest(c, r)
  {
    hide Recved, Wrap32;
    RecvedFrame(c, r);
    RecvedWindow(c, r);
  }

  /** It does happen: a window closed by 2919 refused bytes and the FIN behind them, all of
      the invariants holding, and an empty report. */
  lemma EmptyReportOverflows(p: Peer, mss: u16) returns (c: Pcb)
    requires |p.stream| == 2919
    ensures c.state == CLOSE_WAIT && c.rcvWnd == 0 && InStream(c, [], false, p) && InWindow(c, 0, p)
    ensures var d := Recved(c, Report(0, false)); d.rcvWnd == TCP_WND && !Accounted(d, 0)
  {
    hide Wrap32;
    var nxt := Wrap32(p.irs + 1 + 2920);
    c := Pcb(CLOSE_WAIT, nxt, 0, 0, nxt, mss, false, Some(Refused(p.stream, true)), [], 0, false, 2920);
    RecvedAccounted(c, Report(0, false));
    RecvedWindow(c, Report(0, false));
  }

  lemma RecvedWindow(c: Pcb, r: Report)
    ensures Recved(c, r).rcvWnd == Reopened(c, r.len) && Recved(c, r).consumed == c.consumed + r.len
  {
    hide Wrap32, Inflation, Diff, Signed, Reopened;
  }

  lemma RecvedInWindow(c: Pcb, r: Report, p: Peer)
    requires Synced(c, 0, p) && InWindow(c, 0, p) && (Active(c.state) ==> Honest(c, r))
    requires Recent(c, 0, TCP_WND)
    ensures var d := Recved(c, r); InWindow(d, 0, p) && Recent(d, 0, TCP_WND) && Grows(c, d)
  {
    hide Wrap32, Inflation, UpdateAnn;
    RecvedFrame(c, r);
    RecvedWindow(c, r);
    if Active(c.state) {
      var d := c.(rcvWnd := Reopened(c, r.len), consumed := c.consumed + r.len);
      UpdateAnnKeeps(d, Pos(c), p);
      UpdateAnnFrame(d);
      WrapAdd(p.irs + 1, Pos(c), UpdateAnn(d).annWnd);
    }
  }

  predicate HonestAll(c: Pcb, reports: seq<Report>)
    decreases |reports|
  {
    |reports| > 0 ==> (Active(c.state) ==> Honest(c, reports[0])) && HonestAll(Recved(c, reports[0]), reports[1..])
  }

  lemma {:induction false} RecvedAllInWindow(c: Pcb, reports: seq<Report>, p: Peer)
    requires Synced(c, 0, p) && InWindow(c, 0, p) && HonestAll(c, reports)
    requires Recent(c, 0, TCP_WND)
    ensures var d := RecvedAll(c, reports); InWindow(d, 0, p) && Recent(d, 0, TCP_WND) && Grows(c, d)
    decreases |reports|
  {
    hide Recved, InWindow, Recent, Honest, Wrap32;
    if |reports| > 0 {
      RecvedFrame(c, reports[0]);
      RecvedInWindow(c, reports[0], p);
      RecvedAllInWindow(Recved(c, reports[0]), reports[1..], p);
    }
  }

  // ---------------------------------------------------------------- the callbacks

  predicate HonestOffer(c: Pcb, data: seq<u8>, reply: Reply) {
    reply.Accept? ==> HonestAll(c.(delivered := c.delivered + data, refused := None), reply.reports)
  }

  predicate HonestFin(c: Pcb, reply: Reply) { reply.Accept? ==> HonestAll(FinCounted(c), reply.reports) }

  lemma OfferInWindow(c: Pcb, data: seq<u8>, fin: bool, gotFin: bool, reply: Reply, p: Peer)
    requires InStream(c, data, fin || gotFin, p) && |data| > 0 && c.refused.None? && !(fin && gotFin)
    requires InWindow(c, |data|, p) && HonestOffer(c, data, reply) && Recent(c, |data|, TCP_WND)
    ensures var d := Offer(c, data, fin, reply); InWindow(d, 0, p) && Recent(d, 0, TCP_WND) && Grows(c, d)
  {
    hide Wrap32;
    if reply.Accept? {
      var d := c.(delivered := c.delivered + data, refused := None);
      RecvedAllInWindow(d, reply.reports, p);
    }
  }

  lemma ReportFinInWindow(c: Pcb, reply: Reply, p: Peer)
    requires InStream(c, [], true, p) && c.refused.None?
    requires InWindow(c, 0, p) && HonestFin(c, reply) && Recent(c, 0, TCP_WND)
    ensures var d := ReportFin(c, reply); InWindow(d, 0, p) && Recent(d, 0, TCP_WND) && Grows(c, d)
  {
    hide Wrap32;
    if reply.Accept? {
      RecvedAllInWindow(FinCounted(c), reply.reports, p);
    }
  }

  predicate HonestRetry(c: Pcb, a: Reply, b: Reply) {
    c.refused.Some? ==>
      var r := c.refused.value;
      && HonestOffer(c.(refused := None), r.data, a)
      && (a.Accept? && r.fin ==> HonestFin(Offer(c, r.data, r.fin, a), b))
  }

  lemma RetryInWindow(c: Pcb, a: Reply, b: Reply, p: Peer)
    requires InStream(c, [], false, p) && InWindow(c, 0, p) && HonestRetry(c, a, b) && Recent(c, 0, TCP_WND)
    ensures var d := RetryRefused(c, a, b); InWindow(d, 0, p) && Recent(d, 0, TCP_WND) && Grows(c, d)
  {
    hide Wrap32, ReportFin, HonestFin;
    if c.refused.Some? {
      var r := c.refused.value;
      var taken := c.(refused := None);
      OfferInStream(taken, r.data, r.fin, false, a, p);
      OfferInWindow(taken, r.data, r.fin, false, a, p);
      if a.Accept? {
        RecvedAllFrame(c.(delivered := c.delivered + r.data, refused := None), a.reports);
        if r.fin {
          ReportFinInWindow(Offer(taken, r.data, r.fin, a), b, p);
        }
      }
    }
  }

  predicate HonestDeliver(r: Received, e: Env) {
    r.pcb.state != GONE && !(|r.data| > 0 && r.pcb.rxClosed) ==>
      var d := if |r.data| > 0 then Offer(r.pcb, r.data, false, e.recv) else r.pcb;
      && (|r.data| > 0 ==> HonestOffer(r.pcb, r.data, e.recv))
      && (d.state != GONE && r.gotFin && d.refused.None? ==> HonestFin(d, e.fin))
  }

  lemma DeliverInWindow(r: Received, e: Env, p: Peer)
    requires InStream(r.pcb, r.data, r.gotFin, p) && (r.gotFin ==> r.pcb.refused.None?)
    requires InWindow(r.pcb, |r.data|, p) && HonestDeliver(r, e) && Recent(r.pcb, |r.data|, TCP_WND)
    ensures var d := Deliver(r, e); InWindow(d, 0, p) && Grows(r.pcb, d)
  {
    hide Wrap32, ReportFin, HonestFin;
    if r.pcb.state != GONE && !(|r.data| > 0 && r.pcb.rxClosed) {
      var d := r.pcb;
      if |r.data| > 0 {
        d := Offer(r.pcb, r.data, false, e.recv);
        OfferInStream(r.pcb, r.data, false, r.gotFin, e.recv, p);
        OfferInWindow(r.pcb, r.data, false, r.gotFin, e.recv, p);
      }
      if d.state != GONE && r.gotFin && d.refused.None? {
        ReportFinInWindow(d, e.fin, p);
      }
    }
  }

  // ---------------------------------------------------------------- segments

  lemma ReceiveInWindow(c: Pcb, s: Seg, at: int, p: Peer)
    requires InStream(c, [], false, p) && Active(c.state) && (SegLen(s) > 0 ==> c.refused.None?)
    requires c.state != SYN_RCVD && Cut(s, at, p) && Near(s, at, Pos(c)) && !s.syn
    requires InWindow(c, 0, p) && Recent(c, 0, 2 * TCP_WND)
    ensures var r := Receive(c, s);
      var d := r.pcb.(state := if r.gotFin then CLOSE_WAIT else c.state);
      InWindow(d, |r.data|, p) && Recent(d, |r.data|, TCP_WND) && Grows(c, r.pcb)
    ensures var r := Receive(c, s); r.pcb.state == c.state && (r.gotFin ==> TakesText(c.state))
  {
    hide Wrap32, Receive, UpdateAnn;
    ReceiveIntersects(c, s, at, Pos(c), p);
    var r := Receive(c, s);
    if TakesText(c.state) && Covers(s, at, Pos(c)) && c.rcvWnd > 0 {
      var len := Admitted(c, s, at, Pos(c)) + (if AdmitsFin(c, s, at, Pos(c)) then 1 else 0);
      var d := c.(rcvNxt := Wrap32(p.irs + 1 + (Pos(c) + len)), rcvWnd := c.rcvWnd - len);
      UpdateAnnFrame(d);
      UpdateAnnKeeps(d, Pos(c) + len, p);
    }
  }

  lemma SettledInWindow(r: Received, s: Seg, e: Env, p: Peer)
    requires var d := r.pcb.(state := if r.gotFin then CLOSE_WAIT else r.pcb.state);
      InWindow(d, |r.data|, p) && Recent(d, |r.data|, TCP_WND)
    requires Active(r.pcb.state) && (r.gotFin ==> TakesText(r.pcb.state))
    ensures var q := Settled(r, s, e);
      InWindow(q.pcb, |q.data|, p) && Recent(q.pcb, |q.data|, TCP_WND) && Grows(r.pcb, q.pcb)
  {
    hide Wrap32;
  }

  lemma ProcessInWindow(c: Pcb, s: Seg, e: Env, at: int, p: Peer)
    requires InStream(c, [], false, p) && Active(c.state) && (SegLen(s) > 0 ==> c.refused.None?)
    requires Cut(s, at, p) && Near(s, at, Pos(c))
    requires !SynData(c, s, e) && InWindow(c, 0, p) && Recent(c, 0, 2 * TCP_WND)
    ensures var r := Process(c, s, e);
      InWindow(r.pcb, |r.data|, p) && Recent(r.pcb, |r.data|, TCP_WND) && Grows(c, r.pcb)
  {
    hide Wrap32, Receive, Settled;
    if s.rst || (s.syn && c.state != SYN_RCVD) {
    } else if c.state != SYN_RCVD {
      ReceiveInWindow(c, s, at, p);
      SettledInWindow(Receive(c, s), s, e, p);
    } else if s.ack && e.ackOk && e.accepted {
      var d := c.(state := ESTABLISHED);
      if s.syn {
        SynIgnored(d, s, p);
      } else {
        ReceiveInWindow(d, s, at, p);
      }
      SettledInWindow(Receive(d, s), s, e, p);
    }
  }

  // ---------------------------------------------------------------- runs

  /** The application reports honestly in every callback and outside them, and the peer has
      been told of the window lately enough for wrapped comparisons to mean something. */
  predicate HonestStep(c: Pcb, ev: Event) {
    && Recent(c, 0, 2 * TCP_WND)
    && match ev
      case Segment(s, _, e) =>
        var d := RetryRefused(c, e.retry, e.retryFin);
        && HonestRetry(c, e.retry, e.retryFin)
        && (d.state != GONE && !(d.refused.Some? && SegLen(s) > 0) ==> HonestDeliver(Process(d, s, e), e))
      case Reported(r) => Honest(c, r)
      case FastTimer(a, b) => HonestRetry(c, a, b)
      case _ => true
  }

  lemma InputInWindow(c: Pcb, s: Seg, e: Env, at: int, p: Peer)
    requires InStream(c, [], false, p) && Legal(c, Segment(s, at, e), p) && Active(c.state)
    requires InWindow(c, 0, p) && HonestStep(c, Segment(s, at, e))
    ensures InWindow(Input(c, s, e), 0, p) && Grows(c, Input(c, s, e))
  {
    hide Wrap32, Process, Deliver, RetryRefused, Cut, Near, SynData, HonestRetry, HonestDeliver;
    RetryInStream(c, e.retry, e.retryFin, p);
    RetryKeepsRcvNxt(c, e.retry, e.retryFin);
    RetryInWindow(c, e.retry, e.retryFin, p);
    var d := RetryRefused(c, e.retry, e.retryFin);
    if d.state != GONE && !(d.refused.Some? && SegLen(s) > 0) {
      ProcessInStream(d, s, e, at, p);
      ProcessInWindow(d, s, e, at, p);
      DeliverInWindow(Process(d, s, e), e, p);
    }
  }

  lemma StepInWindow(c: Pcb, ev: Event, p: Peer)
    requires InStream(c, [], false, p) && Legal(c, ev, p) && Active(c.state)
    requires InWindow(c, 0, p) && HonestStep(c, ev)
    ensures InWindow(Step(c, ev), 0, p) && Grows(c, Step(c, ev))
  {
    hide Wrap32, Input, RetryRefused, Recved;
    match ev
    case Segment(s, at, e) => InputInWindow(c, s, e, at, p);
    case Reported(r) => RecvedInWindow(c, r, p);
    case FastTimer(a, b) => RetryInWindow(c, a, b, p);
    case Output => WrapAdd(p.irs + 1, Pos(c), c.annWnd);
    case Closed(queued) =>
    case ShutTx(queued) =>
  }

  predicate HonestRun(c: Pcb, evs: seq<Event>, p: Peer)
    requires LegalRun(c, evs, p)
    decreases |evs|
  {
    |evs| > 0 ==> (Active(c.state) ==> HonestStep(c, evs[0])) && HonestRun(Step(c, evs[0]), evs[1..], p)
  }

  lemma {:induction false} RunInWindow(c: Pcb, evs: seq<Event>, p: Peer)
    requires InStream(c, [], false, p) && InWindow(c, 0, p) && LegalRun(c, evs, p) && HonestRun(c, evs, p)
    ensures InWindow(Run(c, evs, p), 0, p) && Grows(c, Run(c, evs, p))
    decreases |evs|
  {
    hide Step, InWindow, InStream, Recent;
    if |evs| > 0 {
      var d := Step(c, evs[0]);
      StepInStream(c, evs[0], p);
      if Active(c.state) {
        StepInWindow(c, evs[0], p);
      } else {
        Idle(c, evs[0], p);
      }
      RunInWindow(d, evs[1..], p);
    }
  }

  lemma Idle(c: Pcb, ev: Event, p: Peer)
    requires !Active(c.state) && Legal(c, ev, p)
    ensures Step(c, ev) == c
  {
  }

  /** From any point of a run where the invariants hold - a fresh connection, for one - they
      go on holding: all of TCP_WND is accounted for, neither the right edge of the window
      nor the announced one moves left, and the edge the stack would announce next lies
      between them. */
  lemma WindowNeverShrinks(c: Pcb, evs: seq<Event>, p: Peer)
    requires InStream(c, [], false, p) && InWindow(c, 0, p) && LegalRun(c, evs, p) && HonestRun(c, evs, p)
    ensures var d := Run(c, evs, p);
      Active(d.state) ==>
        && d.rcvWnd + Unread(d) + |Held(d)| + FinPlace(d) == TCP_WND
        && RightEdge(c) <= RightEdge(d)
        && c.edge <= d.edge <= Pos(d) + d.annWnd <= RightEdge(d)
  {
    hide Step, Wrap32, LegalRun, HonestRun, Run;
    RunInStream(c, evs, p);
    RunInWindow(c, evs, p);
  }

  /** Where every run begins. */
  lemma FreshInWindow(p: Peer, mss: u16)
    ensures InStream(Fresh(p.irs, mss), [], false, p) && InWindow(Fresh(p.irs, mss), 0, p)
  {
  }
}
