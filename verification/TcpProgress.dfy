/** That a connection gets on (section 3.9 of RFC 793): the announced window opens again, what
    arrives in order is delivered at once, and the states follow the two FINs. */
module TcpProgress {
  import opened Words
  import opened TcpSpec
  import opened TcpStream
  import opened TcpWindow

  function Max(a: int, b: int): int { if a < b then b else a }

  // ---------------------------------------------------------------- the announced window

  /** How far the real edge must be ahead of the announced one to be announced: half the window
      of 2920 bytes, or a segment if that is less. */
  function Worth(c: Pcb): int { Min(1460, c.mss) }

  /** In stream positions: an edge worth it is announced whole, and the room it adds is the
      inflation; otherwise the window ends where it was announced to, or is closed. */
  lemma WindowOpens(c: Pcb, pos: int, p: Peer)
    requires c.rcvNxt == Wrap32(p.irs + 1 + pos) && c.annEdge == Wrap32(p.irs + 1 + c.edge)
    requires c.edge <= pos + c.rcvWnd && c.rcvWnd <= TCP_WND && pos + TCP_WND - c.edge < HALF
    ensures var right := pos + c.rcvWnd; var d := UpdateAnn(c);
      if right >= c.edge + Worth(c) then pos + d.annWnd == right && Inflation(c) == right - c.edge
      else pos + d.annWnd == Max(pos, c.edge) && Inflation(c) == 0
  {
    hide Wrap32, Diff;
    var b: int := p.irs + 1;
    var m := Worth(c);
    WrapAdd(b, pos, c.rcvWnd);
    WrapAdd(b, c.edge, m);
    DiffIsDistance(b, pos + c.rcvWnd, c.edge + m);
    DiffIsDistance(b, pos + c.rcvWnd, c.edge);
    DiffIsDistance(b, pos, c.edge);
    if pos <= c.edge {
      DiffIsDistance(b, c.edge, pos);
      assert Wrap16(c.edge - pos) == c.edge - pos;
    }
  }

  /** A segment that goes out carries the window to the peer. */
  lemma OutputAnnounces(c: Pcb, p: Peer)
    requires Active(c.state) && c.rcvNxt == Wrap32(p.irs + 1 + Pos(c))
    ensures var d := Step(c, Output);
      && d == c.(annEdge := d.annEdge, edge := d.edge)
      && d.edge == Pos(c) + c.annWnd && d.annEdge == Wrap32(p.irs + 1 + d.edge)
  {
    hide Wrap32;
    WrapAdd(p.irs + 1, Pos(c), c.annWnd);
  }

  /** Whatever is reported, right or wrong: the window grows by it, in 16 bits, to 2920 at most;
      0 at the end of the stream is taken for an overflow. */
  lemma RecvedClamps(c: Pcb, r: Report)
    ensures var d, sum := Recved(c, r), (c.rcvWnd + r.len) % 0x1_0000;
      d.rcvWnd == if sum == 0 && c.state in {CLOSE_WAIT, LAST_ACK} then 2920 else Min(sum, 2920)
  {
    hide Wrap32, Inflation, UpdateAnn;
    UpdateAnnFrame(c.(rcvWnd := Reopened(c, r.len), consumed := c.consumed + r.len));
  }

  /** After tcp_recved, its update having got out if one was due: the announced edge is the
      real one exactly when that was at least 730 bytes, and worth it, ahead; else it stays. */
  lemma RecvedAnnounces(c: Pcb, len: u16, p: Peer)
    requires Active(c.state) && Synced(c, 0, p) && InWindow(c, 0, p) && Honest(c, Report(len, true))
    requires Recent(c, 0, TCP_WND)
    ensures var d := Recved(c, Report(len, true));
      && d.consumed == c.consumed + len
      && d.edge == if RightEdge(d) - c.edge >= Max(Worth(c), 730) then RightEdge(d) else c.edge
  {
    hide Wrap32, Inflation, UpdateAnn;
    var d := c.(rcvWnd := Reopened(c, len), consumed := c.consumed + len);
    RecvedFrame(c, Report(len, true));
    RecvedWindow(c, Report(len, true));
    RecvedAccounted(c, Report(len, true));
    WindowOpens(d, Pos(c), p);
    UpdateAnnFrame(d);
  }

  /** So once the application has reported everything it was given, the peer may send more than
      half a window, whatever was announced before. */
  lemma ReportedReopens(c: Pcb, len: u16, p: Peer)
    requires Active(c.state) && Synced(c, 0, p) && InWindow(c, 0, p) && Honest(c, Report(len, true))
    requires Recent(c, 0, TCP_WND) && len == Unread(c) && c.refused.None? && FinPlace(c) == 0
    ensures var d := Recved(c, Report(len, true));
      d.rcvWnd == TCP_WND && d.edge > Pos(d) + TCP_WND / 2
  {
    hide Wrap32, Recved;
    RecvedAnnounces(c, len, p);
    RecvedAccounted(c, Report(len, true));
    RecvedFrame(c, Report(len, true));
  }

  // ---------------------------------------------------------------- the two FINs

  datatype Fin = Unsent | Sent | Acked

  /** What a state says of our FIN and of the peer's. */
  function OurFin(st: State): Fin {
    match st
    case FIN_WAIT_1 => Sent
    case CLOSING => Sent
    case LAST_ACK => Sent
    case FIN_WAIT_2 => Acked
    case TIME_WAIT => Acked
    case GONE => Acked
    case _ => Unsent
  }

  predicate PeerFin(st: State) { st in {CLOSE_WAIT, CLOSING, LAST_ACK, TIME_WAIT, GONE} }

  /** The switch after tcp_receive registers exactly what happened to the two FINs.  Who sent
      his first stays told apart: LAST_ACK ends at once, CLOSING in TIME_WAIT. */
  lemma NextStateIs(st: State, gotFin: bool, finAcked: bool)
    requires Active(st) && (gotFin ==> TakesText(st))
    ensures var n := NextState(st, gotFin, finAcked);
      && OurFin(n) == (if finAcked && OurFin(st) == Sent then Acked else OurFin(st))
      && PeerFin(n) == (PeerFin(st) || gotFin)
      && (n == GONE <==> st == LAST_ACK && finAcked)
      && (n == LAST_ACK ==> st == LAST_ACK) && (n == SYN_RCVD ==> st == SYN_RCVD)
      && (n == ESTABLISHED ==> st == ESTABLISHED)
  {
  }

  /** Closing our side sends a FIN unless one was sent. */
  lemma SendFinIs(c: Pcb, queued: bool)
    requires Active(c.state)
    ensures var d := SendFin(c, queued);
      && d == c.(state := d.state)
      && OurFin(d.state) == (if queued && OurFin(c.state) == Unsent then Sent else OurFin(c.state))
      && PeerFin(d.state) == PeerFin(c.state)
      && (c.state == CLOSE_WAIT && queued ==> d.state == LAST_ACK)
  {
  }

  /** tcp_close resets the connection if and only if something was not read. */
  lemma CloseResetsIffUnread(c: Pcb, queued: bool)
    requires c.state in {ESTABLISHED, CLOSE_WAIT} && Accounted(c, 0)
    ensures !Active(Close(c, queued).state) <==> Unread(c) + |Held(c)| + FinPlace(c) > 0 || c.refused.Some?
    ensures var d := Close(c, queued);
      if Active(d.state) then d == SendFin(c, queued).(rxClosed := true)
      else d.refused.None? && d.delivered == c.delivered && (d.state == TIME_WAIT <==> c.state == ESTABLISHED)
  {
  }

  /** A reset is obeyed exactly at rcv_nxt. */
  lemma ResetIsObeyed(c: Pcb, s: Seg, e: Env, at: int, p: Peer)
    requires Active(c.state) && c.rcvNxt == Wrap32(p.irs + 1 + Pos(c)) && s.rst
    requires s.seqno == Wrap32(p.irs + 1 + at) && -HALF < Pos(c) - at < HALF
    ensures var r := Process(c, s, e);
      && r == Received(c.(state := r.pcb.state), [], false)
      && r.pcb.state == (if at == Pos(c) then GONE else c.state)
  {
    hide Wrap32;
    DiffIsDistance(p.irs + 1, Pos(c), at);
  }

  /** The handshake is completed by an acceptable ACK and the application's consent, and by
      nothing else. */
  lemma HandshakeIs(c: Pcb, s: Seg, e: Env)
    requires c.state == SYN_RCVD && !s.rst
    ensures var st := Process(c, s, e).pcb.state;
      && (st == SYN_RCVD <==> !(s.ack && e.ackOk))
      && (s.ack && e.ackOk && !e.accepted ==> st == GONE)
      && (s.ack && e.ackOk && e.accepted ==> st in {ESTABLISHED, CLOSE_WAIT})
  {
    hide Receive;
    ReceiveFrame(c.(state := ESTABLISHED), s);
  }

  /** tcp_receive moves rcv_nxt and the window, nothing else. */
  lemma ReceiveFrame(c: Pcb, s: Seg)
    ensures var d := Receive(c, s).pcb; d == c.(rcvNxt := d.rcvNxt, rcvWnd := d.rcvWnd, annWnd := d.annWnd)
  {
    hide Wrap32, Diff, FrontTrimmed, TailTrimmed, UpdateAnn, SegLen;
    var u := TailTrimmed(c, FrontTrimmed(c.rcvNxt, s));
    UpdateAnnFrame(c.(rcvNxt := Wrap32(u.seqno + SegLen(u)), rcvWnd := Wrap16(c.rcvWnd - SegLen(u))));
  }

  /** Once synchronized, a SYN changes nothing. */
  lemma SynIsIgnored(c: Pcb, s: Seg, e: Env)
    requires Active(c.state) && c.state != SYN_RCVD && s.syn && !s.rst
    ensures Process(c, s, e) == Received(c, [], false)
  {
  }

  /** Nothing the application refused outlives the connection in TIME_WAIT. */
  lemma TimeWaitHoldsNothing(c: Pcb, s: Seg, e: Env)
    requires Active(c.state)
    ensures Process(c, s, e).pcb.state == TIME_WAIT ==> Held(Process(c, s, e).pcb) == []
  {
    hide Receive;
  }

  /** A segment without text is processed even while refused data is kept: it may acknowledge
      our FIN, or reset the connection. */
  lemma AckStillCounts(c: Pcb, s: Seg, e: Env)
    requires Active(c.state) && c.state != SYN_RCVD && c.refused.Some? && e.retry.Refuse? && SegLen(s) == 0
    ensures var d := Input(c, s, e);
      && (s.rst && s.seqno == c.rcvNxt ==> d.state == GONE)
      && (!s.rst ==> d.state == NextState(c.state, false, s.ack && e.acksFin))
      && (Active(d.state) ==> d == c.(state := d.state))
  {
    hide NextState;
  }

  /** What was refused goes to the application before anything newer. */
  lemma RefusedComesFirst(c: Pcb, s: Seg, e: Env)
    requires c.refused.Some? && e.retry.Accept?
    ensures c.delivered + c.refused.value.data <= Input(c, s, e).delivered
  {
    hide Process, Recved, RetryRefused;
    RetryDelivers(c, e.retry, e.retryFin);
    var d := RetryRefused(c, e.retry, e.retryFin);
    ProcessDelivers(d, s, e);
    DeliverGrows(Process(d, s, e), e);
  }

  lemma ProcessDelivers(c: Pcb, s: Seg, e: Env)
    ensures Process(c, s, e).pcb.delivered == c.delivered
  {
    hide Receive;
    ReceiveFrame(c, s);
    ReceiveFrame(c.(state := ESTABLISHED), s);
  }

  lemma DeliverGrows(r: Received, e: Env)
    ensures r.pcb.delivered <= Deliver(r, e).delivered
  {
    hide Recved;
    var d := r.pcb;
    if |r.data| > 0 && e.recv.Accept? {
      d := d.(delivered := d.delivered + r.data, refused := None);
      RecvedAllFrame(d, e.recv.reports);
      d := RecvedAll(d, e.recv.reports);
    }
    if e.fin.Accept? { RecvedAllFrame(FinCounted(d), e.fin.reports); }
  }

  // ---------------------------------------------------------------- delivery

  /** Ready for text: nothing refused, and neither side has closed receiving. */
  predicate Ready(c: Pcb) {
    c.state in {ESTABLISHED, FIN_WAIT_1, FIN_WAIT_2} && c.refused.None? && !c.rxClosed && !c.eof
  }

  /** A segment at stream position `at` that continues what is there and fits the window. */
  predicate InOrder(c: Pcb, s: Seg, at: int, p: Peer) {
    && Cut(s, at, p) && Near(s, at, Pos(c)) && !s.syn && !s.rst
    && at <= Pos(c) < at + SegLen(s) <= Pos(c) + c.rcvWnd
  }

  /** It is taken whole. */
  lemma InOrderIsTaken(c: Pcb, s: Seg, e: Env, at: int, p: Peer)
    requires InStream(c, [], false, p) && Ready(c) && InOrder(c, s, at, p)
    ensures var r := Process(c, s, e);
      && r.data == p.stream[Pos(c)..at + |s.data|] && r.gotFin == s.fin
      && r.pcb.state == NextState(c.state, s.fin, s.ack && e.acksFin)
      && r.pcb.refused.None? && r.pcb.delivered == c.delivered && r.pcb.rxClosed == c.rxClosed && !r.pcb.eof
  {
    hide Wrap32, Receive, UpdateAnn;
    ReceiveIntersects(c, s, at, Pos(c), p);
    ReceiveFrame(c, s);
  }

  /** An application that accepts has it at once, with the end if the segment brought it. */
  lemma InOrderIsDelivered(c: Pcb, s: Seg, e: Env, at: int, p: Peer)
    requires InStream(c, [], false, p) && Ready(c) && InOrder(c, s, at, p)
    requires e.recv.Accept? && e.fin.Accept?
    ensures var d := Input(c, s, e);
      && d.delivered == p.stream[..at + |s.data|] && d.refused.None? && d.eof == s.fin
      && d.state == NextState(c.state, s.fin, s.ack && e.acksFin)
  {
    hide Wrap32, Process, Recved;
    InOrderIsTaken(c, s, e, at, p);
    var r := Process(c, s, e);
    assert c.delivered == p.stream[..Pos(c)] && p.stream[..Pos(c)] + r.data == p.stream[..at + |s.data|];
    var d := r.pcb;
    if |r.data| > 0 {
      d := d.(delivered := d.delivered + r.data, refused := None);
      RecvedAllFrame(d, e.recv.reports);
      d := RecvedAll(d, e.recv.reports);
    } else {
      assert r.data == [];
    }
    if r.gotFin { RecvedAllFrame(FinCounted(d), e.fin.reports); }
  }

  /** One that refuses leaves it with the pcb, the end included. */
  lemma InOrderIsKept(c: Pcb, s: Seg, e: Env, at: int, p: Peer)
    requires InStream(c, [], false, p) && Ready(c) && InOrder(c, s, at, p) && Pos(c) < at + |s.data|
    requires e.recv.Refuse?
    ensures var d := Input(c, s, e);
      && d.delivered == c.delivered && !d.eof
      && d.refused == Some(Refused(p.stream[Pos(c)..at + |s.data|], s.fin))
  {
    hide Wrap32, Process;
    InOrderIsTaken(c, s, e, at, p);
  }

  /** And gets it, with the end, when it accepts it later, at the fast timer for one. */
  lemma RetryDelivers(c: Pcb, a: Reply, b: Reply)
    requires c.refused.Some?
    ensures Active(c.state) ==> Step(c, FastTimer(a, b)) == RetryRefused(c, a, b)
    ensures var d, r := RetryRefused(c, a, b), c.refused.value;
      match a
      case Accept(_) =>
        && d.delivered == c.delivered + r.data && d.refused.None?
        && d.eof == (c.eof || r.fin)
        && d.state == (if r.fin && b.Abort? then GONE else c.state)
      case Refuse => d == c
      case Abort => d.state == GONE && d.delivered == c.delivered
  {
    hide Recved;
    if a.Accept? {
      var d := c.(delivered := c.delivered + c.refused.value.data, refused := None);
      RecvedAllFrame(d, a.reports);
      if b.Accept? { RecvedAllFrame(FinCounted(RecvedAll(d, a.reports)), b.reports); }
    }
  }

  // ---------------------------------------------------------------- a whole connection

  /** An application that takes what it gets and reports it at once. */
  function Greedy(n: u16): Env {
    Env(true, true, false, Refuse, Refuse, Accept([Report(n, true)]), Accept([]))
  }

  function Piece(p: Peer, at: nat, n: u16): Seg
    requires at + n <= |p.stream|
  {
    Seg(Wrap32(p.irs + 1 + at), p.stream[at..at + n], false, false, false, true)
  }

  function Last(p: Peer): Seg { Seg(Wrap32(p.irs + 1 + |p.stream|), [], false, true, false, true) }

  /** The peer sends its stream from offset `at` on in order, cut into pieces of these sizes, and
      then its FIN. */
  function Sends(p: Peer, at: nat, cuts: seq<u16>): seq<Event>
    requires Cuts(p, at, cuts)
    decreases |cuts|
  {
    if |cuts| == 0 then [Segment(Last(p), at, Greedy(0))]
    else [Segment(Piece(p, at, cuts[0]), at, Greedy(cuts[0]))] + Sends(p, at + cuts[0], cuts[1..])
  }

  /** The sizes cover the stream, and each fits half the window. */
  predicate Cuts(p: Peer, at: nat, cuts: seq<u16>)
    decreases |cuts|
  {
    if |cuts| == 0 then at == |p.stream|
    else 0 < cuts[0] <= 1460 && at + cuts[0] <= |p.stream| && Cuts(p, at + cuts[0], cuts[1..])
  }

  /** Everything so far is with the application, and reported. */
  predicate Caught(c: Pcb, at: nat, p: Peer) {
    && c.state in {SYN_RCVD, ESTABLISHED} && c.refused.None? && !c.rxClosed && !c.eof
    && InStream(c, [], false, p) && InWindow(c, 0, p)
    && at <= |p.stream| && c.delivered == p.stream[..at] && c.consumed == at
    && RightEdge(c) - c.edge <= TCP_WND
  }

  /** The handshake's last segment is processed as if the connection were established. */
  lemma HandshakeThenText(c: Pcb, s: Seg, e: Env)
    requires c.state in {SYN_RCVD, ESTABLISHED} && !s.rst && !s.syn && s.ack && e.ackOk && e.accepted
    ensures Process(c, s, e) == Process(c.(state := ESTABLISHED), s, e)
  {
    hide Receive, Settled;
    assert c.state == ESTABLISHED ==> c == c.(state := ESTABLISHED);
  }

  lemma Established(c: Pcb, at: nat, p: Peer)
    requires Caught(c, at, p)
    ensures Caught(c.(state := ESTABLISHED), at, p) && Pos(c.(state := ESTABLISHED)) == Pos(c) == at
    ensures Synced(c, 0, p) && Recent(c, 0, 2 * TCP_WND) && c.rcvWnd == TCP_WND
  {
    hide Wrap32;
  }

  /** One piece arrives, is taken and reported. */
  lemma PieceArrives(c: Pcb, at: nat, n: u16, p: Peer)
    requires Caught(c, at, p) && 0 < n <= 1460 && at + n <= |p.stream|
    ensures var ev := Segment(Piece(p, at, n), at, Greedy(n));
      Legal(c, ev, p) && Caught(Step(c, ev), at + n, p) && Step(c, ev).state == ESTABLISHED
  {
    hide Wrap32, Process, Recved, UpdateAnn, Caught;
    var s, e := Piece(p, at, n), Greedy(n);
    var ev := Segment(s, at, e);
    var f := c.(state := ESTABLISHED);
    Unfold(c, at, p);
    Established(c, at, p);
    Unfold(f, at, p);
    HandshakeThenText(c, s, e);
    InOrderIsTaken(f, s, e, at, p);
    var r := Process(f, s, e);
    var t := r.pcb.(delivered := r.pcb.delivered + r.data, refused := None);
    TakenInWindow(f, s, e, at, n, p);
    InputIs(c, s, n);
    ReportedCatchesUp(t, at + n, n, p);
  }

  /** What tcp_input does for the greedy application. */
  lemma InputIs(c: Pcb, s: Seg, n: u16)
    requires c.refused.None? && c.state in {SYN_RCVD, ESTABLISHED}
    ensures var r := Process(c, s, Greedy(n));
      |r.data| > 0 && !r.gotFin && r.pcb.state != GONE && !r.pcb.rxClosed ==>
        Input(c, s, Greedy(n)) ==
          Recved(r.pcb.(delivered := r.pcb.delivered + r.data, refused := None), Report(n, true))
  {
    hide Process, Recved;
    var r := Process(c, s, Greedy(n));
    var t := r.pcb.(delivered := r.pcb.delivered + r.data, refused := None);
    assert RecvedAll(t, [Report(n, true)]) == RecvedAll(Recved(t, Report(n, true)), []);
    RecvedFrame(t, Report(n, true));
  }

  lemma ReportedCatchesUp(t: Pcb, at: nat, n: u16, p: Peer)
    requires t.state == ESTABLISHED && t.refused.None? && !t.rxClosed && !t.eof && 0 < n
    requires InStream(t, [], false, p) && InWindow(t, 0, p) && Recent(t, 0, TCP_WND) && Synced(t, 0, p)
    requires at <= |p.stream| && t.delivered == p.stream[..at] && t.consumed + n == at
    ensures Caught(Recved(t, Report(n, true)), at, p) && Recved(t, Report(n, true)).state == ESTABLISHED
  {
    hide Wrap32, Recved;
    RecvedAnnounces(t, n, p);
    RecvedFrame(t, Report(n, true));
    RecvedInWindow(t, Report(n, true), p);
  }

  /** Taken and not yet reported. */
  lemma TakenInWindow(c: Pcb, s: Seg, e: Env, at: nat, n: u16, p: Peer)
    requires Caught(c, at, p) && c.state == ESTABLISHED && 0 < n <= 1460 && at + n <= |p.stream|
    requires s == Piece(p, at, n) && e == Greedy(n)
    ensures var r := Process(c, s, e);
      var t := r.pcb.(delivered := r.pcb.delivered + r.data, refused := None);
      && r.data == p.stream[at..at + n] && !r.gotFin
      && t.state == ESTABLISHED && t.delivered == p.stream[..at + n] && t.consumed == at && t.refused.None?
      && !t.eof && !t.rxClosed
      && InStream(t, [], false, p) && InWindow(t, 0, p) && Recent(t, 0, TCP_WND) && Synced(t, 0, p)
  {
    hide Wrap32, Process, UpdateAnn;
    Established(c, at, p);
    InOrderIsTaken(c, s, e, at, p);
    ProcessInStream(c, s, e, at, p);
    ProcessInWindow(c, s, e, at, p);
    ProcessCounts(c, s, e);
    assert p.stream[..at] + p.stream[at..at + n] == p.stream[..at + n];
  }

  lemma ProcessCounts(c: Pcb, s: Seg, e: Env)
    ensures Process(c, s, e).pcb.consumed == c.consumed && Process(c, s, e).pcb.edge == c.edge
  {
    hide Receive;
    ReceiveFrame(c, s);
    ReceiveFrame(c.(state := ESTABLISHED), s);
  }

  lemma Unfold(c: Pcb, at: nat, p: Peer)
    requires Caught(c, at, p)
    ensures InStream(c, [], false, p) && InWindow(c, 0, p) && c.refused.None? && !c.rxClosed && !c.eof
    ensures c.state in {SYN_RCVD, ESTABLISHED} && c.delivered == p.stream[..at] && c.consumed == at <= |p.stream|
  {
  }

  /** The FIN after the whole stream. */
  lemma LastArrives(c: Pcb, p: Peer)
    requires Caught(c, |p.stream|, p)
    ensures var ev := Segment(Last(p), |p.stream|, Greedy(0)); var d := Step(c, ev);
      Legal(c, ev, p) && d.delivered == p.stream && d.eof && d.state == CLOSE_WAIT
  {
    hide Wrap32, Process, Recved, UpdateAnn;
    Established(c, |p.stream|, p);
    HandshakeThenText(c, Last(p), Greedy(0));
    InOrderIsDelivered(c.(state := ESTABLISHED), Last(p), Greedy(0), |p.stream|, p);
    assert p.stream[..|p.stream|] == p.stream;
  }

  lemma {:induction false} RestArrives(c: Pcb, at: nat, cuts: seq<u16>, p: Peer)
    requires Caught(c, at, p) && Cuts(p, at, cuts)
    ensures LegalRun(c, Sends(p, at, cuts), p)
    ensures var d := Run(c, Sends(p, at, cuts), p); d.delivered == p.stream && d.eof && d.state == CLOSE_WAIT
    decreases |cuts|
  {
    hide Step, Legal, Caught;
    var evs := Sends(p, at, cuts);
    if |cuts| == 0 {
      LastArrives(c, p);
      assert evs[1..] == [];
    } else {
      PieceArrives(c, at, cuts[0], p);
      RestArrives(Step(c, evs[0]), at + cuts[0], cuts[1..], p);
      assert evs[1..] == Sends(p, at + cuts[0], cuts[1..]);
    }
  }

  /** Sent in order to an application that takes and reports what it gets, every stream, however
      cut and however long, arrives whole, and its end with it. */
  lemma WholeStreamArrives(p: Peer, mss: u16, cuts: seq<u16>)
    requires Cuts(p, 0, cuts)
    ensures LegalRun(Fresh(p.irs, mss), Sends(p, 0, cuts), p)
    ensures var d := Run(Fresh(p.irs, mss), Sends(p, 0, cuts), p);
      d.delivered == p.stream && d.eof && d.state == CLOSE_WAIT
  {
    FreshInWindow(p, mss);
    RestArrives(Fresh(p.irs, mss), 0, cuts, p);
  }
}
