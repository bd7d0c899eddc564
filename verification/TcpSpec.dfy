/** The TCP receive path (core/tcp_in.c, core/tcp.c) as functions of one connection, in the
    32- and 16-bit arithmetic of the source, and what every run of them keeps.  Built as the
    firmware builds it: no out-of-order queue, no window scaling. */
module TcpSpec {
  import opened Words

  const TCP_MSS := 1460
  const TCP_WND: int := 2 * TCP_MSS
  const TCP_WND_UPDATE_THRESHOLD: int := TCP_WND / 4

  // ---------------------------------------------------------------- sequence numbers

  /** The C cast of a u32 to s32. */
  function Signed(x: u32): int { if x < 0x8000_0000 then x else x - 0x1_0000_0000 }

  /** What the TCP_SEQ comparisons look at: the sign of the wrapped difference. */
  function Diff(a: u32, b: u32): int { Signed(Wrap32(a - b)) }

  predicate SeqLeq(a: u32, b: u32) { Diff(a, b) <= 0 }
  predicate SeqGt(a: u32, b: u32) { Diff(a, b) > 0 }
  predicate SeqGeq(a: u32, b: u32) { Diff(a, b) >= 0 }
  predicate SeqBetween(a: u32, b: u32, c: u32) { SeqGeq(a, b) && SeqLeq(a, c) }

  /** Wrapped comparison of two stream positions is comparison, within half the space. */
  lemma DiffIsDistance(base: int, x: int, y: int)
    requires -0x8000_0000 <= x - y < 0x8000_0000
    ensures Diff(Wrap32(base + x), Wrap32(base + y)) == x - y
    ensures x >= y ==> Wrap32(Wrap32(base + x) - Wrap32(base + y)) == x - y
    ensures Wrap32(base + x) == Wrap32(base + y) <==> x == y
  {
    hide Wrap32;
    var a: int, b: int := Wrap32(base + x), Wrap32(base + y);
    var i := Turns(base + x);
    var j := Turns(base + y);
    var k := Turns(a - b);
  }

  /** Wrapping takes away whole turns of the sequence space. */
  lemma Turns(x: int) returns (k: int)
    ensures Wrap32(x) == x - 0x1_0000_0000 * k
  {
    k := x / 0x1_0000_0000;
  }

  lemma WrapAdd(base: int, x: int, y: int)
    ensures Wrap32(Wrap32(base + x) + y) == Wrap32(base + (x + y))
  {
    hide Wrap32;
    var i := Turns(base + x);
    var j := Turns(Wrap32(base + x) + y);
    var k := Turns(base + (x + y));
  }

  // ---------------------------------------------------------------- the connection

  datatype State =
    SYN_RCVD | ESTABLISHED | FIN_WAIT_1 | FIN_WAIT_2 | CLOSE_WAIT | CLOSING | LAST_ACK | TIME_WAIT | GONE

  /** Segment text is ignored from CLOSE_WAIT on. */
  predicate TakesText(s: State) { s in {SYN_RCVD, ESTABLISHED, FIN_WAIT_1, FIN_WAIT_2} }

  /** The peer's FIN is in, and the pcb is still active. */
  predicate FinIn(s: State) { s in {CLOSE_WAIT, CLOSING, LAST_ACK} }

  predicate Active(s: State) { s != TIME_WAIT && s != GONE }

  /** `refused_data`, with its PBUF_FLAG_TCP_FIN. */
  datatype Refused = Refused(data: seq<u8>, fin: bool)

  /** The receive side of a tcp_pcb, and the history of what the application was given:
      the bytes it took, how many it reported with tcp_recved, whether it was told of the
      end, and the stream position of the right edge last announced to the peer. */
  datatype Pcb = Pcb(
    state: State, rcvNxt: u32, rcvWnd: u16, annWnd: u16, annEdge: u32, mss: u16, rxClosed: bool,
    refused: Option<Refused>,
    delivered: seq<u8>, consumed: nat, eof: bool, edge: int)

  datatype Seg = Seg(seqno: u32, data: seq<u8>, syn: bool, fin: bool, rst: bool, ack: bool)

  /** `tcplen`: sequence numbers the segment occupies. */
  function SegLen(s: Seg): nat { |s.data| + (if s.fin || s.syn then 1 else 0) }

  /** What the application has, and what is kept for it. */
  function Held(c: Pcb): seq<u8> { if c.refused.Some? then c.refused.value.data else [] }

  function Given(c: Pcb): seq<u8> { c.delivered + Held(c) }

  /** The stream position rcv_nxt stands for, the peer's first byte being 0. */
  function Pos(c: Pcb): nat { |Given(c)| + (if FinIn(c.state) then 1 else 0) }

  /** tcp_update_rcv_ann_wnd. */
  function UpdateAnn(c: Pcb): Pcb {
    if SeqGeq(Wrap32(c.rcvNxt + c.rcvWnd), Wrap32(c.annEdge + Min(TCP_WND / 2, c.mss))) then c.(annWnd := c.rcvWnd)
    else if SeqGt(c.rcvNxt, c.annEdge) then c.(annWnd := 0)
    else c.(annWnd := Wrap16(Wrap32(c.annEdge - c.rcvNxt)))
  }

  /** What tcp_update_rcv_ann_wnd returns: the room the new window would add. */
  function Inflation(c: Pcb): u32 {
    var edge := Wrap32(c.rcvNxt + c.rcvWnd);
    if SeqGeq(edge, Wrap32(c.annEdge + Min(TCP_WND / 2, c.mss))) then Wrap32(edge - c.annEdge) else 0
  }

  /** A segment goes out: the window it carries becomes the announced edge. */
  function Announced(c: Pcb): Pcb {
    c.(annEdge := Wrap32(c.rcvNxt + c.annWnd), edge := Pos(c) + c.annWnd)
  }

  /** The window tcp_recved arrives at. */
  function Reopened(c: Pcb, len: u16): u16 {
    var wnd := Wrap16(c.rcvWnd + len);
    if wnd > TCP_WND then TCP_WND
    else if wnd == 0 && (c.state == CLOSE_WAIT || c.state == LAST_ACK) then TCP_WND
    else wnd
  }

  /** One call of tcp_recved: the length passed, and whether the window update that follows
      a large enough inflation got out. */
  datatype Report = Report(len: u16, sent: bool)

  /** tcp_recved. */
  function Recved(c: Pcb, r: Report): Pcb {
    var d := c.(rcvWnd := Reopened(c, r.len), consumed := c.consumed + r.len);
    if Signed(Inflation(d)) >= TCP_WND_UPDATE_THRESHOLD && r.sent then Announced(UpdateAnn(d)) else UpdateAnn(d)
  }

  /** A segment whose front lies before rcv_nxt loses it. */
  predicate TrimsFront(rcvNxt: u32, s: Seg) {
    SeqBetween(rcvNxt, Wrap32(s.seqno + 1), Wrap32(s.seqno + SegLen(s) - 1))
  }

  function FrontOffset(rcvNxt: u32, s: Seg): u32 { Wrap32(rcvNxt - s.seqno) }

  /** The front lies inside the data, as the assertion "pbuf too short!" says, with one
      exception: a segment of length 1 exactly half the sequence space behind. */
  lemma FrontInside(rcvNxt: u32, s: Seg)
    requires 0 < SegLen(s) <= 0x1_0000 && TrimsFront(rcvNxt, s)
    ensures FrontOffset(rcvNxt, s) > 0
    ensures FrontOffset(rcvNxt, s) <= |s.data| <==> !(SegLen(s) == 1 && FrontOffset(rcvNxt, s) == 0x8000_0000)
  {
    hide Wrap32, Diff, SegLen;
    var n: int, off: int, len := s.seqno, FrontOffset(rcvNxt, s), SegLen(s);
    LengthOf(s);
    OffsetBack(rcvNxt, s.seqno);
    if off > 0x8000_0000 {
      DiffIsDistance(n, off - 0x1_0000_0000, 1);
    } else {
      DiffIsDistance(n, off, 1);
      if off - (len - 1) < 0x8000_0000 { DiffIsDistance(n, off, len - 1); }
    }
  }

  lemma OffsetBack(a: u32, b: u32)
    ensures Wrap32(b + Wrap32(a - b)) == a && Wrap32(b + (Wrap32(a - b) - 0x1_0000_0000)) == a
  {
  }

  lemma LengthOf(s: Seg)
    ensures |s.data| <= SegLen(s) <= |s.data| + 1
  {
  }

  /** In the exceptional case the offset, an s32, is negative, and its cast to s16 cuts
      nothing. */
  function FrontTrimmed(rcvNxt: u32, s: Seg): Seg {
    var off := FrontOffset(rcvNxt, s);
    if !TrimsFront(rcvNxt, s) then s
    else s.(data := if off <= |s.data| then s.data[off..] else s.data, seqno := rcvNxt)
  }

  /** A segment longer than the window loses its FIN and its tail. */
  function TailTrimmed(c: Pcb, s: Seg): Seg {
    if SegLen(s) > c.rcvWnd then
      var len: u16 := Wrap16(c.rcvWnd - (if s.syn then 1 else 0));
      s.(fin := false, data := if len < |s.data| then s.data[..len] else s.data)
    else s
  }

  /** What tcp_receive hands to the caller beside the changed pcb. */
  datatype Received = Received(pcb: Pcb, data: seq<u8>, gotFin: bool)

  /** Accepting an in-order segment. */
  function TakeText(c: Pcb, t: Seg): Received {
    var u := TailTrimmed(c, t);
    var d := c.(rcvNxt := Wrap32(u.seqno + SegLen(u)), rcvWnd := Wrap16(c.rcvWnd - SegLen(u)));
    Received(UpdateAnn(d), u.data, u.fin)
  }

  /** The text part of tcp_receive. */
  function Receive(c: Pcb, s: Seg): Received {
    if SegLen(s) > 0 && TakesText(c.state) then
      var t := FrontTrimmed(c.rcvNxt, s);
      if SeqBetween(t.seqno, c.rcvNxt, Wrap32(c.rcvNxt + c.rcvWnd - 1)) && c.rcvNxt == t.seqno then TakeText(c, t)
      else Received(c, [], false)
    else Received(c, [], false)
  }

  // ---------------------------------------------------------------- the application

  /** What a receive callback answers, and the lengths it passes to tcp_recved meanwhile. */
  datatype Reply = Accept(reports: seq<Report>) | Refuse | Abort

  function RecvedAll(c: Pcb, reports: seq<Report>): Pcb
    decreases |reports|
  {
    if |reports| == 0 then c else RecvedAll(Recved(c, reports[0]), reports[1..])
  }

  /** The FIN takes no tcp_recved, so the stack itself gives back its place. */
  function FinCounted(c: Pcb): Pcb {
    c.(rcvWnd := if c.rcvWnd != TCP_WND then Wrap16(c.rcvWnd + 1) else c.rcvWnd, eof := true)
  }

  function ReportFin(c: Pcb, reply: Reply): Pcb {
    var d := FinCounted(c);
    match reply
    case Accept(reports) => RecvedAll(d, reports)
    case Refuse => d
    case Abort => d.(state := GONE)
  }

  /** The data callback; refused bytes are kept. */
  function Offer(c: Pcb, data: seq<u8>, fin: bool, reply: Reply): Pcb {
    match reply
    case Accept(reports) => RecvedAll(c.(delivered := c.delivered + data, refused := None), reports)
    case Refuse => c.(refused := Some(Refused(data, fin)))
    case Abort => c.(state := GONE, refused := None)
  }

  /** tcp_process_refused_data. */
  function RetryRefused(c: Pcb, reply: Reply, finReply: Reply): Pcb {
    if c.refused.None? then c
    else
      var r := c.refused.value;
      var d := Offer(c, r.data, r.fin, reply);
      if reply.Accept? && r.fin then ReportFin(d, finReply) else d
  }

  // ---------------------------------------------------------------- tcp_process

  /** The parts of a segment's processing decided elsewhere: whether its ACK is acceptable
      to SYN_RCVD and the accept callback agrees, whether it acknowledges our FIN, and what
      the callbacks answer. */
  datatype Env = Env(ackOk: bool, accepted: bool, acksFin: bool,
    retry: Reply, retryFin: Reply, recv: Reply, fin: Reply)

  /** tcp_pcb_purge then TIME_WAIT. */
  function Purged(c: Pcb): Pcb { c.(refused := None, state := TIME_WAIT) }

  /** The state switch after tcp_receive, given whether it saw a FIN and whether the segment
      acknowledges ours. */
  function NextState(st: State, gotFin: bool, finAcked: bool): State {
    match st
    case FIN_WAIT_1 =>
      if gotFin then (if finAcked then TIME_WAIT else CLOSING) else if finAcked then FIN_WAIT_2 else FIN_WAIT_1
    case FIN_WAIT_2 => if gotFin then TIME_WAIT else FIN_WAIT_2
    case CLOSING => if finAcked then TIME_WAIT else CLOSING
    case LAST_ACK => if finAcked then GONE else LAST_ACK
    case _ => if gotFin then CLOSE_WAIT else st
  }

  /** Entering TIME_WAIT purges the pcb. */
  function Settled(r: Received, s: Seg, e: Env): Received {
    var next := NextState(r.pcb.state, r.gotFin, s.ack && e.acksFin);
    r.(pcb := if next == TIME_WAIT then Purged(r.pcb) else r.pcb.(state := next))
  }

  function Process(c: Pcb, s: Seg, e: Env): Received {
    var none := Received(c, [], false);
    if !Active(c.state) then none
    else if s.rst then (if s.seqno == c.rcvNxt then Received(c.(state := GONE), [], false) else none)
    else if s.syn && c.state != SYN_RCVD then none
    else if c.state != SYN_RCVD then Settled(Receive(c, s), s, e)
    else if !s.ack || !e.ackOk then none
    else if !e.accepted then Received(c.(state := GONE), [], false)
    else Settled(Receive(c.(state := ESTABLISHED), s), s, e)
  }

  /** What tcp_input does with the outcome: data first, then the end of the stream. */
  function Deliver(r: Received, e: Env): Pcb {
    if r.pcb.state == GONE then r.pcb
    else if |r.data| > 0 && r.pcb.rxClosed then r.pcb.(state := GONE)
    else
      var d := if |r.data| > 0 then Offer(r.pcb, r.data, false, e.recv) else r.pcb;
      if d.state == GONE || !r.gotFin then d
      else if d.refused.Some? then d.(refused := Some(d.refused.value.(fin := true)))
      else ReportFin(d, e.fin)
  }

  /** tcp_input for a segment of an active connection. */
  function Input(c: Pcb, s: Seg, e: Env): Pcb {
    var d := RetryRefused(c, e.retry, e.retryFin);
    if d.state == GONE || (d.refused.Some? && SegLen(s) > 0) then d else Deliver(Process(d, s, e), e)
  }

  /** Retrying refused data moves no sequence number. */
  lemma RetryKeepsRcvNxt(c: Pcb, a: Reply, b: Reply)
    ensures RetryRefused(c, a, b).rcvNxt == c.rcvNxt
  {
    if c.refused.Some? && a.Accept? {
      var d := c.(delivered := c.delivered + c.refused.value.data, refused := None);
      RecvedAllFrame(d, a.reports);
      if c.refused.value.fin && b.Accept? {
        RecvedAllFrame(FinCounted(RecvedAll(d, a.reports)), b.reports);
      }
    }
  }

  lemma RecvedFrame(c: Pcb, r: Report)
    ensures var d := Recved(c, r);
      d == c.(rcvWnd := d.rcvWnd, annWnd := d.annWnd, consumed := d.consumed, annEdge := d.annEdge, edge := d.edge)
  {
    hide Wrap32, Inflation, Diff, Signed;
  }

  /** tcp_recved changes only the windows, the announced edge and the count of reported bytes. */
  lemma {:induction false} RecvedAllFrame(c: Pcb, reports: seq<Report>)
    ensures var d := RecvedAll(c, reports);
      d == c.(rcvWnd := d.rcvWnd, annWnd := d.annWnd, consumed := d.consumed, annEdge := d.annEdge, edge := d.edge)
    decreases |reports|
  {
    hide Recved;
    if |reports| > 0 {
      RecvedFrame(c, reports[0]);
      RecvedAllFrame(Recved(c, reports[0]), reports[1..]);
    }
  }

  // ---------------------------------------------------------------- the other entry points

  /** tcp_close_shutdown_fin, with whether the FIN could be queued. */
  function SendFin(c: Pcb, queued: bool): Pcb {
    if !queued then c
    else if c.state == SYN_RCVD || c.state == ESTABLISHED then c.(state := FIN_WAIT_1)
    else if c.state == CLOSE_WAIT then c.(state := LAST_ACK)
    else c
  }

  /** tcp_close: with data unread or refused the connection is reset instead. */
  function Close(c: Pcb, queued: bool): Pcb {
    var d := c.(rxClosed := true);
    if (c.state == ESTABLISHED || c.state == CLOSE_WAIT) && (c.refused.Some? || c.rcvWnd != TCP_WND) then
      d.(refused := None, state := if c.state == ESTABLISHED then TIME_WAIT else GONE)
    else SendFin(d, queued)
  }

  /** What can happen to a connection: a segment cut at stream position `at` arrives, the
      application reports bytes outside any callback, the fast timer retries refused data,
      a segment goes out, the application closes it or shuts its sending side.  Once the
      pcb has left the active list none of these reaches it. */
  datatype Event =
    | Segment(s: Seg, at: int, e: Env)
    | Reported(r: Report)
    | FastTimer(retry: Reply, retryFin: Reply)
    | Output
    | Closed(queued: bool)
    | ShutTx(queued: bool)

  function Step(c: Pcb, ev: Event): Pcb {
    if !Active(c.state) then c
    else
      match ev
      case Segment(s, _, e) => Input(c, s, e)
      case Reported(r) => Recved(c, r)
      case FastTimer(a, b) => RetryRefused(c, a, b)
      case Output => Announced(c)
      case Closed(queued) => Close(c, queued)
      case ShutTx(queued) => SendFin(c, queued)
  }
}
