/** The receive side of a TCP connection in place: the fields of a tcp_pcb and the pbufs of
    the arriving segment are updated as core/tcp_in.c and core/tcp.c do, each method agreeing
    with its function in TcpSpec. */
module Tcp {
  import opened Words
  import opened PbufSpec
  import Pbuf
  import opened TcpSpec
  import opened TcpStream
  import TcpProgress

  lemma NullChain(m: Memory, n: Memory, c: seq<Ptr>)
    requires IsChain(m, 0, c)
    ensures c == [] && IsChain(n, 0, c)
  {
    assert |c| > 0 ==> !Link(m, c, 0);
  }

  /** The holders h, one reference to q given up. */
  ghost function Less(h: map<Ptr, nat>, q: Ptr): map<Ptr, nat> {
    h[q := if Count(h, q) > 0 then Count(h, q) - 1 else 0]
  }

  /** What a purge leaves of the holders h: `was` and `now` are refused_data. */
  ghost function Kept(h: map<Ptr, nat>, was: Ptr, now: Ptr): map<Ptr, nat> {
    if was == now then h else Less(h, was)
  }

  lemma CountedRefs(m: Memory, h: map<Ptr, nat>)
    requires Counted(m, h)
    ensures 0 !in m && forall q :: q in m ==> m[q].ref > 0
  {
    forall q | q in m ensures m[q].ref > 0 {
      assert RefOk(m, h, 0, q);
    }
  }

  lemma HolderThere(m: Memory, h: map<Ptr, nat>, p: Ptr)
    requires Counted(m, h) && Count(h, p) > 0
    ensures p in m
  {
  }

  lemma LinksKeepCounts(m: Memory, n: Memory, c: seq<Ptr>, h: map<Ptr, nat>)
    requires Counted(m, h) && Pbuf.SameLinks(m, n, c)
    ensures Counted(n, h)
  {
    forall q | q in n ensures RefOk(n, h, 0, q) {
      assert RefOk(m, h, 0, q);
      assert Preds(n, q) == Preds(m, q);
    }
  }

  /** n is what is left of m: no link, length or byte differs. */
  ghost predicate LeftOf(m: Memory, n: Memory) {
    n.Keys <= m.Keys && forall q {:trigger n[q]} :: q in n ==> n[q] == m[q].(ref := n[q].ref)
  }

  lemma {:induction false} FreeLeaves(m: Memory, p: Ptr)
    ensures LeftOf(m, Free(m, p))
    decreases |m|
  {
    if p in m && m[p].ref == 1 {
      FreeLeaves(m - {p}, m[p].next);
    }
  }

  /** What somebody holds survives with all that hangs on it. */
  lemma {:induction false} ChainSurvives(m: Memory, n: Memory, h: map<Ptr, nat>, p: Ptr, c: seq<Ptr>)
    requires LeftOf(m, n) && Counted(n, h) && IsChain(m, p, c) && (p != 0 ==> p in n)
    ensures IsChain(n, p, c) && Flat(n, c) == Flat(m, c)
    decreases |c|
  {
    if |c| > 0 {
      ChainTail(m, p, c);
      assert RefOk(n, h, 0, p);
      ChainSurvives(m, n, h, m[p].next, c[1..]);
      ChainCons(n, p, c);
    }
  }

  lemma ChainCons(m: Memory, p: Ptr, c: seq<Ptr>)
    requires |c| > 0 && c[0] == p && p != 0 && p in m && IsChain(m, m[p].next, c[1..])
    ensures IsChain(m, p, c)
  {
    forall i {:trigger Link(m, c, i)} | 0 <= i < |c| ensures Link(m, c, i) {
      if i > 0 {
        assert Link(m, c[1..], i - 1);
        assert c[1..][i..] == c[i + 1..];
      }
    }
  }

  class TcpPcb {
    const mem: Pbuf.PbufMem
    var state: State
    var rcvNxt: u32
    var rcvWnd: u16
    var annWnd: u16
    var annEdge: u32
    var mss: u16
    var rxClosed: bool
    var refusedData: Ptr
    var refusedFin: bool

    ghost var refusedChain: seq<Ptr>
    ghost var delivered: seq<u8>
    ghost var consumed: nat
    ghost var eof: bool
    ghost var edge: int

    /** tcp_listen_input on a SYN with sequence number irs. */
    constructor (m: Pbuf.PbufMem, irs: u32, effMss: u16)
      ensures Valid() && mem == m && View() == Fresh(irs, effMss)
    {
      mem := m;
      state, mss, rxClosed := SYN_RCVD, effMss, false;
      rcvNxt, annEdge := Wrap32(irs + 1), Wrap32(irs + 1);
      rcvWnd, annWnd := TCP_WND, TCP_WND;
      refusedData, refusedFin := 0, false;
      refusedChain, delivered, consumed, eof, edge := [], [], 0, false, 0;
    }

    ghost predicate Valid()
      reads this, mem
    {
      IsChain(mem.cell, refusedData, refusedChain)
    }

    /** The pcb's own reference to refused data is among the holders h. */
    ghost predicate Owns(h: map<Ptr, nat>)
      reads this
    {
      refusedData != 0 ==> Count(h, refusedData) > 0
    }

    /** The pcb as TcpSpec sees it. */
    ghost function View(): Pcb
      reads this, mem
    {
      Pcb(state, rcvNxt, rcvWnd, annWnd, annEdge, mss, rxClosed,
          if refusedData == 0 then None else Some(Refused(Flat(mem.cell, refusedChain), refusedFin)),
          delivered, consumed, eof, edge)
    }

    /** tcp_update_rcv_ann_wnd. */
    method UpdateRcvAnnWnd() returns (inflation: u32)
      requires Valid()
      modifies `annWnd
      ensures Valid() && View() == UpdateAnn(old(View())) && inflation == Inflation(old(View()))
    {
      hide Wrap32, Flat;
      var newRightEdge := Wrap32(rcvNxt + rcvWnd);
      if SeqGeq(newRightEdge, Wrap32(annEdge + Min(TCP_WND / 2, mss))) {
        annWnd := rcvWnd;
        return Wrap32(newRightEdge - annEdge);
      }
      if SeqGt(rcvNxt, annEdge) {
        annWnd := 0;
      } else {
        var newRcvAnnWnd := Wrap32(annEdge - rcvNxt);
        annWnd := Wrap16(newRcvAnnWnd);
      }
      return 0;
    }

    /** A segment is sent: its window field announces the edge. */
    method Announce()
      requires Valid()
      modifies `annEdge, `edge
      ensures Valid() && View() == Announced(old(View()))
    {
      hide Wrap32;
      edge := Pos(View()) + annWnd;
      annEdge := Wrap32(rcvNxt + annWnd);
    }

    /** tcp_recved; `sent` tells whether the update gets out when one is due. */
    method Recved(len: u16, sent: bool)
      requires Valid()
      modifies `rcvWnd, `annWnd, `annEdge, `consumed, `edge
      ensures Valid() && View() == TcpSpec.Recved(old(View()), Report(len, sent))
    {
      hide Wrap32, Flat, UpdateAnn, Inflation;
      rcvWnd := Wrap16(rcvWnd + len);
      if rcvWnd > TCP_WND {
        rcvWnd := TCP_WND;
      } else if rcvWnd == 0 {
        if state == CLOSE_WAIT || state == LAST_ACK {
          rcvWnd := TCP_WND;
        }
      }
      consumed := consumed + len;
      var inflation := UpdateRcvAnnWnd();
      if Signed(inflation) >= TCP_WND_UPDATE_THRESHOLD && sent {
        Announce();
      }
    }

    method RecvedAll(reports: seq<Report>)
      requires Valid()
      modifies `rcvWnd, `annWnd, `annEdge, `consumed, `edge
      ensures Valid() && View() == TcpSpec.RecvedAll(old(View()), reports)
    {
      hide TcpSpec.Recved;
      for i := 0 to |reports|
        invariant Valid()
        invariant TcpSpec.RecvedAll(old(View()), reports) == TcpSpec.RecvedAll(View(), reports[i..])
      {
        Recved(reports[i].len, reports[i].sent);
        assert reports[i..][1..] == reports[i + 1..];
      }
    }

    /** The front trimming of tcp_receive: the pbufs of the segment lose the bytes before
        rcv_nxt. */
    method TrimFront(p: Ptr, seqno0: u32, tcplen: nat, ghost c: seq<Ptr>, ghost s: Seg, ghost h: map<Ptr, nat>)
      returns (seqno: u32)
      requires OnePacket(mem.cell, p, c) && |c| > 0 && Counted(mem.cell, h)
      requires s.seqno == seqno0 && s.data == Flat(mem.cell, c) && 0 < tcplen == SegLen(s) <= 0x1_0000
      requires Pbuf.Small(mem.cell, c)
      modifies mem
      ensures OnePacket(mem.cell, p, c) && Counted(mem.cell, h)
      ensures var t := FrontTrimmed(rcvNxt, s); seqno == t.seqno && Flat(mem.cell, c) == t.data
    {
      hide Diff, Flat, Counted, Pbuf.SameLinks;
      seqno := seqno0;
      if SeqBetween(rcvNxt, Wrap32(seqno + 1), Wrap32(seqno + tcplen - 1)) {
        var off := Signed(Wrap32(rcvNxt - seqno));
        FrontInside(rcvNxt, s);
        if off > 0 {
          mem.HideFront(p, off, c);
          LinksKeepCounts(old(mem.cell), mem.cell, c, h);
        }
        seqno := rcvNxt;
      }
    }

    /** The tail trimming: a segment longer than the window loses its FIN and its tail. */
    method TrimTail(p: Ptr, syn: bool, fin0: bool, ghost c: seq<Ptr>, ghost t: Seg, ghost h: map<Ptr, nat>)
      returns (tcplen: nat, fin: bool, ghost d: seq<Ptr>)
      requires OnePacket(mem.cell, p, c) && |c| > 0 && Counted(mem.cell, h) && rcvWnd > 0
      requires t == Seg(t.seqno, Flat(mem.cell, c), syn, fin0, t.rst, t.ack)
      modifies mem
      ensures |d| > 0 && OnePacket(mem.cell, p, d) && Counted(mem.cell, h)
      ensures var u := TailTrimmed(old(View()), t);
        Flat(mem.cell, d) == u.data && fin == u.fin && tcplen == SegLen(u) <= rcvWnd && u.seqno == t.seqno
    {
      hide Flat, Counted;
      TotLenSums(mem.cell, p, c);
      d := c;
      fin := fin0;
      var len: nat := mem.cell[p].totLen;
      tcplen := len + (if fin || syn then 1 else 0);
      if tcplen > rcvWnd {
        fin := false;
        len := rcvWnd;
        if syn {
          len := len - 1;
        }
        d := Cut(p, len, c, h);
        tcplen := len + (if syn then 1 else 0);
      }
    }

    /** The rest of tcp_receive for an in-order segment: its tail is cut to the window, the
        window moves, and the pbufs become recv_data. */
    method TakeText(p: Ptr, seqno: u32, syn: bool, fin0: bool, ghost c: seq<Ptr>, ghost t: Seg,
                    ghost h: map<Ptr, nat>)
      returns (data: Ptr, gotFin: bool, ghost d: seq<Ptr>)
      requires Valid() && refusedData == 0
      requires OnePacket(mem.cell, p, c) && |c| > 0 && Counted(mem.cell, h)
      requires t == Seg(seqno, Flat(mem.cell, c), syn, fin0, t.rst, t.ack)
      requires rcvWnd > 0
      modifies mem, `rcvNxt, `rcvWnd, `annWnd
      ensures Valid() && Counted(mem.cell, h)
      ensures var r := TcpSpec.TakeText(old(View()), t);
        && View() == r.pcb && gotFin == r.gotFin
        && OnePacket(mem.cell, p, d) && Flat(mem.cell, d) == r.data
        && data == (if |r.data| > 0 then p else 0)
    {
      hide Wrap32, UpdateAnn, Flat, TailTrimmed, Counted;
      NullChain(mem.cell, mem.cell, refusedChain);
      var tcplen;
      tcplen, gotFin, d := TrimTail(p, syn, fin0, c, t, h);
      rcvNxt := Wrap32(seqno + tcplen);
      rcvWnd := rcvWnd - tcplen;
      var inflation := UpdateRcvAnnWnd();
      TotLenSums(mem.cell, p, d);
      data := if mem.cell[p].totLen > 0 then p else 0;
    }

    /** pbuf_realloc on the segment's pbufs; the pbufs left are the new chain. */
    method Cut(p: Ptr, len: u16, ghost c: seq<Ptr>, ghost h: map<Ptr, nat>) returns (ghost d: seq<Ptr>)
      requires OnePacket(mem.cell, p, c) && |c| > 0 && Counted(mem.cell, h) && len <= |Flat(mem.cell, c)|
      modifies mem
      ensures |d| > 0 && OnePacket(mem.cell, p, d) && Flat(mem.cell, d) == old(Flat(mem.cell, c))[..len]
      ensures Counted(mem.cell, h)
    {
      hide Flat, Counted;
      CountedRefs(mem.cell, h);
      ReallocKeepsCounts(mem.cell, h, p, c, len);
      TotLenSums(mem.cell, p, c);
      d := c;
      if len < |Flat(mem.cell, c)| {
        ReallocIsPrefix(mem.cell, p, c, len);
        d := c[..LastKept(mem.cell, c, len) + 1];
      }
      mem.Realloc(p, len, c);
    }

    /** The text part of tcp_receive; `tcplen` is tcp_input's. */
    method Receive(p: Ptr, seqno0: u32, tcplen: nat, syn: bool, fin: bool, ghost c: seq<Ptr>, ghost s: Seg,
                   ghost h: map<Ptr, nat>)
      returns (data: Ptr, gotFin: bool, ghost d: seq<Ptr>)
      requires Valid() && OnePacket(mem.cell, p, c) && |c| > 0 && Counted(mem.cell, h)
      requires s == Seg(seqno0, Flat(mem.cell, c), syn, fin, s.rst, s.ack) && |s.data| < 0xffff
      requires Pbuf.Small(mem.cell, c) && tcplen == SegLen(s) && (tcplen > 0 ==> refusedData == 0)
      modifies mem, `rcvNxt, `rcvWnd, `annWnd
      ensures Valid() && Counted(mem.cell, h)
      ensures var r := TcpSpec.Receive(old(View()), s);
        && View() == r.pcb && gotFin == r.gotFin
        && data == (if |r.data| > 0 then p else 0)
        && IsChain(mem.cell, p, d)
        && (data != 0 ==> tcplen > 0 && TakesText(state) && Flat(mem.cell, d) == r.data)
    {
      hide Wrap32, Diff, TcpSpec.TakeText, Flat, Counted;
      data, gotFin, d := 0, false, c;
      if tcplen > 0 && TakesText(state) {
        NullChain(mem.cell, mem.cell, refusedChain);
        var seqno := TrimFront(p, seqno0, tcplen, c, s, h);
        ghost var t := FrontTrimmed(rcvNxt, s);
        if SeqBetween(seqno, rcvNxt, Wrap32(rcvNxt + rcvWnd - 1)) {
          if rcvNxt == seqno {
            ZeroWindow(rcvNxt, rcvWnd);
            data, gotFin, d := TakeText(p, seqno, syn, fin, c, t, h);
          }
        }
      }
    }

    /** The receive callback with data; whether tcp_input stores it is its answer's matter. */
    method Offer(data: Ptr, fin: bool, reply: Reply, ghost d: seq<Ptr>)
      requires Valid() && refusedData == 0 && data != 0 && IsChain(mem.cell, data, d)
      modifies this
      ensures Valid() && View() == TcpSpec.Offer(old(View()), Flat(mem.cell, d), fin, reply)
      ensures refusedData == (if reply.Refuse? then data else 0)
    {
      hide Flat, TcpSpec.Recved;
      match reply
      case Accept(reports) =>
        delivered := delivered + Flat(mem.cell, d);
        RecvedAll(reports);
      case Refuse =>
        refusedData, refusedFin, refusedChain := data, fin, d;
      case Abort =>
        state := GONE;
    }

    /** The place of the FIN goes back to the window, and the application is told. */
    method ReportFin(reply: Reply)
      requires Valid()
      modifies this
      ensures Valid() && View() == TcpSpec.ReportFin(old(View()), reply)
      ensures refusedData == old(refusedData)
    {
      hide Flat, TcpSpec.Recved;
      if rcvWnd != TCP_WND {
        rcvWnd := Wrap16(rcvWnd + 1);
      }
      eof := true;
      match reply
      case Accept(reports) => RecvedAll(reports);
      case Refuse =>
      case Abort => state := GONE;
    }

    /** tcp_process_refused_data. */
    method ProcessRefusedData(reply: Reply, finReply: Reply)
      requires Valid()
      modifies this
      ensures Valid() && View() == RetryRefused(old(View()), reply, finReply)
      ensures refusedData == old(refusedData) || refusedData == 0
    {
      hide Flat, TcpSpec.RecvedAll;
      if refusedData == 0 {
        return;
      }
      var data, refusedFlags := refusedData, refusedFin;
      ghost var d := refusedChain;
      refusedData, refusedChain := 0, [];
      Offer(data, refusedFlags, reply, d);
      if reply.Accept? && refusedFlags {
        ReportFin(finReply);
      }
    }

    /** pbuf_free of a chain somebody holds. */
    method Release(p: Ptr, ghost c: seq<Ptr>, ghost h: map<Ptr, nat>)
      requires Counted(mem.cell, h) && Count(h, p) > 0 && IsChain(mem.cell, p, c)
      modifies mem
      ensures Counted(mem.cell, Less(h, p)) && LeftOf(old(mem.cell), mem.cell)
    {
      hide Counted;
      CountedRefs(mem.cell, h);
      DropKeepsCounts(mem.cell, h, p);
      FreeLeaves(mem.cell, p);
      var count := mem.Free(p, c);
    }

    /** The end of tcp_input: the data and the FIN go to the application. */
    method Deliver(data: Ptr, gotFin: bool, recv: Reply, fin: Reply, ghost d: seq<Ptr>, ghost r: Received, ghost e: Env,
                   ghost h: map<Ptr, nat>)
      requires Valid() && r.pcb == View() && r.gotFin == gotFin && e.recv == recv && e.fin == fin
      requires data == 0 <==> r.data == []
      requires data != 0 ==> refusedData == 0 && IsChain(mem.cell, data, d) && Flat(mem.cell, d) == r.data
      requires Counted(mem.cell, h) && (data != 0 ==> state != GONE && Count(h, data) > 0)
      modifies this, mem
      ensures Valid() && View() == TcpSpec.Deliver(r, e)
      ensures Counted(mem.cell, if data != 0 && old(rxClosed) then Less(h, data) else h)
      ensures data == 0 ==> mem.cell == old(mem.cell)
      ensures refusedData == old(refusedData) || (!old(rxClosed) && refusedData == data)
    {
      hide Flat, TcpSpec.Offer, TcpSpec.ReportFin, Counted;
      if state == GONE {
        return;
      }
      if data != 0 {
        if rxClosed {
          NullChain(mem.cell, mem.cell, refusedChain);
          Release(data, d, h);
          NullChain(mem.cell, mem.cell, refusedChain);
          state := GONE;
          return;
        }
        Offer(data, false, recv, d);
        if state == GONE {
          return;
        }
      }
      if gotFin {
        if refusedData != 0 {
          refusedFin := true;
        } else {
          ReportFin(fin);
        }
      }
    }

    /** The state switch of tcp_process after tcp_receive. */
    method Settle(gotFin: bool, finAcked: bool, ghost h: map<Ptr, nat>)
      requires Valid() && Active(state) && Counted(mem.cell, h) && Owns(h)
      modifies `state, `refusedData, `refusedChain, mem
      ensures Valid() && state == NextState(old(state), gotFin, finAcked)
      ensures if state == TIME_WAIT then View() == Purged(old(View())) else View() == old(View()).(state := state)
      ensures refusedData == old(refusedData) || refusedData == 0
      ensures Counted(mem.cell, Kept(h, old(refusedData), refusedData)) && LeftOf(old(mem.cell), mem.cell)
      ensures refusedData == old(refusedData) ==> mem.cell == old(mem.cell)
    {
      hide Flat, Counted, IsChain;
      if state == FIN_WAIT_1 {
        if gotFin {
          if finAcked {
            Purge(h);
          } else {
            state := CLOSING;
          }
        } else if finAcked {
          state := FIN_WAIT_2;
        }
      } else if state == FIN_WAIT_2 {
        if gotFin {
          Purge(h);
        }
      } else if state == CLOSING {
        if finAcked {
          Purge(h);
        }
      } else if state == LAST_ACK {
        if finAcked {
          state := GONE;
        }
      } else if gotFin {
        state := CLOSE_WAIT;
      }
    }

    /** tcp_pcb_purge frees refused data; then TIME_WAIT. */
    method Purge(ghost h: map<Ptr, nat>)
      requires Valid() && Counted(mem.cell, h) && Owns(h)
      modifies `state, `refusedData, `refusedChain, mem
      ensures Valid() && View() == Purged(old(View())) && refusedData == 0
      ensures Counted(mem.cell, Kept(h, old(refusedData), 0)) && LeftOf(old(mem.cell), mem.cell)
      ensures old(refusedData) == 0 ==> mem.cell == old(mem.cell)
    {
      hide Counted;
      if refusedData != 0 {
        Release(refusedData, refusedChain, h);
      }
      refusedData, refusedChain := 0, [];
      state := TIME_WAIT;
    }

    method ReceiveAndSettle(p: Ptr, seqno: u32, syn: bool, fin: bool, ack: bool, tcplen: nat, acksFin: bool,
                            ghost c: seq<Ptr>, ghost s: Seg, ghost e: Env, ghost h: map<Ptr, nat>)
      returns (data: Ptr, gotFin: bool, ghost d: seq<Ptr>)
      requires Valid() && OnePacket(mem.cell, p, c) && |c| > 0 && Counted(mem.cell, h) && Owns(h)
      requires Count(h, p) > (if p == refusedData then 1 else 0)
      requires s == Seg(seqno, Flat(mem.cell, c), syn, fin, s.rst, ack) && |s.data| < 0xffff && e.acksFin == acksFin
      requires Pbuf.Small(mem.cell, c) && tcplen == SegLen(s) && (tcplen > 0 ==> refusedData == 0) && Active(state)
      modifies this, mem
      ensures Valid() && Counted(mem.cell, Kept(h, old(refusedData), refusedData)) && IsChain(mem.cell, p, d)
      ensures refusedData == old(refusedData) || refusedData == 0
      ensures var r := Settled(TcpSpec.Receive(old(View()), s), s, e);
        && View() == r.pcb && gotFin == r.gotFin
        && data == (if |r.data| > 0 then p else 0)
        && (data != 0 ==> state != GONE && refusedData == old(refusedData) == 0 && Flat(mem.cell, d) == r.data)
    {
      hide Wrap32, Diff, Flat, TcpSpec.Receive, Purged, Counted, LeftOf, IsChain;
      data, gotFin, d := Receive(p, seqno, tcplen, syn, fin, c, s, h);
      ghost var m := mem.cell;
      Settle(gotFin, ack && acksFin, h);
      HolderThere(mem.cell, Kept(h, old(refusedData), refusedData), p);
      ChainSurvives(m, mem.cell, Kept(h, old(refusedData), refusedData), p, d);
    }

    /** tcp_process. */
    method Process(p: Ptr, seqno: u32, syn: bool, fin: bool, rst: bool, ack: bool, tcplen: nat,
                   ackOk: bool, accepted: bool, acksFin: bool, ghost c: seq<Ptr>, ghost s: Seg, ghost e: Env,
                   ghost h: map<Ptr, nat>)
      returns (data: Ptr, gotFin: bool, ghost d: seq<Ptr>)
      requires Valid() && OnePacket(mem.cell, p, c) && |c| > 0 && Counted(mem.cell, h) && Owns(h)
      requires Count(h, p) > (if p == refusedData then 1 else 0)
      requires s == Seg(seqno, Flat(mem.cell, c), syn, fin, rst, ack) && |s.data| < 0xffff
      requires e.ackOk == ackOk && e.accepted == accepted && e.acksFin == acksFin
      requires Pbuf.Small(mem.cell, c) && tcplen == SegLen(s) && (tcplen > 0 ==> refusedData == 0)
      modifies this, mem
      ensures Valid() && Counted(mem.cell, Kept(h, old(refusedData), refusedData)) && IsChain(mem.cell, p, d)
      ensures refusedData == old(refusedData) || refusedData == 0
      ensures var r := TcpSpec.Process(old(View()), s, e);
        && View() == r.pcb && gotFin == r.gotFin
        && data == (if |r.data| > 0 then p else 0)
        && (data != 0 ==> state != GONE && refusedData == old(refusedData) == 0 && Flat(mem.cell, d) == r.data)
    {
      hide Wrap32, Diff, Flat, TcpSpec.Receive, Settled, Counted, IsChain;
      data, gotFin, d := 0, false, c;
      if !Active(state) {
        return;
      }
      if rst {
        if seqno == rcvNxt {
          state := GONE;
        }
        return;
      }
      if syn && state != SYN_RCVD {
        return;
      }
      if state == SYN_RCVD {
        if !ack || !ackOk {
          return;
        }
        state := ESTABLISHED;
        if !accepted {
          state := GONE;
          return;
        }
      }
      data, gotFin, d := ReceiveAndSettle(p, seqno, syn, fin, ack, tcplen, acksFin, c, s, e, h);
    }

    /** tcp_input for a segment of this connection.  h says who holds pbufs outside pbuf
        memory: the driver's reference to the segment p is passed on with the data, or given
        up; the pcb's to refused data is given up by a purge. */
    method Input(p: Ptr, seqno: u32, syn: bool, fin: bool, rst: bool, ack: bool, e: Env, ghost c: seq<Ptr>,
                 ghost h: map<Ptr, nat>)
      requires Valid() && Active(state) && Counted(mem.cell, h) && Owns(h)
      requires OnePacket(mem.cell, p, c) && |c| > 0 && |Flat(mem.cell, c)| < 0xffff && Pbuf.Small(mem.cell, c)
      requires Count(h, p) > (if p == refusedData then 1 else 0)
      modifies this, mem
      ensures Valid()
      ensures var s := Seg(seqno, old(Flat(mem.cell, c)), syn, fin, rst, ack); var v := old(View());
        && View() == TcpSpec.Input(v, s, e)
        && var left := HoldersAfter(h, p, old(refusedData), v, s, e);
           Counted(mem.cell, left) && Owns(left)
    {
      hide Flat, TcpSpec.Process, TcpSpec.Deliver, RetryRefused, Counted;
      ghost var s := Seg(seqno, Flat(mem.cell, c), syn, fin, rst, ack);
      TotLenSums(mem.cell, p, c);
      CountedRefs(mem.cell, h);
      var tcplen: nat := mem.cell[p].totLen + (if fin || syn then 1 else 0);
      RetryKeepsRcvNxt(View(), e.retry, e.retryFin);
      ProcessRefusedData(e.retry, e.retryFin);
      if state == GONE || (refusedData != 0 && tcplen > 0) {
        GiveUp(p, c, h);
        return;
      }
      ghost var r := TcpSpec.Process(View(), s, e);
      ghost var was := refusedData;
      var data, gotFin;
      ghost var d;
      data, gotFin, d := Process(p, seqno, syn, fin, rst, ack, tcplen, e.ackOk, e.accepted, e.acksFin, c, s, e, h);
      ghost var left := Kept(h, was, refusedData);
      Deliver(data, gotFin, e.recv, e.fin, d, r, e, left);
      if data == 0 {
        GiveUp(p, d, left);
      }
    }

    /** The reference to a segment that was not passed on. */
    method GiveUp(p: Ptr, ghost c: seq<Ptr>, ghost h: map<Ptr, nat>)
      requires Valid() && Counted(mem.cell, h) && Owns(h) && IsChain(mem.cell, p, c)
      requires Count(h, p) > (if p == refusedData then 1 else 0)
      modifies mem
      ensures Valid() && View() == old(View()) && Counted(mem.cell, Less(h, p)) && Owns(Less(h, p))
    {
      hide Counted, LeftOf, Flat, IsChain;
      Release(p, c, h);
      if refusedData != 0 {
        HolderThere(mem.cell, Less(h, p), refusedData);
      }
      ChainSurvives(old(mem.cell), mem.cell, Less(h, p), refusedData, refusedChain);
    }
  }

  /** Who holds pbufs after tcp_input: a segment whose data is offered to the application is
      then its, or the pcb's as refused data; every other one is given up, and so is refused
      data when the pcb is purged. */
  ghost function HoldersAfter(h: map<Ptr, nat>, p: Ptr, refused: Ptr, v: Pcb, s: Seg, e: Env): map<Ptr, nat>
  {
    var d := RetryRefused(v, e.retry, e.retryFin);
    if d.state == GONE || (d.refused.Some? && SegLen(s) > 0) then Less(h, p)
    else
      var r := TcpSpec.Process(d, s, e);
      var left := if d.refused.Some? && r.pcb.refused.None? then Less(h, refused) else h;
      if |r.data| > 0 && !r.pcb.rxClosed then left else Less(left, p)
  }

  /** The reference to a segment is passed on if and only if the application or the pcb got
      bytes of it; with refused data still waiting, a segment that takes sequence numbers is
      given up unread. */
  lemma PassedOnIffGiven(h: map<Ptr, nat>, p: Ptr, refused: Ptr, v: Pcb, s: Seg, e: Env)
    requires !e.recv.Abort? && Active(v.state)
    ensures v.refused.None? ==>
      HoldersAfter(h, p, refused, v, s, e) == if |Given(TcpSpec.Input(v, s, e))| > |Given(v)| then h else Less(h, p)
    ensures v.refused.Some? && e.retry.Refuse? && SegLen(s) > 0 ==>
      HoldersAfter(h, p, refused, v, s, e) == Less(h, p) && TcpSpec.Input(v, s, e) == v
  {
    hide TcpSpec.Process, TcpSpec.Deliver;
    if v.refused.None? {
      ProcessGivesNone(v, s, e);
      DeliverGives(TcpSpec.Process(v, s, e), e);
    }
  }

  lemma ProcessGivesNone(v: Pcb, s: Seg, e: Env)
    requires v.refused.None?
    ensures var r := TcpSpec.Process(v, s, e);
      && r.pcb.refused.None? && r.pcb.delivered == v.delivered && r.pcb.rxClosed == v.rxClosed
      && (r.pcb.state == GONE ==> r.data == [])
  {
    hide TcpSpec.Receive, Wrap32;
    var t := v.(state := ESTABLISHED);
    TcpProgress.ReceiveFrame(v, s);
    TcpProgress.ReceiveFrame(t, s);
    TextTaken(v, s);
  }

  lemma TextTaken(v: Pcb, s: Seg)
    ensures TcpSpec.Receive(v, s).data != [] ==> TakesText(v.state)
  {
    hide TcpSpec.TakeText, FrontTrimmed, Diff, Wrap32, SegLen;
  }

  lemma DeliverGives(r: Received, e: Env)
    requires r.pcb.refused.None? && !e.recv.Abort? && (r.pcb.state == GONE ==> r.data == [])
    ensures |Given(TcpSpec.Deliver(r, e))| == |Given(r.pcb)| + if r.pcb.rxClosed then 0 else |r.data|
  {
    hide TcpSpec.Recved;
    var d := r.pcb;
    if |r.data| > 0 && e.recv.Accept? {
      d := d.(delivered := d.delivered + r.data, refused := None);
      RecvedAllFrame(d, e.recv.reports);
      d := TcpSpec.RecvedAll(d, e.recv.reports);
    }
    if e.fin.Accept? { RecvedAllFrame(FinCounted(d), e.fin.reports); }
  }

  /** No sequence number lies in a closed window. */
  lemma ZeroWindow(n: u32, wnd: u16)
    ensures wnd == 0 ==> !SeqBetween(n, n, Wrap32(n + wnd - 1))
  {
    if wnd == 0 {
      var a: int := n;
      DiffIsDistance(a, 0, -1);
    }
  }
}
