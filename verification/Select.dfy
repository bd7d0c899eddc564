/** The wake-up protocol between selecting threads and the event callback (api/sockets.c),
    as a state machine whose steps are the protected sections of the source, in any
    interleaving. */
module Select {
  type Tid = nat
  type Cid = nat

  /** The event fields of a socket and its select_waiting. */
  datatype Sock = Sock(rcvEvent: int, sendEvent: bool, errEvent: bool, waiting: nat)

  /** Where lwip_select stands after its first scan found nothing: counting itself in on
      socket i, scanning socket i again, waiting, counting itself out, about to leave the
      list. */
  datatype Pc = Counting(i: nat) | Scanning(i: nat, found: bool) | Blocked | Leaving(i: nat)

  /** A select call: its sets (of descriptors below max) and its entry on the list. */
  datatype Thread = Thread(pc: Pc, readSet: set<nat>, writeSet: set<nat>, exceptSet: set<nat>, max: nat,
      signalled: bool)

  /** An event_callback between two protected sections: its socket, the place in the list of
      the entry it looked at, and last_select_cb_ctr. */
  datatype Walk = Walk(s: nat, pos: nat, last: nat)

  datatype State = State(socks: seq<Sock>, threads: map<Tid, Thread>, list: seq<Tid>, ctr: nat, walks: map<Cid, Walk>)

  predicate Selects(th: Thread, s: nat) { s < th.max && (s in th.readSet || s in th.writeSet || s in th.exceptSet) }

  /** The test of event_callback (and, for descriptors below max, of lwip_selscan). */
  predicate Wants(th: Thread, s: nat, sock: Sock) {
    || (s in th.readSet && sock.rcvEvent > 0)
    || (s in th.writeSet && sock.sendEvent)
    || (s in th.exceptSet && sock.errEvent)
  }

  // ---------------------------------------------------------------- steps

  datatype Evt = RCVPLUS | RCVMINUS | SENDPLUS | SENDMINUS | ERROR

  datatype Step =
    | Enlist(t: Tid, readSet: set<nat>, writeSet: set<nat>, exceptSet: set<nat>, max: nat)
    | CountIn(t: Tid)
    | Scan(t: Tid)
    | Wake(t: Tid)
    | TimeOut(t: Tid)
    | CountOut(t: Tid)
    | Notify(k: Cid, s: nat, evt: Evt)
    | WalkOn(k: Cid)

  predicate Enabled(st: State, step: Step) {
    match step
    case Enlist(t, _, _, _, max) => t !in st.threads && max <= |st.socks|
    case CountIn(t) => t in st.threads && st.threads[t].pc.Counting?
    case Scan(t) => t in st.threads && st.threads[t].pc.Scanning?
    case Wake(t) => t in st.threads && st.threads[t].pc.Blocked? && st.threads[t].signalled
    case TimeOut(t) => t in st.threads && st.threads[t].pc.Blocked?
    case CountOut(t) => t in st.threads && st.threads[t].pc.Leaving?
    case Notify(k, s, _) => k !in st.walks && s < |st.socks|
    case WalkOn(k) => k in st.walks
  }

  function WithPc(st: State, t: Tid, pc: Pc): State
    requires t in st.threads
  {
    st.(threads := st.threads[t := st.threads[t].(pc := pc)])
  }

  /** select_waiting of socket i up or down by one. */
  function Waiting(st: State, i: nat, d: int): State {
    if i < |st.socks| && st.socks[i].waiting + d >= 0 then
      st.(socks := st.socks[i := st.socks[i].(waiting := st.socks[i].waiting + d)])
    else st
  }

  function Without(list: seq<Tid>, t: Tid): seq<Tid> {
    if |list| == 0 then [] else if list[0] == t then Without(list[1..], t) else [list[0]] + Without(list[1..], t)
  }

  function Happened(sock: Sock, evt: Evt): Sock {
    match evt
    case RCVPLUS => sock.(rcvEvent := sock.rcvEvent + 1)
    case RCVMINUS => sock.(rcvEvent := sock.rcvEvent - 1)
    case SENDPLUS => sock.(sendEvent := true)
    case SENDMINUS => sock.(sendEvent := false)
    case ERROR => sock.(errEvent := true)
  }

  /** Entry t of the list looked at for socket s: signalled if it wants what happened. */
  function Looked(st: State, t: Tid, s: nat): State {
    if t in st.threads && s < |st.socks| && !st.threads[t].signalled && Wants(st.threads[t], s, st.socks[s]) then
      st.(threads := st.threads[t := st.threads[t].(signalled := true)])
    else st
  }

  /** Callback k looks at place pos of the list, or ends behind its last entry. */
  function Visit(st: State, k: Cid, s: nat, pos: nat): State {
    if pos < |st.list| then Looked(st, st.list[pos], s).(walks := st.walks[k := Walk(s, pos, st.ctr)])
    else st.(walks := st.walks - {k})
  }

  function Apply(st: State, step: Step): State
    requires Enabled(st, step)
  {
    match step
    case Enlist(t, r, w, e, max) =>
      var th := Thread(Counting(0), r, w, e, max, false);
      st.(threads := st.threads[t := th], list := [t] + st.list, ctr := st.ctr + 1)
    case CountIn(t) =>
      var th := st.threads[t];
      var i := th.pc.i;
      if i >= th.max then WithPc(st, t, Scanning(0, false))
      else WithPc(if Selects(th, i) then Waiting(st, i, 1) else st, t, Counting(i + 1))
    case Scan(t) =>
      var th := st.threads[t];
      var i := th.pc.i;
      if i >= th.max then WithPc(st, t, if th.pc.found then Leaving(0) else Blocked)
      else WithPc(st, t, Scanning(i + 1, th.pc.found || (i < |st.socks| && Wants(th, i, st.socks[i]))))
    case Wake(t) => WithPc(st, t, Leaving(0))
    case TimeOut(t) => WithPc(st, t, Leaving(0))
    case CountOut(t) =>
      var th := st.threads[t];
      var i := th.pc.i;
      if i >= th.max then st.(threads := st.threads - {t}, list := Without(st.list, t), ctr := st.ctr + 1)
      else WithPc(if Selects(th, i) then Waiting(st, i, -1) else st, t, Leaving(i + 1))
    case Notify(k, s, evt) =>
      var d := st.(socks := st.socks[s := Happened(st.socks[s], evt)]);
      if d.socks[s].waiting == 0 then d else Visit(d, k, s, 0)
    case WalkOn(k) =>
      var w := st.walks[k];
      Visit(st, k, w.s, if w.last != st.ctr then 0 else w.pos + 1)
  }

  // ---------------------------------------------------------------- the invariant

  /** Thread th has counted itself in on socket s. */
  predicate Counted(th: Thread, s: nat) {
    Selects(th, s) &&
    match th.pc
    case Counting(i) => s < i
    case Leaving(i) => s >= i
    case _ => true
  }

  ghost function Counters(st: State, s: nat): set<Tid> { set t | t in st.threads && Counted(st.threads[t], s) }

  /** Thread th relies on being woken for socket s. */
  predicate Relies(th: Thread, s: nat) {
    Selects(th, s) && (th.pc.Blocked? || (th.pc.Scanning? && !th.pc.found && s < th.pc.i))
  }

  /** Callback k works for socket s and has yet to look at t's entry: it will start over, or
      the entry lies further down. */
  ghost predicate Coming(st: State, k: Cid, t: Tid, s: nat) {
    && k in st.walks && st.walks[k].s == s
    && (st.walks[k].last != st.ctr || exists p :: st.walks[k].pos < p < |st.list| && st.list[p] == t)
  }

  ghost predicate Guarded(st: State, t: Tid, s: nat)
    requires t in st.threads
  {
    st.threads[t].signalled || exists k :: Coming(st, k, t, s)
  }

  ghost predicate WalkOk(st: State, k: Cid)
    requires k in st.walks
  {
    st.walks[k].last <= st.ctr && (st.walks[k].last == st.ctr ==> st.walks[k].pos < |st.list|)
  }

  ghost predicate ListOk(st: State) {
    && (forall p, q :: 0 <= p < q < |st.list| ==> st.list[p] != st.list[q])
    && (forall t :: t in st.list <==> t in st.threads)
    && (forall t :: t in st.threads ==> st.threads[t].max <= |st.socks|)
  }

  ghost predicate CountsOk(st: State) {
    forall s :: 0 <= s < |st.socks| ==> st.socks[s].waiting == |Counters(st, s)|
  }

  ghost predicate Safe(st: State) {
    && ListOk(st) && CountsOk(st)
    && (forall k :: k in st.walks ==> WalkOk(st, k))
    && (forall t: Tid, s: nat {:trigger Guarded(st, t, s)} ::
          t in st.threads && 0 <= s < |st.socks| && Relies(st.threads[t], s) && Wants(st.threads[t], s, st.socks[s]) ==>
            Guarded(st, t, s))
  }

  // ---------------------------------------------------------------- what each step keeps

  lemma {:induction false} WithoutIs(list: seq<Tid>, t: Tid)
    ensures forall u :: u in Without(list, t) <==> u in list && u != t
    ensures (forall p, q :: 0 <= p < q < |list| ==> list[p] != list[q]) ==>
      forall p, q :: 0 <= p < q < |Without(list, t)| ==> Without(list, t)[p] != Without(list, t)[q]
  {
    if |list| > 0 {
      WithoutIs(list[1..], t);
      if forall p, q :: 0 <= p < q < |list| ==> list[p] != list[q] {
        assert forall q :: 0 <= q < |list[1..]| ==> list[1..][q] == list[q + 1];
        assert list[0] !in list[1..];
      }
    }
  }

  /** A step of one thread inside its select call, or signals: the list stays. */
  lemma ListSame(st: State, d: State)
    requires ListOk(st) && d.list == st.list && d.threads.Keys == st.threads.Keys && |d.socks| == |st.socks|
    requires forall t {:trigger d.threads[t]} :: t in st.threads ==> d.threads[t].max == st.threads[t].max
    ensures ListOk(d)
  {
  }

  /** Steps that change neither a count nor who is counted. */
  lemma CountsSame(st: State, d: State)
    requires CountsOk(st) && |d.socks| == |st.socks|
    requires forall s :: 0 <= s < |st.socks| ==> d.socks[s].waiting == st.socks[s].waiting
    requires forall t, s {:trigger Counted(st.threads[t], s)} {:trigger Counted(d.threads[t], s)} ::
      (t in st.threads && Counted(st.threads[t], s)) <==> (t in d.threads && Counted(d.threads[t], s))
    ensures CountsOk(d)
  {
    forall s | 0 <= s < |d.socks| ensures d.socks[s].waiting == |Counters(d, s)| {
      assert Counters(d, s) == Counters(st, s);
    }
  }

  /** One thread counts itself in on one socket, or out. */
  lemma CountsMoved(st: State, d: State, t: Tid, i: nat, up: bool)
    requires CountsOk(st) && t in st.threads && d.threads.Keys == st.threads.Keys && i < |st.socks| == |d.socks|
    requires forall u :: u in st.threads && u != t ==> d.threads[u] == st.threads[u]
    requires forall s :: 0 <= s < |st.socks| && s != i ==>
      d.socks[s].waiting == st.socks[s].waiting && Counted(st.threads[t], s) == Counted(d.threads[t], s)
    requires Counted(st.threads[t], i) == !up && Counted(d.threads[t], i) == up
    requires st.socks[i].waiting + (if up then 1 else -1) >= 0
      ==> d.socks[i].waiting == st.socks[i].waiting + (if up then 1 else -1)
    ensures CountsOk(d)
  {
    forall s | 0 <= s < |d.socks| ensures d.socks[s].waiting == |Counters(d, s)| {
      if s != i {
        assert Counters(d, s) == Counters(st, s);
      } else if up {
        assert Counters(d, i) == Counters(st, i) + {t} && t !in Counters(st, i);
      } else {
        assert Counters(d, i) == Counters(st, i) - {t} && t in Counters(st, i);
      }
    }
  }

  /** Only thread t's program counter and, maybe, one count differ. */
  ghost predicate OneMoved(st: State, d: State, t: Tid) {
    && t in st.threads && d.threads.Keys == st.threads.Keys
    && d.list == st.list && d.ctr == st.ctr && d.walks == st.walks && |d.socks| == |st.socks|
    && (forall u {:trigger d.threads[u]} {:trigger st.threads[u]} :: u in st.threads && u != t ==>
          d.threads[u] == st.threads[u])
    && d.threads[t] == st.threads[t].(pc := d.threads[t].pc)
    && (forall s {:trigger d.socks[s]} :: 0 <= s < |st.socks| ==>
          d.socks[s] == st.socks[s].(waiting := d.socks[s].waiting))
  }

  predicate Internal(st: State, step: Step)
    requires Enabled(st, step)
  {
    match step
    case CountIn(_) => true
    case Scan(_) => true
    case Wake(_) => true
    case TimeOut(_) => true
    case CountOut(t) => st.threads[t].pc.i < st.threads[t].max
    case _ => false
  }

  function Mover(step: Step): Tid
  {
    match step
    case CountIn(t) => t
    case Scan(t) => t
    case Wake(t) => t
    case TimeOut(t) => t
    case CountOut(t) => t
    case Enlist(t, _, _, _, _) => t
    case _ => 0
  }

  lemma InternalMoves(st: State, step: Step)
    requires Enabled(st, step) && Internal(st, step)
    ensures OneMoved(st, Apply(st, step), Mover(step))
  {
  }

  lemma InternalCounts(st: State, step: Step)
    requires ListOk(st) && CountsOk(st) && Enabled(st, step) && Internal(st, step)
    ensures CountsOk(Apply(st, step))
  {
    hide Counters, CountsOk, ListOk, Wants;
    InternalMoves(st, step);
    var d, t := Apply(st, step), Mover(step);
    var th := st.threads[t];
    MaxOk(st, t);
    if (step.CountIn? || step.CountOut?) && th.pc.i < th.max && Selects(th, th.pc.i) {
      CountsMoved(st, d, t, th.pc.i, step.CountIn?);
    } else {
      CountsSame(st, d);
    }
  }

  lemma MaxOk(st: State, t: Tid)
    requires ListOk(st) && t in st.threads
    ensures st.threads[t].max <= |st.socks|
  {
  }

  /** A thread comes to rely on a socket only by scanning it and finding nothing. */
  lemma InternalRelies(st: State, step: Step, s: nat)
    requires Enabled(st, step) && Internal(st, step) && s < |st.socks|
    requires ListOk(st)
    ensures var d, t := Apply(st, step), Mover(step);
      Relies(d.threads[t], s) && Wants(d.threads[t], s, d.socks[s]) ==>
        Relies(st.threads[t], s) && Wants(st.threads[t], s, st.socks[s])
  {
    InternalMoves(st, step);
    MaxOk(st, Mover(step));
  }

  lemma InternalSafe(st: State, step: Step)
    requires Safe(st) && Enabled(st, step) && Internal(st, step)
    ensures Safe(Apply(st, step))
  {
    hide Apply, Enabled, Internal, ListOk, CountsOk, Relies, Wants, Mover;
    InternalMoves(st, step);
    InternalCounts(st, step);
    var d, t := Apply(st, step), Mover(step);
    ListSame(st, d);
    forall k | k in d.walks ensures WalkOk(d, k) { assert WalkOk(st, k); }
    forall u: Tid, s: nat | u in d.threads && s < |d.socks| && Relies(d.threads[u], s)
      && Wants(d.threads[u], s, d.socks[s])
      ensures Guarded(d, u, s)
    {
      InternalRelies(st, step, s);
      WantsSame(d.threads[u], s, st.socks[s], d.socks[s]);
      assert Guarded(st, u, s);
      GuardKept(st, d, u, s);
    }
  }

  lemma WantsSame(th: Thread, s: nat, x: Sock, y: Sock)
    requires y == x.(waiting := y.waiting)
    ensures Wants(th, s, x) == Wants(th, s, y)
  {
  }

  lemma GuardKept(st: State, d: State, t: Tid, s: nat)
    requires t in st.threads && t in d.threads && Guarded(st, t, s)
    requires d.list == st.list && d.ctr == st.ctr && d.walks == st.walks
    requires st.threads[t].signalled ==> d.threads[t].signalled
    ensures Guarded(d, t, s)
  {
    if !st.threads[t].signalled {
      var k :| Coming(st, k, t, s);
      assert Coming(d, k, t, s);
    }
  }

  /** A change of the list makes every callback under way start over. */
  lemma RestartGuards(st: State, d: State, t: Tid, s: nat)
    requires t in st.threads && t in d.threads && Guarded(st, t, s)
    requires d.ctr > st.ctr && d.walks == st.walks && d.threads[t] == st.threads[t]
    requires forall k :: k in st.walks ==> WalkOk(st, k)
    ensures Guarded(d, t, s)
  {
    if !st.threads[t].signalled {
      var k :| Coming(st, k, t, s);
      assert WalkOk(st, k);
      assert Coming(d, k, t, s);
    }
  }

  lemma EnlistSafe(st: State, step: Step)
    requires Safe(st) && Enabled(st, step) && step.Enlist?
    ensures Safe(Apply(st, step))
  {
    hide Wants, WalkOk;
    var d, t := Apply(st, step), step.t;
    CountsSame(st, d);
    forall k | k in d.walks ensures WalkOk(d, k) { assert WalkOk(st, k); WalkStillOk(st, d, k); }
    forall u: Tid, s: nat | u in d.threads && s < |d.socks| && Relies(d.threads[u], s)
      && Wants(d.threads[u], s, d.socks[s])
      ensures Guarded(d, u, s)
    {
      assert Guarded(st, u, s);
      RestartGuards(st, d, u, s);
    }
  }

  lemma WalkStillOk(st: State, d: State, k: Cid)
    requires k in st.walks && WalkOk(st, k) && d.walks == st.walks && d.ctr > st.ctr
    ensures WalkOk(d, k)
  {
  }

  lemma UnlistSafe(st: State, step: Step)
    requires Safe(st) && Enabled(st, step) && step.CountOut? && !Internal(st, step)
    ensures Safe(Apply(st, step))
  {
    hide Wants, WalkOk;
    var d, t := Apply(st, step), step.t;
    WithoutIs(st.list, t);
    CountsSame(st, d);
    forall k | k in d.walks ensures WalkOk(d, k) { assert WalkOk(st, k); WalkStillOk(st, d, k); }
    forall u: Tid, s: nat | u in d.threads && s < |d.socks| && Relies(d.threads[u], s)
      && Wants(d.threads[u], s, d.socks[s])
      ensures Guarded(d, u, s)
    {
      assert Guarded(st, u, s);
      RestartGuards(st, d, u, s);
    }
  }

  // ---------------------------------------------------------------- the callback

  /** t is guarded without callback k, or lies at place pos of the list or below, where k
      will look for socket s. */
  ghost predicate Covered(st: State, t: Tid, s2: nat, k: Cid, s: nat, pos: nat)
    requires t in st.threads
  {
    || st.threads[t].signalled
    || (exists j :: j != k && Coming(st, j, t, s2))
    || (s2 == s && exists p :: pos <= p < |st.list| && st.list[p] == t)
  }

  ghost predicate AllCovered(st: State, k: Cid, s: nat, pos: nat) {
    forall t: Tid, s2: nat {:trigger Covered(st, t, s2, k, s, pos)} ::
      t in st.threads && s2 < |st.socks| && Relies(st.threads[t], s2) && Wants(st.threads[t], s2, st.socks[s2]) ==>
        Covered(st, t, s2, k, s, pos)
  }

  lemma VisitCovers(st: State, k: Cid, s: nat, pos: nat, t: Tid, s2: nat)
    requires ListOk(st) && s < |st.socks| && t in st.threads && s2 < |st.socks|
    requires Covered(st, t, s2, k, s, pos) && Wants(st.threads[t], s2, st.socks[s2])
    ensures t in Visit(st, k, s, pos).threads && Guarded(Visit(st, k, s, pos), t, s2)
  {
    hide Wants, ListOk;
    var d := Visit(st, k, s, pos);
    InList(st, pos);
    if st.threads[t].signalled {
    } else if j :| j != k && Coming(st, j, t, s2) {
      assert Coming(d, j, t, s2);
    } else {
      var p :| pos <= p < |st.list| && st.list[p] == t;
      if p > pos { assert Coming(d, k, t, s2); }
    }
  }

  lemma InList(st: State, pos: nat)
    requires ListOk(st)
    ensures pos < |st.list| ==> st.list[pos] in st.threads
  {
  }

  /** A look changes nothing but a signal and the callback itself. */
  lemma VisitFrame(st: State, k: Cid, s: nat, pos: nat)
    ensures var d := Visit(st, k, s, pos);
      && d.list == st.list && d.ctr == st.ctr && d.socks == st.socks && d.threads.Keys == st.threads.Keys
      && (forall t {:trigger d.threads[t]} :: t in st.threads ==>
            d.threads[t] == st.threads[t].(signalled := d.threads[t].signalled))
      && (forall j :: j in d.walks && j != k ==> j in st.walks && d.walks[j] == st.walks[j])
      && (k in d.walks ==> d.walks[k] == Walk(s, pos, st.ctr) && pos < |st.list|)
  {
  }

  lemma VisitSafe(st: State, k: Cid, s: nat, pos: nat)
    requires ListOk(st) && CountsOk(st) && s < |st.socks| && AllCovered(st, k, s, pos)
    requires forall j :: j in st.walks ==> WalkOk(st, j)
    ensures Safe(Visit(st, k, s, pos))
  {
    hide Visit, Wants, ListOk, CountsOk, Covered, Guarded;
    VisitFrame(st, k, s, pos);
    var d := Visit(st, k, s, pos);
    ListSame(st, d);
    CountsSame(st, d);
    forall j | j in d.walks ensures WalkOk(d, j) { if j != k { assert WalkOk(st, j); } }
    forall t: Tid, s2: nat | t in d.threads && s2 < |d.socks| && Relies(d.threads[t], s2)
      && Wants(d.threads[t], s2, d.socks[s2])
      ensures Guarded(d, t, s2)
    {
      WantsOf(st.threads[t], d.threads[t], s2, d.socks[s2]);
      assert Covered(st, t, s2, k, s, pos);
      VisitCovers(st, k, s, pos, t, s2);
    }
  }

  lemma WantsOf(a: Thread, b: Thread, s: nat, x: Sock)
    requires b == a.(signalled := b.signalled)
    ensures Wants(a, s, x) == Wants(b, s, x) && Relies(a, s) == Relies(b, s)
  {
  }

  lemma WalkOnSafe(st: State, step: Step)
    requires Safe(st) && Enabled(st, step) && step.WalkOn?
    requires st.walks[step.k].s < |st.socks|
    ensures Safe(Apply(st, step))
  {
    hide Wants, CountsOk, Visit;
    var k := step.k;
    var w := st.walks[k];
    var pos := if w.last != st.ctr then 0 else w.pos + 1;
    forall t: Tid, s2: nat | t in st.threads && s2 < |st.socks| && Relies(st.threads[t], s2)
      && Wants(st.threads[t], s2, st.socks[s2])
      ensures Covered(st, t, s2, k, w.s, pos)
    {
      assert Guarded(st, t, s2);
      if !st.threads[t].signalled {
        var j :| Coming(st, j, t, s2);
        assert t in st.list;
      }
    }
    VisitSafe(st, k, w.s, pos);
  }

  /** Who relies on a socket has been counted. */
  lemma ReliersCounted(st: State, t: Tid, s: nat)
    requires CountsOk(st) && t in st.threads && s < |st.socks| && Relies(st.threads[t], s)
    ensures st.socks[s].waiting > 0
  {
    assert t in Counters(st, s);
  }

  lemma NotifySafe(st: State, step: Step)
    requires Safe(st) && Enabled(st, step) && step.Notify?
    ensures Safe(Apply(st, step))
  {
    hide CountsOk, Visit, Wants, Relies;
    var k, s := step.k, step.s;
    var d := st.(socks := st.socks[s := Happened(st.socks[s], step.evt)]);
    CountsSame(st, d);
    forall j | j in d.walks ensures WalkOk(d, j) { assert WalkOk(st, j); }
    forall t: Tid, s2: nat | t in d.threads && s2 < |d.socks| && Relies(d.threads[t], s2)
      && Wants(d.threads[t], s2, d.socks[s2])
      ensures Covered(d, t, s2, k, s, 0) && (s2 == s ==> d.socks[s].waiting > 0) && (s2 != s ==> Guarded(d, t, s2))
    {
      ReliersCounted(d, t, s2);
      if s2 != s {
        assert Guarded(st, t, s2);
        GuardKept(st, d, t, s2);
        if !d.threads[t].signalled {
          var j :| Coming(d, j, t, s2);
        }
      } else {
        assert t in d.list;
      }
    }
    if d.socks[s].waiting == 0 {
      assert Safe(d);
    } else {
      VisitSafe(d, k, s, 0);
    }
  }

  // ---------------------------------------------------------------- runs

  ghost predicate WalksInRange(st: State) { forall k :: k in st.walks ==> st.walks[k].s < |st.socks| }

  lemma StepSafe(st: State, step: Step)
    requires Safe(st) && WalksInRange(st) && Enabled(st, step)
    ensures Safe(Apply(st, step)) && WalksInRange(Apply(st, step))
  {
    hide Safe, Wants;
    match step
    case Enlist(_, _, _, _, _) => EnlistSafe(st, step);
    case Notify(k, s, evt) => NotifySafe(st, step);
    case WalkOn(k) => WalkOnSafe(st, step);
    case _ => if Internal(st, step) { InternalSafe(st, step); } else { UnlistSafe(st, step); }
  }

  ghost predicate Possible(st: State, steps: seq<Step>)
    decreases |steps|
  {
    |steps| > 0 ==> Enabled(st, steps[0]) && Possible(Apply(st, steps[0]), steps[1..])
  }

  ghost function Run(st: State, steps: seq<Step>): State
    requires Possible(st, steps)
    decreases |steps|
  {
    if |steps| == 0 then st else Run(Apply(st, steps[0]), steps[1..])
  }

  lemma {:induction false} RunSafe(st: State, steps: seq<Step>)
    requires Safe(st) && WalksInRange(st) && Possible(st, steps)
    ensures Safe(Run(st, steps))
    decreases |steps|
  {
    hide Safe, Apply, WalksInRange;
    if |steps| > 0 {
      StepSafe(st, steps[0]);
      RunSafe(Apply(st, steps[0]), steps[1..]);
    }
  }

  /** No select call under way, no callback, nobody waiting. */
  predicate Quiet(st: State) {
    && st.threads == map[] && st.walks == map[] && st.list == []
    && forall s :: 0 <= s < |st.socks| ==> st.socks[s].waiting == 0
  }

  lemma QuietSafe(st: State)
    requires Quiet(st)
    ensures Safe(st) && WalksInRange(st)
  {
    forall s | 0 <= s < |st.socks| ensures st.socks[s].waiting == |Counters(st, s)| { assert Counters(st, s) == {}; }
  }

  /** Socket s is in t's sets, with an event t asked for. */
  predicate Waits(st: State, t: Tid, s: nat)
    requires t in st.threads && s < |st.socks|
  {
    Selects(st.threads[t], s) && Wants(st.threads[t], s, st.socks[s])
  }

  /** No wake-up is lost: however selectors and callbacks interleave, a selector that waits
      while a socket of its sets has an event it asked for has been signalled, or a callback
      under way for that socket has its entry still before it.  So once no callback is under
      way, it has been signalled. */
  lemma NoLostWakeUp(st: State, steps: seq<Step>, t: Tid, s: nat)
    requires Quiet(st) && Possible(st, steps)
    ensures var d := Run(st, steps);
      && Safe(d)
      && (t in d.threads && d.threads[t].pc.Blocked? && s < |d.socks| && Waits(d, t, s) ==>
            && Guarded(d, t, s)
            && (d.walks == map[] ==> d.threads[t].signalled))
  {
    hide Run, Possible, Quiet, Wants;
    QuietSafe(st);
    RunSafe(st, steps);
  }

  /** The same step again and again. */
  function Repeat(step: Step, n: nat): seq<Step> { if n == 0 then [] else [step] + Repeat(step, n - 1) }

  /** And a callback that has an entry before it gets there: left to itself, within as many
      looks as the list has entries. */
  lemma {:induction false} CallbackArrives(st: State, k: Cid, t: Tid, s: nat, p: nat) returns (n: nat)
    requires ListOk(st) && s < |st.socks| && p < |st.list| && st.list[p] == t
    requires k in st.walks && st.walks[k].s == s && (st.walks[k].last != st.ctr || st.walks[k].pos < p)
    requires Wants(st.threads[t], s, st.socks[s])
    ensures n <= |st.list| && Possible(st, Repeat(WalkOn(k), n))
    ensures var d := Run(st, Repeat(WalkOn(k), n)); t in d.threads && d.threads[t].signalled
  {
    n := CallbackNears(st, k, t, s, p);
  }

  lemma {:induction false} CallbackNears(st: State, k: Cid, t: Tid, s: nat, p: nat) returns (n: nat)
    requires ListOk(st) && s < |st.socks| && p < |st.list| && st.list[p] == t
    requires k in st.walks && st.walks[k].s == s && (st.walks[k].last != st.ctr || st.walks[k].pos < p)
    requires Wants(st.threads[t], s, st.socks[s])
    ensures n == (if st.walks[k].last != st.ctr then p + 1 else p - st.walks[k].pos)
    ensures Possible(st, Repeat(WalkOn(k), n))
    ensures var d := Run(st, Repeat(WalkOn(k), n)); t in d.threads && d.threads[t].signalled
    decreases if st.walks[k].last != st.ctr then |st.list| + 1 else p - st.walks[k].pos
  {
    hide Apply, Repeat, Wants, ListOk, Run, Possible;
    InList(st, p);
    CallbackLooks(st, k, t, s, p);
    var w := st.walks[k];
    if p == (if w.last != st.ctr then 0 else w.pos + 1) {
      n := 1;
      RepeatMore(st, WalkOn(k), 0);
      RepeatNone(Apply(st, WalkOn(k)), WalkOn(k));
    } else {
      var m := CallbackNears(Apply(st, WalkOn(k)), k, t, s, p);
      n := m + 1;
      RepeatMore(st, WalkOn(k), m);
    }
  }

  /** One look: at t's entry, or one entry nearer to it. */
  lemma CallbackLooks(st: State, k: Cid, t: Tid, s: nat, p: nat)
    requires ListOk(st) && s < |st.socks| && p < |st.list| && st.list[p] == t && t in st.threads
    requires k in st.walks && st.walks[k].s == s && (st.walks[k].last != st.ctr || st.walks[k].pos < p)
    requires Wants(st.threads[t], s, st.socks[s])
    ensures var d := Apply(st, WalkOn(k));
      var pos := if st.walks[k].last != st.ctr then 0 else st.walks[k].pos + 1;
      && t in d.threads
      && (if pos == p then d.threads[t].signalled
          else ListOk(d) && d.socks == st.socks && d.list == st.list && d.ctr == st.ctr
               && k in d.walks && d.walks[k] == Walk(s, pos, st.ctr) && Wants(d.threads[t], s, d.socks[s]))
  {
    hide Wants, ListOk;
    var pos := if st.walks[k].last != st.ctr then 0 else st.walks[k].pos + 1;
    var d := Visit(st, k, s, pos);
    VisitFrame(st, k, s, pos);
    InList(st, pos);
    ListSame(st, d);
    WantsOf(st.threads[t], d.threads[t], s, d.socks[s]);
  }

  lemma RepeatMore(st: State, step: Step, n: nat)
    requires Enabled(st, step)
    ensures Possible(st, Repeat(step, n + 1)) <==> Possible(Apply(st, step), Repeat(step, n))
    ensures Possible(st, Repeat(step, n + 1)) ==>
      Run(st, Repeat(step, n + 1)) == Run(Apply(st, step), Repeat(step, n))
  {
    hide Apply, Enabled;
    assert Repeat(step, n + 1)[1..] == Repeat(step, n);
  }

  lemma RepeatNone(st: State, step: Step)
    ensures Possible(st, Repeat(step, 0)) && Run(st, Repeat(step, 0)) == st
  {
  }
}
