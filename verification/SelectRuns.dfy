/** What the steps of Select do to the sockets they are about, and that each party of the
    protocol, left to itself, comes to its end. */
module SelectRuns {
  import opened Select

  // ---------------------------------------------------------------- events

  predicate Is(step: Step, s: nat, evt: Evt) { step.Notify? && step.s == s && step.evt == evt }

  /** How often socket s got the event. */
  function Count(steps: seq<Step>, s: nat, evt: Evt): nat {
    if |steps| == 0 then 0 else (if Is(steps[0], s, evt) then 1 else 0) + Count(steps[1..], s, evt)
  }

  /** The socket could be written to last time anything was said of it. */
  predicate Writable(before: bool, steps: seq<Step>, s: nat) {
    || (before && forall j :: 0 <= j < |steps| ==> !Is(steps[j], s, SENDMINUS))
    || exists k :: 0 <= k < |steps| && Is(steps[k], s, SENDPLUS)
         && forall j :: k < j < |steps| ==> !Is(steps[j], s, SENDMINUS)
  }

  /** One step changes the events of a socket only by being an event for it. */
  lemma StepEvents(st: State, step: Step, s: nat)
    requires Enabled(st, step) && s < |st.socks|
    ensures var d := Apply(st, step);
      && |d.socks| == |st.socks|
      && d.socks[s].rcvEvent == st.socks[s].rcvEvent
           + (if Is(step, s, RCVPLUS) then 1 else 0) - (if Is(step, s, RCVMINUS) then 1 else 0)
      && d.socks[s].sendEvent == (Is(step, s, SENDPLUS) || (st.socks[s].sendEvent && !Is(step, s, SENDMINUS)))
      && d.socks[s].errEvent == (st.socks[s].errEvent || Is(step, s, ERROR))
  {
    hide Wants;
  }

  lemma WritableNext(before: bool, now: bool, steps: seq<Step>, s: nat)
    requires |steps| > 0 && now == (Is(steps[0], s, SENDPLUS) || (before && !Is(steps[0], s, SENDMINUS)))
    ensures Writable(before, steps, s) <==> Writable(now, steps[1..], s)
  {
    var rest := steps[1..];
    assert forall j :: 0 <= j < |rest| ==> rest[j] == steps[j + 1];
    assert forall j :: 1 <= j < |steps| ==> steps[j] == rest[j - 1];
    if k :| 0 <= k < |rest| && Is(rest[k], s, SENDPLUS) && forall j :: k < j < |rest| ==> !Is(rest[j], s, SENDMINUS) {
      assert Is(steps[k + 1], s, SENDPLUS);
    }
  }

  /** Over every run the fields of a socket say what was reported of it: its arrivals less its
      removals, whether it was last said to be writable, whether there was an error. */
  lemma {:induction false} EventsAre(st: State, steps: seq<Step>, s: nat)
    requires Possible(st, steps) && s < |st.socks|
    ensures var d := Run(st, steps);
      && |d.socks| == |st.socks|
      && d.socks[s].rcvEvent == st.socks[s].rcvEvent + Count(steps, s, RCVPLUS) - Count(steps, s, RCVMINUS)
      && d.socks[s].sendEvent == Writable(st.socks[s].sendEvent, steps, s)
      && d.socks[s].errEvent == (st.socks[s].errEvent || Count(steps, s, ERROR) > 0)
    decreases |steps|
  {
    hide Apply, Enabled, Is, Writable;
    if |steps| == 0 {
      NothingSaid(st.socks[s].sendEvent, steps, s);
    } else {
      var d := Apply(st, steps[0]);
      StepEvents(st, steps[0], s);
      EventsAre(d, steps[1..], s);
      WritableNext(st.socks[s].sendEvent, d.socks[s].sendEvent, steps, s);
    }
  }

  lemma NothingSaid(before: bool, steps: seq<Step>, s: nat)
    requires |steps| == 0
    ensures Writable(before, steps, s) == before
  {
  }

  /** What has happened on socket s is something t asked for. */
  predicate Due(th: Thread, before: Sock, steps: seq<Step>, s: nat) {
    || (s in th.readSet && before.rcvEvent + Count(steps, s, RCVPLUS) > Count(steps, s, RCVMINUS))
    || (s in th.writeSet && Writable(before.sendEvent, steps, s))
    || (s in th.exceptSet && (before.errEvent || Count(steps, s, ERROR) > 0))
  }

  /** No wake-up is lost, in terms of what happened: in every interleaving, a selector that waits
      while a socket below its limit had more arrivals than removals and it asked to read, or was
      last said to be writable and it asked to write, or had an error and it asked for those, is
      signalled, or a callback for that socket has its entry still before it; so with no callback
      under way it is signalled. */
  lemma EventsWake(st: State, steps: seq<Step>, t: Tid, s: nat)
    requires Quiet(st) && Possible(st, steps) && s < |st.socks|
    ensures var d := Run(st, steps);
      t in d.threads && d.threads[t].pc.Blocked? && s < d.threads[t].max && Due(d.threads[t], st.socks[s], steps, s) ==>
        Guarded(d, t, s) && (d.walks == map[] ==> d.threads[t].signalled)
  {
    hide Run, Possible, Quiet, Writable, Guarded;
    EventsAre(st, steps, s);
    NoLostWakeUp(st, steps, t, s);
  }

  // ---------------------------------------------------------------- a look

  /** A look signals the entry it is at, if that asked for what there is, and nobody else. */
  lemma LookSignals(st: State, k: Cid, s: nat, pos: nat, t: Tid)
    requires s < |st.socks| && t in st.threads
    ensures var d, sock, th := Visit(st, k, s, pos), st.socks[s], st.threads[t];
      && t in d.threads
      && (d.threads[t].signalled <==>
            || th.signalled
            || (pos < |st.list| && st.list[pos] == t
                && ((s in th.readSet && sock.rcvEvent > 0) || (s in th.writeSet && sock.sendEvent)
                    || (s in th.exceptSet && sock.errEvent))))
  {
  }

  // ---------------------------------------------------------------- a call

  /** What a thread asks for when it enters is what it waits for, to the end. */
  lemma EnlistAsks(st: State, t: Tid, r: set<nat>, w: set<nat>, e: set<nat>, max: nat)
    requires Enabled(st, Enlist(t, r, w, e, max))
    ensures var d := Apply(st, Enlist(t, r, w, e, max));
      t in d.threads && d.threads[t] == Thread(Counting(0), r, w, e, max, false) && d.list == [t] + st.list
  {
  }

  lemma SetsKept(st: State, step: Step, t: Tid)
    requires Enabled(st, step) && t in st.threads
    ensures var d := Apply(st, step);
      t in d.threads ==> d.threads[t] == st.threads[t].(pc := d.threads[t].pc, signalled := d.threads[t].signalled)
  {
    hide Wants, Selects, Without;
  }

  // ---------------------------------------------------------------- left to themselves

  /** A selector that counts itself in comes to its scan. */
  lemma {:induction false} CountingEnds(st: State, t: Tid, n: nat)
    requires t in st.threads && st.threads[t].pc.Counting?
    requires n == (if st.threads[t].pc.i < st.threads[t].max then st.threads[t].max - st.threads[t].pc.i else 0)
    ensures Possible(st, Repeat(CountIn(t), n + 1))
    ensures var d := Run(st, Repeat(CountIn(t), n + 1));
      t in d.threads && d.threads[t] == st.threads[t].(pc := Scanning(0, false))
    decreases n
  {
    hide Selects, Repeat, Run, Possible;
    RepeatMore(st, CountIn(t), n);
    var d := Apply(st, CountIn(t));
    if n > 0 {
      CountingEnds(d, t, n - 1);
    } else {
      RepeatNone(d, CountIn(t));
    }
  }

  /** The scan finds an event t asked for on a socket from i on. */
  predicate Found(st: State, th: Thread, i: nat) {
    exists s :: i <= s < th.max && s < |st.socks|
      && ((s in th.readSet && st.socks[s].rcvEvent > 0) || (s in th.writeSet && st.socks[s].sendEvent)
          || (s in th.exceptSet && st.socks[s].errEvent))
  }

  lemma FoundNext(st: State, th: Thread, i: nat)
    requires i < th.max
    ensures Found(st, th, i) <==> Found(st, th, i + 1) || (i < |st.socks| && Wants(th, i, st.socks[i]))
  {
    if i < |st.socks| && Wants(th, i, st.socks[i]) { assert i <= i < th.max; }
  }

  /** A scan returns at once if there is an event and waits if there is none. */
  lemma {:induction false} ScanDecides(st: State, t: Tid, n: nat)
    requires t in st.threads && st.threads[t].pc.Scanning?
    requires n == (if st.threads[t].pc.i < st.threads[t].max then st.threads[t].max - st.threads[t].pc.i else 0)
    ensures Possible(st, Repeat(Scan(t), n + 1))
    ensures var th := st.threads[t];
      Run(st, Repeat(Scan(t), n + 1)) ==
        WithPc(st, t, if th.pc.found || Found(st, th, th.pc.i) then Leaving(0) else Blocked)
    decreases n
  {
    hide Wants, Repeat, Run, Possible, Found;
    RepeatMore(st, Scan(t), n);
    var th := st.threads[t];
    var d := Apply(st, Scan(t));
    if n > 0 {
      ScanDecides(d, t, n - 1);
      FoundNext(st, th, th.pc.i);
      FoundSame(st, d, th, d.threads[t], th.pc.i + 1);
    } else {
      RepeatNone(d, Scan(t));
      FoundNone(st, th, th.pc.i);
    }
  }

  lemma FoundSame(st: State, d: State, a: Thread, b: Thread, i: nat)
    requires d.socks == st.socks && b == a.(pc := b.pc)
    ensures Found(d, b, i) == Found(st, a, i)
  {
  }

  lemma FoundNone(st: State, th: Thread, i: nat)
    requires i >= th.max
    ensures !Found(st, th, i)
  {
  }

  /** A selector that is signalled, or times out, leaves: it counts itself out and is off the
      list. */
  lemma {:induction false} LeavingEnds(st: State, t: Tid, n: nat)
    requires t in st.threads && st.threads[t].pc.Leaving?
    requires n == (if st.threads[t].pc.i < st.threads[t].max then st.threads[t].max - st.threads[t].pc.i else 0)
    ensures Possible(st, Repeat(CountOut(t), n + 1))
    ensures var d := Run(st, Repeat(CountOut(t), n + 1));
      t !in d.threads && t !in d.list && forall u :: u in st.list && u != t ==> u in d.list
    decreases n
  {
    hide Selects, Repeat, Run, Possible, Without;
    RepeatMore(st, CountOut(t), n);
    var d := Apply(st, CountOut(t));
    if n > 0 {
      LeavingEnds(d, t, n - 1);
    } else {
      RepeatNone(d, CountOut(t));
      WithoutIs(st.list, t);
    }
  }

  lemma WaitEnds(st: State, t: Tid)
    requires t in st.threads && st.threads[t].pc.Blocked?
    ensures Enabled(st, TimeOut(t)) && Apply(st, TimeOut(t)) == WithPc(st, t, Leaving(0))
    ensures Enabled(st, Wake(t)) <==> st.threads[t].signalled
    ensures Enabled(st, Wake(t)) ==> Apply(st, Wake(t)) == WithPc(st, t, Leaving(0))
  {
  }

  /** A callback whose list stays as it is ends within one look more than the list is long. */
  lemma {:induction false} CallbackEnds(st: State, k: Cid) returns (n: nat)
    requires k in st.walks
    ensures n <= |st.list| + 1 && Possible(st, Repeat(WalkOn(k), n))
    ensures k !in Run(st, Repeat(WalkOn(k), n)).walks
    decreases if st.walks[k].last != st.ctr then |st.list| + 1
      else if st.walks[k].pos < |st.list| then |st.list| - st.walks[k].pos else 0
  {
    n := CallbackLooksOn(st, k);
  }

  lemma {:induction false} CallbackLooksOn(st: State, k: Cid) returns (n: nat)
    requires k in st.walks
    ensures n == (if st.walks[k].last != st.ctr then |st.list| + 1
                  else if st.walks[k].pos < |st.list| then |st.list| - st.walks[k].pos else 1)
    ensures Possible(st, Repeat(WalkOn(k), n)) && k !in Run(st, Repeat(WalkOn(k), n)).walks
    decreases if st.walks[k].last != st.ctr then |st.list| + 1
      else if st.walks[k].pos < |st.list| then |st.list| - st.walks[k].pos else 0
  {
    hide Repeat, Run, Possible, Looked;
    var w := st.walks[k];
    var pos := if w.last != st.ctr then 0 else w.pos + 1;
    var d := Apply(st, WalkOn(k));
    VisitFrame(st, k, w.s, pos);
    if pos < |st.list| {
      var m := CallbackLooksOn(d, k);
      n := m + 1;
      RepeatMore(st, WalkOn(k), m);
    } else {
      n := 1;
      RepeatMore(st, WalkOn(k), 0);
      RepeatNone(d, WalkOn(k));
    }
  }
}
