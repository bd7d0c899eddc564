/** Where the positions of pbuf_copy go (core/pbuf.c), as a walk over the lengths of the target's
    and the source's pbufs: exactly which pairs of chains it copies without error. */
module PbufCopy {
  import opened Words

  /** The lengths of the first k pbufs together. */
  function Total(a: seq<nat>, k: nat): nat
    requires k <= |a|
  {
    if k == 0 then 0 else Total(a, k - 1) + a[k - 1]
  }

  lemma {:induction false} TotalUp(a: seq<nat>, j: nat, k: nat)
    requires j <= k <= |a|
    ensures Total(a, j) <= Total(a, k)
    ensures forall i :: j <= i < k ==> Total(a, j) + a[i] <= Total(a, k)
  {
    if j < k {
      TotalUp(a, j, k - 1);
    }
  }

  /** The i-th pbuf is not the last, but all behind it are empty: what the source takes for
      the start of another packet. */
  predicate Queued(a: seq<nat>, i: nat) { i + 1 < |a| && Total(a, i + 1) == Total(a, |a|) }

  /** The last pbuf is not empty, unless it is the only one. */
  predicate EndsFull(a: seq<nat>) { |a| > 1 ==> a[|a| - 1] > 0 }

  /** A pbuf of the target and a place in it, and the same for the source. */
  datatype Pos = Pos(i: nat, ot: nat, j: nat, of: nat)

  const START := Pos(0, 0, 0, 0)

  predicate Inside(b: seq<nat>, a: seq<nat>, p: Pos) {
    p.i < |b| && p.ot <= b[p.i] && p.j < |a| && p.of <= a[p.j]
  }

  /** One round: as much as fits both pbufs, then over the exhausted ones. */
  function Round(b: seq<nat>, a: seq<nat>, p: Pos): Pos
    requires Inside(b, a, p)
  {
    var n := Min(b[p.i] - p.ot, a[p.j] - p.of);
    var t, f := p.ot + n == b[p.i], p.of + n == a[p.j];
    Pos(if t then p.i + 1 else p.i, if t then 0 else p.ot + n, if f then p.j + 1 else p.j, if f then 0 else p.of + n)
  }

  /** The position after some round lies in the k-th pbuf of the target. */
  predicate Visited(b: seq<nat>, a: seq<nat>, k: nat)
    requires k < |b| && |a| > 0
  {
    var all := Total(a, |a|);
    if k == 0 then a[0] < b[0]
    else
      || all > Total(b, k)
      || (all == Total(b, k) && (b[k - 1] > 0 || k == 1 || (k == 2 && |a| == 2 && a[1] == 0)))
  }

  /** Neither chain looks like a packet queue on the way: the source does not end in an empty
      pbuf (or has but one before it, which the first round exhausts without filling the whole
      target), and no pbuf of the target is visited that only empty ones follow. */
  predicate Passes(b: seq<nat>, a: seq<nat>)
    requires |a| > 0 && |b| > 0
  {
    && (EndsFull(a) || (|a| == 2 && a[0] <= b[0] && (|b| > 1 || a[0] < b[0])))
    && forall k :: 0 <= k < |b| && Queued(b, k) ==> !Visited(b, a, k)
  }

  /** Two chains that do not end in an empty pbuf pass, and so do all whose pbufs hold data. */
  lemma FullPasses(b: seq<nat>, a: seq<nat>)
    requires |a| > 0 && |b| > 0 && EndsFull(a) && EndsFull(b)
    ensures Passes(b, a)
  {
    forall k | 0 <= k < |b| ensures !Queued(b, k) {
      if k + 1 < |b| { TotalUp(b, k + 1, |b|); }
    }
  }

  // ---------------------------------------------------------------- the walk

  function FirstTarget(b: seq<nat>, a: seq<nat>): nat
    requires |a| > 0 && |b| > 0
  {
    if b[0] <= a[0] then 1 else 0
  }

  function FirstSource(b: seq<nat>, a: seq<nat>): nat
    requires |a| > 0 && |b| > 0
  {
    if a[0] <= b[0] then 1 else 0
  }

  /** The source is two pbufs, the second empty. */
  predicate OneAndNone(a: seq<nat>) { |a| == 2 && a[1] == 0 }

  /** As many bytes lie before either place. */
  predicate Level(b: seq<nat>, a: seq<nat>, p: Pos) {
    && p.i <= |b| && p.j <= |a|
    && Total(b, p.i) + p.ot == Total(a, p.j) + p.of
    && (p.ot == 0 || (p.i < |b| && p.ot < b[p.i]))
    && (p.of == 0 || (p.j < |a| && p.of < a[p.j]))
  }

  /** What holds after a round, before the checks that follow it. */
  ghost predicate Reached(b: seq<nat>, a: seq<nat>, p: Pos)
    requires |a| > 0 && |b| > 0
  {
    && Level(b, a, p)
    && (p.i == 0 ==> a[0] < b[0] && p.ot < b[0])
    && (p.j == 0 ==> b[0] < a[0] && p.of < a[0])
    && (p.i < |b| ==> Visited(b, a, p.i))
    && (forall k :: FirstTarget(b, a) <= k < p.i ==> !Queued(b, k))
    && (forall k :: FirstSource(b, a) <= k < p.j ==> !Queued(a, k))
    && (OneAndNone(a) && p.j == 1 ==> p.i <= 1)
    && (OneAndNone(a) && p.j == 2 && p.i == 1 && |b| > 1 ==> b[1] > 0)
    && (OneAndNone(a) && |b| == 1 && p.j >= 1 ==> a[0] < b[0] || (p.j == 1 && p.i == 1))
  }

  /** The checks let the walk go on, or end. */
  predicate Checked(b: seq<nat>, a: seq<nat>, p: Pos) {
    (p.i < |b| || p.j == |a|) && !Queued(b, p.i) && !Queued(a, p.j)
  }

  lemma FirstRound(b: seq<nat>, a: seq<nat>)
    requires |a| > 0 && |b| > 0 && Total(a, |a|) <= Total(b, |b|)
    ensures Reached(b, a, Round(b, a, START))
  {
    var q := Round(b, a, START);
    assert Total(b, 1) == b[0] && Total(a, 1) == a[0];
    TotalUp(a, 1, |a|);
  }

  /** All of the source is copied but its end not reached: it is a pbuf and an empty one. */
  lemma NothingLeft(b: seq<nat>, a: seq<nat>, p: Pos)
    requires |a| > 0 && |b| > 0 && Reached(b, a, p) && p.j < |a| && !Queued(a, p.j)
    requires Total(a, p.j) + p.of == Total(a, |a|)
    ensures OneAndNone(a) && p.j == 1
  {
    TotalUp(a, p.j, p.j + 1);
    TotalUp(a, p.j + 1, |a|);
    assert a[p.j] == 0 && Total(a, p.j + 1) == Total(a, |a|);
    if |a| > 2 { assert Queued(a, |a| - 2); }
  }

  lemma NoneIsQueued(a: seq<nat>)
    ensures OneAndNone(a) ==> Queued(a, 0)
  {
  }

  lemma RoundLevel(b: seq<nat>, a: seq<nat>, p: Pos)
    requires Level(b, a, p) && Inside(b, a, p)
    ensures Level(b, a, Round(b, a, p))
  {
  }

  lemma RoundVisits(b: seq<nat>, a: seq<nat>, p: Pos)
    requires |a| > 0 && |b| > 0 && Reached(b, a, p) && Checked(b, a, p) && Inside(b, a, p)
    ensures var q := Round(b, a, p); q.i < |b| ==> Visited(b, a, q.i)
  {
    hide Queued;
    var q := Round(b, a, p);
    RoundLevel(b, a, p);
    TotalUp(a, q.j, |a|);
    if q.j < |a| { TotalUp(a, q.j + 1, |a|); }
    if p.i < q.i < |b| && Total(a, |a|) == Total(b, q.i) && b[p.i] == 0 {
      NothingLeft(b, a, p);
    }
  }

  lemma NextRound(b: seq<nat>, a: seq<nat>, p: Pos)
    requires |a| > 0 && |b| > 0 && Reached(b, a, p) && Checked(b, a, p) && Inside(b, a, p)
    ensures Reached(b, a, Round(b, a, p))
  {
    hide Queued, Visited, Total, Level;
    RoundLevel(b, a, p);
    RoundVisits(b, a, p);
    NoneIsQueued(a);
  }

  /** A check that strikes strikes a pair that does not pass. */
  lemma StrikeFails(b: seq<nat>, a: seq<nat>, p: Pos)
    requires |a| > 0 && |b| > 0 && Total(a, |a|) <= Total(b, |b|) && Reached(b, a, p) && !Checked(b, a, p)
    ensures !Passes(b, a)
  {
    if Queued(b, p.i) {
    } else if Queued(a, p.j) {
      TotalUp(a, p.j + 1, |a|);
    } else {
      TotalUp(a, p.j, |a|);
      TotalUp(a, p.j, p.j + 1);
      NothingLeft(b, a, p);
    }
  }

  /** A walk that comes to the end of the source walked over a pair that passes. */
  lemma EndPasses(b: seq<nat>, a: seq<nat>, p: Pos)
    requires |a| > 0 && |b| > 0 && Reached(b, a, p) && Checked(b, a, p) && p.j == |a|
    ensures Passes(b, a)
  {
    if !EndsFull(a) { assert Queued(a, |a| - 2); }
    forall k | 0 <= k < |b| && Queued(b, k) ensures !Visited(b, a, k) {
      if Visited(b, a, k) && p.i < k {
        TotalUp(b, p.i, k);
        TotalUp(b, p.i + 1, k);
      }
    }
  }
}
