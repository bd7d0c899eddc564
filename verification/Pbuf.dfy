/** core/pbuf.c as it runs: loops that walk `next` and change pbufs in place.  The ghost
    parameter c of a method lists the chain it is called on. */
module Pbuf {
  import opened Words
  import opened S = PbufSpec
  import W = PbufCopy

  datatype Err = ERR_OK | ERR_MEM | ERR_ARG | ERR_VAL

  /** Overwriting the payload of one pbuf of a chain with as many bytes. */
  lemma OverwriteOne(m: Memory, p: Ptr, c: seq<Ptr>, i: nat, data: seq<u8>)
    requires IsChain(m, p, c) && i < |c| && |data| == |Data(m, c[i])|
    ensures c[i] in m
    ensures var n := m[c[i] := m[c[i]].(data := data)];
      && SameShape(m, n, c) && IsChain(n, p, c)
      && (OnePacket(m, p, c) ==> OnePacket(n, p, c))
      && Flat(n, c[..i]) == Flat(m, c[..i]) && Flat(n, c[i + 1..]) == Flat(m, c[i + 1..])
      && Flat(n, c) == Flat(m, c[..i]) + (data + Flat(m, c[i + 1..]))
  {
    assert Link(m, c, i);
    var n := m[c[i] := m[c[i]].(data := data)];
    ChainSplit(m, p, c, i);
    ChainSplit(m, p, c, i + 1);
    assert c[i] in c[..i + 1] && c[i] in c[i..];
    ChainKept(m, n, p, c);
    if OnePacket(m, p, c) { PacketKept(m, n, p, c); }
    FlatSame(m, n, c[..i]);
    FlatSame(m, n, c[i + 1..]);
    FlatAt(n, c, i);
  }

  lemma ShapeTrans(a: Memory, b: Memory, d: Memory, c: seq<Ptr>)
    requires SameShape(a, b, c) && SameShape(b, d, c)
    ensures SameShape(a, d, c)
  {
  }

  /** Where the bytes of the i-th pbuf lie in the flat sequence. */
  lemma PieceAt(m: Memory, c: seq<Ptr>, i: nat)
    requires i < |c|
    ensures var at := |Flat(m, c[..i])|; var n := |Data(m, c[i])|;
      && at + n <= |Flat(m, c)| && Flat(m, c)[at..at + n] == Data(m, c[i])
      && |Flat(m, c[..i + 1])| == at + n
      && Flat(m, c)[..at] == Flat(m, c[..i]) && Flat(m, c)[at + n..] == Flat(m, c[i + 1..])
  {
    hide Flat, Data;
    FlatAt(m, c, i);
    assert c[..i + 1] == c[..i] + [c[i]];
    FlatSnoc(m, c[..i], c[i]);
  }

  /** `next` of the i-th pbuf is the next pbuf of the chain; NULL exactly at the last. */
  lemma NextOf(m: Memory, p: Ptr, c: seq<Ptr>, i: nat)
    requires IsChain(m, p, c) && i < |c|
    ensures c[i] != 0 && c[i] in m
    ensures i + 1 < |c| ==> m[c[i]].next == c[i + 1] && c[i + 1] != 0
    ensures i + 1 == |c| ==> m[c[i]].next == 0
  {
    assert Link(m, c, i);
    if i + 1 < |c| { assert Link(m, c, i + 1); }
  }

  /** What a walk along the chain needs to know of the pbuf q it has come to. */
  lemma PieceLies(m: Memory, p: Ptr, c: seq<Ptr>, k: nat, q: Ptr)
    requires IsChain(m, p, c) && k <= |c| && q == First(c[k..]) && q != 0
    ensures k < |c| && c[k] == q && q in m && m[q].next == First(c[k + 1..])
    ensures var all, at := Flat(m, c), |Flat(m, c[..k])|;
      && at + |m[q].data| <= |all| && all[at..at + |m[q].data|] == m[q].data
      && |Flat(m, c[..k + 1])| == at + |m[q].data|
  {
    hide Flat;
    NextOf(m, p, c, k);
    PieceAt(m, c, k);
  }

  lemma ChainDone(m: Memory, p: Ptr, c: seq<Ptr>, i: nat)
    requires IsChain(m, p, c) && i <= |c| && First(c[i..]) == 0
    ensures i == |c| && c[..i] == c
  {
    if i < |c| { NextOf(m, p, c, i); }
  }

  lemma SubSlice(all: seq<u8>, at: nat, d: seq<u8>, x: nat, y: nat)
    requires at + |d| <= |all| && all[at..at + |d|] == d && x <= y <= |d|
    ensures all[at + x..at + y] == d[x..y]
  {
    forall k | 0 <= k < y - x ensures all[at + x..at + y][k] == d[x..y][k] {
      assert all[at..at + |d|][x + k] == all[at + x + k];
    }
  }

  /** out is what all holds from position `from` on. */
  ghost predicate IsSlice(all: seq<u8>, from: nat, out: seq<u8>) {
    from + |out| <= |all| && out == all[from..from + |out|]
  }

  lemma ExtendSlice(all: seq<u8>, from: nat, was: seq<u8>, piece: seq<u8>)
    requires IsSlice(all, from, was) && IsSlice(all, from + |was|, piece)
    ensures IsSlice(all, from, was + piece)
  {
  }

  /** One more piece of n bytes copied out of the pbuf d that lies at position at. */
  lemma CopyStep(all: seq<u8>, at: nat, d: seq<u8>, x: nat, from: nat, was: seq<u8>, n: nat)
    requires at + |d| <= |all| && all[at..at + |d|] == d && x + n <= |d|
    requires at + x == from + |was| && (was != [] ==> IsSlice(all, from, was))
    ensures IsSlice(all, from, was + d[x..x + n])
  {
    SubSlice(all, at, d, x, x + n);
    ExtendSlice(all, from, was, d[x..x + n]);
  }

  /** pbuf_copy_partial's progress with `at` bytes behind it: still skipping, or copying. */
  ghost predicate Copied(all: seq<u8>, at: nat, from: nat, offset: nat, out: seq<u8>, len: nat) {
    && at <= |all|
    && (out == [] ==> offset + at == from)
    && (out != [] ==> IsSlice(all, from, out) && (len > 0 ==> offset == 0 && at == from + |out|))
  }

  lemma CopiedMore(all: seq<u8>, at: nat, d: seq<u8>, from: nat, offset: nat, out: seq<u8>, len: nat, n: nat)
    requires Copied(all, at, from, offset, out, len) && len > 0 && at + |d| <= |all| && all[at..at + |d|] == d
    requires offset + n <= |d| && n <= len && (n < len ==> offset + n == |d|)
    ensures Copied(all, at + |d|, from, 0, out + d[offset..offset + n], len - n)
  {
    hide IsSlice;
    CopyStep(all, at, d, offset, from, out, n);
  }

  lemma CopiedAll(all: seq<u8>, at: nat, from: nat, offset: nat, out: seq<u8>, len: nat)
    requires Copied(all, at, from, offset, out, len) && (len > 0 ==> at == |all|)
    ensures out == all[Min(from, |all|)..Min(from + |out| + len, |all|)]
  {
  }

  lemma FlatNone(m: Memory, c: seq<Ptr>)
    ensures c[..0] == [] && c[0..] == c && Flat(m, []) == []
  {
  }

  lemma NotDone(m: Memory, c: seq<Ptr>, i: nat)
    requires i <= |c| && |Flat(m, c[..i])| < |Flat(m, c)|
    ensures i < |c|
  {
    assert c[..|c|] == c;
  }

  /** Pbufs whose lengths fit an s16; those of the pool hold PBUF_POOL_BUFSIZE = 1528 bytes. */
  ghost predicate Small(m: Memory, c: seq<Ptr>) { forall q :: q in c ==> |Data(m, q)| <= 0x7fff }

  /** The first k pbufs of c had drop taken off their `tot_len`; nothing else changed. */
  ghost predicate PassedOver(m0: Memory, m: Memory, c: seq<Ptr>, k: nat, drop: nat)
    requires k <= |c|
  {
    && m.Keys == m0.Keys
    && (forall i {:trigger c[i]} :: 0 <= i < k && c[i] in m0 ==>
         && m[c[i]].next == m0[c[i]].next && m[c[i]].data == m0[c[i]].data && m[c[i]].ref == m0[c[i]].ref
         && m[c[i]].totLen == Wrap16(m0[c[i]].totLen - drop))
    && (forall q :: q in m0 && q !in c[..k] ==> m[q] == m0[q])
  }

  lemma WrapAdd(x: nat, drop: nat)
    requires drop <= 0xffff && x <= 0xffff
    ensures Wrap16(x + Wrap16(0 - drop)) == Wrap16(x - drop)
  {
  }

  lemma PassStep(m0: Memory, m: Memory, p: Ptr, c: seq<Ptr>, k: nat, drop: nat)
    requires IsChain(m0, p, c) && k < |c| && PassedOver(m0, m, c, k, drop) && drop <= 0xffff
    ensures c[k] in m && m[c[k]] == m0[c[k]]
    ensures PassedOver(m0, m[c[k] := m[c[k]].(totLen := Wrap16(m[c[k]].totLen + Wrap16(0 - drop)))], c, k + 1, drop)
  {
    hide Wrap16, IsChain;
    NextOf(m0, p, c, k);
    ChainSplit(m0, p, c, k);
    assert c[k] in c[k..];
    WrapAdd(m0[c[k]].totLen, drop);
    PassOne(m0, m, c, k, drop);
  }

  lemma PassOne(m0: Memory, m: Memory, c: seq<Ptr>, k: nat, drop: nat)
    requires k < |c| && PassedOver(m0, m, c, k, drop) && c[k] in m0 && c[k] !in c[..k]
    ensures m[c[k]] == m0[c[k]]
    ensures PassedOver(m0, m[c[k] := m0[c[k]].(totLen := Wrap16(m0[c[k]].totLen - drop))], c, k + 1, drop)
  {
    hide Wrap16;
    var r := m[c[k] := m0[c[k]].(totLen := Wrap16(m0[c[k]].totLen - drop))];
    forall i | 0 <= i < k ensures c[i] != c[k] { assert c[i] in c[..k]; }
    forall q | q in m0 && q !in c[..k + 1] ensures r[q] == m0[q] {
      assert c[..k + 1] == c[..k] + [c[k]];
    }
  }

  /** The cut chain, with the link still there. */
  lemma CutIs(m0: Memory, m: Memory, p: Ptr, c: seq<Ptr>, k: nat, n: nat, drop: nat)
    requires IsChain(m0, p, c) && k < |c| && c[k] in m0
      && |Flat(m0, c[..k])| <= n <= |Flat(m0, c[..k])| + |Data(m0, c[k])|
    requires var rem := n - |Flat(m0, c[..k])|; var q := c[k];
      && q in m && m[q] == m0[q].(data := m0[q].data[..rem], totLen := Wrap16(rem))
      && PassedOver(m0, m[q := m0[q]], c, k, drop)
    ensures m[c[k] := m[c[k]].(next := 0)] == Cut(m0, c, k, n, drop)
  {
    hide Flat;
    var r := m[c[k] := m[c[k]].(next := 0)];
    var t := Cut(m0, c, k, n, drop);
    var w := m[c[k] := m0[c[k]]];
    ChainSplit(m0, p, c, k);
    assert c[k] in c[k..];
    forall q | q in m0 ensures q in r && q in t && r[q] == t[q] {
      if q != c[k] {
        assert w[q] == m[q];
        if q in c[..k] {
          var i :| 0 <= i < k && c[i] == q;
          assert w[c[i]].totLen == Wrap16(m0[c[i]].totLen - drop);
        }
      }
    }
  }

  /** Links and counts are kept, and everything outside the chain. */
  ghost predicate SameLinks(m: Memory, n: Memory, c: seq<Ptr>) {
    && m.Keys == n.Keys
    && forall q {:trigger n[q]} {:trigger m[q]} :: q in m ==>
         n[q].next == m[q].next && n[q].ref == m[q].ref && (q !in c ==> n[q] == m[q])
  }

  /** The first i pbufs of c are hidden: empty, with `tot_len` tot. */
  ghost predicate Hidden(m0: Memory, m: Memory, c: seq<Ptr>, i: nat, tot: u16)
    requires i <= |c|
  {
    && SameLinks(m0, m, c)
    && (forall j {:trigger c[j]} :: 0 <= j < i && c[j] in m ==> m[c[j]].data == [] && m[c[j]].totLen == tot)
    && (forall j {:trigger c[j]} :: i <= j < |c| && c[j] in m ==> m[c[j]] == m0[c[j]])
  }

  lemma HideStep(m0: Memory, m: Memory, p: Ptr, c: seq<Ptr>, i: nat, tot: u16)
    requires IsChain(m0, p, c) && i < |c| && Hidden(m0, m, c, i, tot)
    ensures c[i] in m && Hidden(m0, m[c[i] := m[c[i]].(totLen := tot, data := [])], c, i + 1, tot)
  {
    NextOf(m0, p, c, i);
    forall j | 0 <= j < |c| && j != i ensures c[j] != c[i] {
      ChainDistinct(m0, p, c, if i < j then i else j, if i < j then j else i);
    }
  }

  /** Hiding the last off bytes, inside the i-th pbuf, leaves the packet without its first
      offset bytes. */
  lemma HideLast(m0: Memory, m: Memory, p: Ptr, c: seq<Ptr>, i: nat, off: nat, offset: nat) returns (r: Memory)
    requires OnePacket(m0, p, c) && i < |c| && offset <= |Flat(m0, c)| <= 0xffff
    requires Hidden(m0, m, c, i, Wrap16(|Flat(m0, c)| - offset))
    requires off + |Flat(m0, c[..i])| == offset && off <= |Data(m0, c[i])|
    ensures c[i] in m && m[c[i]] == m0[c[i]]
    ensures r == m[c[i] := m[c[i]].(data := m[c[i]].data[off..], totLen := Wrap16(m[c[i]].totLen - off))]
    ensures OnePacket(r, p, c) && Flat(r, c) == Flat(m0, c)[offset..] && SameLinks(m0, r, c)
  {
    hide Flat, IsChain, Link;
    NextOf(m0, p, c, i);
    ChainInMemory(m0, p, c);
    r := m[c[i] := m[c[i]].(data := m[c[i]].data[off..], totLen := Wrap16(m[c[i]].totLen - off))];
    forall j | 0 <= j < |c| && j != i ensures c[j] != c[i] {
      ChainDistinct(m0, p, c, if i < j then i else j, if i < j then j else i);
    }
    HideDone(m0, r, p, c, i, off, offset);
  }

  lemma HideDone(m0: Memory, r: Memory, p: Ptr, c: seq<Ptr>, i: nat, off: nat, offset: nat)
    requires OnePacket(m0, p, c) && i < |c| && offset <= |Flat(m0, c)| <= 0xffff
    requires off + |Flat(m0, c[..i])| == offset && off <= |Data(m0, c[i])|
    requires SameLinks(m0, r, c) && forall q :: q in c ==> q in r
    requires forall k {:trigger c[k]} :: 0 <= k < i ==> Data(r, c[k]) == [] && r[c[k]].totLen == |Flat(m0, c)| - offset
    requires forall k {:trigger c[k]} :: i < k < |c| ==> r[c[k]] == m0[c[k]]
    requires Data(r, c[i]) == Data(m0, c[i])[off..] && r[c[i]].totLen == Wrap16(m0[c[i]].totLen - off)
    ensures OnePacket(r, p, c) && Flat(r, c) == Flat(m0, c)[offset..]
  {
    ChainKept(m0, r, p, c);
    forall j {:trigger TotOk(r, c, j)} | 0 <= j < |c| ensures TotOk(r, c, j) {
      HideTot(m0, r, p, c, i, j, off, offset);
    }
    HideFlat(m0, r, c, i, off, offset);
  }

  lemma HideFlat(m0: Memory, r: Memory, c: seq<Ptr>, i: nat, off: nat, offset: nat)
    requires i < |c| && off + |Flat(m0, c[..i])| == offset && off <= |Data(m0, c[i])|
    requires forall k {:trigger c[k]} :: 0 <= k < i ==> Data(r, c[k]) == []
    requires forall k {:trigger c[k]} :: i < k < |c| ==> Data(r, c[k]) == Data(m0, c[k])
    requires Data(r, c[i]) == Data(m0, c[i])[off..]
    ensures offset <= |Flat(m0, c)| && Flat(r, c) == Flat(m0, c)[offset..]
  {
    hide Data, Flat;
    FlatAt(m0, c, i);
    assert c[0..] == c;
    HideTotal(m0, r, c, i, 0, off);
  }

  lemma HideTot(m0: Memory, r: Memory, p: Ptr, c: seq<Ptr>, i: nat, j: nat, off: nat, offset: nat)
    requires OnePacket(m0, p, c) && i < |c| && j < |c| && offset <= |Flat(m0, c)| <= 0xffff
    requires off + |Flat(m0, c[..i])| == offset && off <= |Data(m0, c[i])|
    requires c[j] in r
    requires forall k {:trigger c[k]} :: 0 <= k < i ==>
      c[k] in r && Data(r, c[k]) == [] && r[c[k]].totLen == |Flat(m0, c)| - offset
    requires forall k {:trigger c[k]} :: i < k < |c| ==> c[k] in r && c[k] in m0 && r[c[k]] == m0[c[k]]
    requires c[i] in r && c[i] in m0 && Data(r, c[i]) == Data(m0, c[i])[off..]
      && r[c[i]].totLen == Wrap16(m0[c[i]].totLen - off)
    ensures TotOk(r, c, j)
  {
    FlatAt(m0, c, i);
    FlatCut(m0, c, i);
    assert TotOk(m0, c, j) && TotOk(m0, c, i);
    if j <= i {
      HideTotal(m0, r, c, i, j, off);
    } else {
      FlatTailKept(m0, r, c, j);
    }
  }

  lemma {:induction false} HiddenFlat(r: Memory, c: seq<Ptr>, a: nat, b: nat)
    requires a <= b <= |c| && forall j {:trigger c[j]} :: a <= j < b ==> Data(r, c[j]) == []
    ensures Flat(r, c[a..b]) == []
    decreases b - a
  {
    if a < b {
      assert c[a..b][1..] == c[a + 1..b];
      HiddenFlat(r, c, a + 1, b);
    }
  }

  lemma FlatTailKept(m: Memory, r: Memory, c: seq<Ptr>, a: nat)
    requires a <= |c| && forall j {:trigger c[j]} :: a <= j < |c| ==> Data(r, c[j]) == Data(m, c[j])
    ensures Flat(r, c[a..]) == Flat(m, c[a..])
  {
    FlatSame(m, r, c[a..]);
  }

  /** The bytes from the hidden pbuf j <= i to the end. */
  lemma HideTotal(m0: Memory, r: Memory, c: seq<Ptr>, i: nat, j: nat, off: nat)
    requires j <= i < |c| && off <= |Data(m0, c[i])|
    requires forall k {:trigger c[k]} :: 0 <= k < i ==> Data(r, c[k]) == []
    requires forall k {:trigger c[k]} :: i < k < |c| ==> Data(r, c[k]) == Data(m0, c[k])
    requires Data(r, c[i]) == Data(m0, c[i])[off..]
    ensures Flat(r, c[j..]) == Data(m0, c[i])[off..] + Flat(m0, c[i + 1..])
  {
    HiddenFlat(r, c, j, i);
    FlatSplitAt(r, c, j, i);
    FlatTailKept(m0, r, c, i + 1);
  }

  lemma FlatSplitAt(r: Memory, c: seq<Ptr>, j: nat, i: nat)
    requires j <= i < |c|
    ensures Flat(r, c[j..]) == Flat(r, c[j..i]) + (Data(r, c[i]) + Flat(r, c[i + 1..]))
  {
    assert c[j..] == c[j..i] + c[i..];
    FlatConcat(r, c[j..i], c[i..]);
    assert c[i..][1..] == c[i + 1..];
  }

  /** pbuf_realloc's walk: k pbufs passed over, rem bytes still to keep. */
  ghost predicate Walking(m0: Memory, m: Memory, c: seq<Ptr>, n: nat, k: nat, rem: nat) {
    && k < |c| && n <= |Flat(m0, c)|
    && PassedOver(m0, m, c, k, |Flat(m0, c)| - n)
    && rem + |Flat(m0, c[..k])| == n
    && LastKept(m0, c, n) == k + LastKept(m0, c[k..], rem)
  }

  lemma WalkStart(m: Memory, p: Ptr, c: seq<Ptr>, n: nat)
    requires OnePacket(m, p, c) && |c| > 0 && n < |Flat(m, c)|
    ensures Walking(m, m, c, n, 0, n)
  {
    assert c[..0] == [] && c[0..] == c;
  }

  lemma WalkStep(m0: Memory, m: Memory, p: Ptr, c: seq<Ptr>, n: nat, k: nat, rem: nat, grow: int) returns (r: Memory)
    requires IsChain(m0, p, c) && Walking(m0, m, c, n, k, rem) && rem > |Data(m0, c[k])| && |Flat(m0, c)| <= 0xffff
    requires grow == n - |Flat(m0, c)|
    ensures c[k] in m && r == m[c[k] := m[c[k]].(totLen := Wrap16(m[c[k]].totLen + Wrap16(grow)))]
    ensures k + 1 < |c| && r[c[k]].next == c[k + 1]
    ensures c[k + 1] in m0 && c[k + 1] in r && r[c[k + 1]] == m0[c[k + 1]]
    ensures Walking(m0, r, c, n, k + 1, rem - |Data(m0, c[k])|)
  {
    hide Flat, Data, IsChain, Wrap16, Link;
    PassStep(m0, m, p, c, k, |Flat(m0, c)| - n);
    r := m[c[k] := m[c[k]].(totLen := Wrap16(m[c[k]].totLen + Wrap16(0 - (|Flat(m0, c)| - n))))];
    PieceAt(m0, c, k);
    NotDone(m0, c, k + 1);
    NextOf(m0, p, c, k);
    NextOf(m0, p, c, k + 1);
    NotBefore(m0, p, c, k + 1);
    assert LastKept(m0, c[k..], rem) == 1 + LastKept(m0, c[k + 1..], rem - |Data(m0, c[k])|) by {
      assert c[k..][1..] == c[k + 1..];
    }
  }

  lemma NotBefore(m: Memory, p: Ptr, c: seq<Ptr>, k: nat)
    requires IsChain(m, p, c) && k < |c|
    ensures c[k] !in c[..k]
  {
    ChainSplit(m, p, c, k);
    assert c[k] in c[k..];
  }

  lemma LastKeptHere(m0: Memory, c: seq<Ptr>, k: nat, rem: nat)
    requires k < |c| && rem <= |Data(m0, c[k])|
    ensures LastKept(m0, c[k..], rem) == 0
  {
  }

  /** From the cut pbuf on: freeing the rest and unlinking gives pbuf_realloc's result. */
  lemma CutDone(m0: Memory, m: Memory, p: Ptr, c: seq<Ptr>, k: nat, n: u16)
    requires OnePacket(m0, p, c) && k < |c| && 0 !in m0 && n < |Flat(m0, c)| && forall x :: x in m0 ==> m0[x].ref > 0
    requires c[k] in m0 && |Flat(m0, c[..k])| <= n <= |Flat(m0, c[..k])| + |Data(m0, c[k])| && k == LastKept(m0, c, n)
    requires var rem := n - |Flat(m0, c[..k])|; var q := c[k];
      && q in m && m[q] == m0[q].(data := m0[q].data[..rem], totLen := Wrap16(rem))
      && PassedOver(m0, m[q := m0[q]], c, k, |Flat(m0, c)| - n)
    ensures var q, next := c[k], m0[c[k]].next;
      && IsChain(m, next, c[k + 1..]) && 0 !in m && (forall x :: x in m ==> m[x].ref > 0)
      && q in S.Free(m, next) && S.Free(m, next)[q] == m[q]
      && S.Free(m, next)[q := m[q].(next := 0)] == S.Realloc(m0, c, n)
  {
    hide Flat, PassedOver, S.Realloc, LastKept;
    CutFrame(m0, m, c, k, |Flat(m0, c)| - n);
    RestChain(m0, m, p, c, k);
    FreeUnlink(m, m0[c[k]].next, c[k + 1..], c[k]);
    CutReallocs(m0, m, p, c, k, n);
  }

  lemma CutReallocs(m0: Memory, m: Memory, p: Ptr, c: seq<Ptr>, k: nat, n: u16)
    requires OnePacket(m0, p, c) && k < |c| && n < |Flat(m0, c)|
    requires c[k] in m0 && |Flat(m0, c[..k])| <= n <= |Flat(m0, c[..k])| + |Data(m0, c[k])| && k == LastKept(m0, c, n)
    requires var rem := n - |Flat(m0, c[..k])|; var q := c[k];
      && q in m && m[q] == m0[q].(data := m0[q].data[..rem], totLen := Wrap16(rem))
      && PassedOver(m0, m[q := m0[q]], c, k, |Flat(m0, c)| - n)
    ensures S.Free(m[c[k] := m[c[k]].(next := 0)], m0[c[k]].next) == S.Realloc(m0, c, n)
  {
    hide Flat, PassedOver, Cut, LastKept;
    TotLenSums(m0, p, c);
    var drop: nat := m0[c[0]].totLen - n;
    assert S.Realloc(m0, c, n) == S.Free(Cut(m0, c, k, n, drop), m0[c[k]].next);
    CutIs(m0, m, p, c, k, n, drop);
  }

  lemma CutFrame(m0: Memory, m: Memory, c: seq<Ptr>, k: nat, drop: nat)
    requires k < |c| && c[k] in m0 && c[k] in m && m[c[k]].ref == m0[c[k]].ref
    requires PassedOver(m0, m[c[k] := m0[c[k]]], c, k, drop)
    ensures m.Keys == m0.Keys
    ensures forall x :: x in m ==> m[x].ref == m0[x].ref && (x !in c[..k] && x != c[k] ==> m[x] == m0[x])
  {
    var w := m[c[k] := m0[c[k]]];
    forall x | x in m ensures m[x].ref == m0[x].ref && (x !in c[..k] && x != c[k] ==> m[x] == m0[x]) {
      assert x != c[k] ==> w[x] == m[x];
      if x in c[..k] {
        var i :| 0 <= i < k && c[i] == x;
        assert w[c[i]].ref == m0[c[i]].ref;
      }
    }
  }

  lemma RestChain(m0: Memory, m: Memory, p: Ptr, c: seq<Ptr>, k: nat)
    requires IsChain(m0, p, c) && k < |c| && c[k] in m0 && m.Keys == m0.Keys
    requires forall q :: q in m0 && q !in c[..k] && q != c[k] ==> m[q] == m0[q]
    ensures IsChain(m, m0[c[k]].next, c[k + 1..]) && c[k] !in c[k + 1..]
    ensures forall q :: q in c[k + 1..] ==> q in m0 && m[q] == m0[q]
  {
    ChainInMemory(m0, p, c);
    ChainSuffix(m0, p, c, k + 1);
    ChainSplit(m0, p, c, k + 1);
    assert c[..k + 1] == c[..k] + [c[k]];
    assert c[k] in c[..k + 1];
    assert forall q :: q in c[k + 1..] ==> q in c;
    assert Link(m0, c, k);
    ChainKept(m0, m, m0[c[k]].next, c[k + 1..]);
  }

  /** Unlinking q after its rest was freed, or before, is the same. */
  lemma FreeUnlink(m: Memory, x: Ptr, rest: seq<Ptr>, q: Ptr)
    requires IsChain(m, x, rest) && 0 !in m && q in m && q !in rest && forall y :: y in rest ==> y in m && m[y].ref > 0
    ensures q in S.Free(m, x) && S.Free(m, x)[q] == m[q]
    ensures S.Free(m, x)[q := m[q].(next := 0)] == S.Free(m[q := m[q].(next := 0)], x)
  {
    var n := m[q := m[q].(next := 0)];
    ChainKept(m, n, x, rest);
    FreeIsPrefix(m, x, rest);
    FreeIsPrefix(n, x, rest);
    SoleOwnedSame(m, n, rest);
  }

  lemma CatIs(m: Memory, r: Memory, c: seq<Ptr>, t: Ptr)
    requires |c| > 0 && t in m && m.Keys == r.Keys && forall q :: q in c ==> q in m
    requires forall q :: q in m && q !in c ==> r[q] == m[q]
    requires forall j {:trigger c[j]} :: 0 <= j < |c| - 1 ==>
      c[j] != c[|c| - 1] && r[c[j]] == m[c[j]].(totLen := Wrap16(m[c[j]].totLen + m[t].totLen))
    requires var z := c[|c| - 1]; r[z] == m[z].(totLen := Wrap16(m[z].totLen + m[t].totLen), next := t)
    ensures r == S.Cat(m, c, t)
  {
    var d := S.Cat(m, c, t);
    forall q | q in m ensures r[q] == d[q] {
      if q in c {
        var j :| 0 <= j < |c| && c[j] == q;
      }
    }
  }

  class PbufMem {
    var cell: Memory

    // ------------------------------------------------------------ references

    /** pbuf_free; the assertion demands that every pbuf of a chain is referenced. */
    method Free(p0: Ptr, ghost c: seq<Ptr>) returns (count: u8)
      requires IsChain(cell, p0, c) && 0 !in cell
      requires forall q :: q in cell ==> cell[q].ref > 0
      modifies this
      ensures cell == S.Free(old(cell), p0)
      ensures count == S.Freed(old(cell), p0) % 0x100
    {
      var p := p0;
      count := 0;
      ghost var i := 0;
      ghost var gone := 0;
      ChainInMemory(cell, p0, c);
      while p != 0
        invariant 0 !in cell && cell.Keys <= old(cell).Keys
        invariant forall q :: q in cell ==> cell[q].ref > 0
        invariant p != 0 ==> i < |c| && p == c[i] && p in cell && cell[p] == old(cell)[p]
        invariant forall j :: i < j < |c| ==> c[j] in cell && cell[c[j]] == old(cell)[c[j]]
        invariant p != 0 ==> S.Free(cell, p) == S.Free(old(cell), p0) && gone + Freed(cell, p) == Freed(old(cell), p0)
        invariant p == 0 ==> cell == S.Free(old(cell), p0) && gone == Freed(old(cell), p0)
        invariant count == gone % 0x100
        decreases if p != 0 then |c| - i else -1
      {
        assert Link(old(cell), c, i);
        forall j | i < j < |c| ensures c[j] != p { ChainDistinct(old(cell), p0, c, i, j); }
        var ref := cell[p].ref - 1;
        if ref == 0 {
          var q := cell[p].next;
          cell := cell - {p};
          count := if count == 0xff then 0 else count + 1;
          gone := gone + 1;
          p := q;
          i := i + 1;
        } else {
          cell := cell[p := cell[p].(ref := ref)];
          p := 0;
        }
      }
    }

    /** pbuf_ref. */
    method Ref(p: Ptr)
      requires p == 0 || p in cell
      modifies this
      ensures cell == if p == 0 then old(cell) else S.Ref(old(cell), p)
    {
      if p != 0 {
        cell := cell[p := cell[p].(ref := Wrap16(cell[p].ref + 1))];
      }
    }

    /** pbuf_cat; t must not be a pbuf of the head chain. */
    method Cat(h: Ptr, t: Ptr, ghost c: seq<Ptr>)
      requires h != 0 && t != 0 ==> IsChain(cell, h, c) && t in cell && t !in c
      modifies this
      ensures cell == if h != 0 && t != 0 then S.Cat(old(cell), c, t) else old(cell)
    {
      if h == 0 || t == 0 {
        return;
      }
      ChainInMemory(cell, h, c);
      var p := h;
      ghost var i := 0;
      while cell[p].next != 0
        invariant i < |c| && p == c[i] && cell.Keys == old(cell).Keys
        invariant forall q :: q in cell && q !in c ==> cell[q] == old(cell)[q]
        invariant forall j {:trigger c[j]} :: i <= j < |c| ==> cell[c[j]] == old(cell)[c[j]]
        invariant forall j {:trigger c[j]} :: 0 <= j < i ==>
          cell[c[j]] == old(cell)[c[j]].(totLen := Wrap16(old(cell)[c[j]].totLen + old(cell)[t].totLen))
        decreases |c| - i
      {
        NextOf(old(cell), h, c, i);
        forall j | 0 <= j < |c| && j != i ensures c[j] != p {
          ChainDistinct(old(cell), h, c, if i < j then i else j, if i < j then j else i);
        }
        cell := cell[p := cell[p].(totLen := Wrap16(cell[p].totLen + cell[t].totLen))];
        p := cell[p].next;
        i := i + 1;
      }
      NextOf(old(cell), h, c, i);
      forall j | 0 <= j < i ensures c[j] != p { ChainDistinct(old(cell), h, c, j, i); }
      cell := cell[p := cell[p].(totLen := Wrap16(cell[p].totLen + cell[t].totLen), next := t)];
      CatIs(old(cell), cell, c, t);
    }

    /** pbuf_chain. */
    method Chain(h: Ptr, t: Ptr, ghost c: seq<Ptr>)
      requires h != 0 && t != 0 && IsChain(cell, h, c) && t in cell && t !in c
      modifies this
      ensures cell == S.Ref(S.Cat(old(cell), c, t), t)
    {
      Cat(h, t, c);
      Ref(t);
    }

    /** pbuf_dechain. */
    method Dechain(p: Ptr, ghost c: seq<Ptr>) returns (rest: Ptr)
      requires p != 0 && IsChain(cell, p, c) && 0 !in cell
      requires forall q :: q in cell ==> cell[q].ref > 0
      modifies this
      ensures p in old(cell) && cell == S.Dechain(old(cell), p)
      ensures var q := old(cell)[p].next;
        rest == if q == 0 || (q in old(cell) && Freed(Unlink(old(cell), p), q) % 0x100 > 0) then 0 else q
    {
      ChainTail(cell, p, c);
      var tailGone: u8 := 1;
      var q := cell[p].next;
      if q != 0 {
        ChainTail(cell, q, c[1..]);
        ChainSplit(cell, p, c, 1);
        assert q in c[1..] && p in c[..1];
        cell := cell[q := cell[q].(totLen := Wrap16(cell[p].totLen - |cell[p].data|))];
        cell := cell[p := cell[p].(next := 0)];
        cell := cell[p := cell[p].(totLen := Wrap16(|cell[p].data|))];
        assert cell == Unlink(old(cell), p);
        ChainKept(old(cell), cell, q, c[1..]);
        tailGone := Free(q, c[1..]);
      }
      rest := if tailGone > 0 then 0 else q;
    }

    // ------------------------------------------------------------ bytes

    /** pbuf_copy_partial: the bytes copied out.  (It returns their number.) */
    method CopyPartial(buf: Ptr, len0: u16, offset0: u16, ghost c: seq<Ptr>) returns (out: seq<u8>)
      requires IsChain(cell, buf, c)
      ensures var all := Flat(cell, c);
        out == all[Min(offset0, |all|)..Min(offset0 + len0, |all|)]
    {
      hide Flat, IsSlice, Link, First;
      var len: nat, offset: nat := len0, offset0;
      out := [];
      var p := buf;
      ghost var i := 0;
      ghost var all := Flat(cell, c);
      FlatNone(cell, c);
      while len != 0 && p != 0
        invariant i <= |c| && p == First(c[i..])
        invariant |out| + len == len0
        invariant Copied(all, |Flat(cell, c[..i])|, offset0, offset, out, len)
        decreases |c| - i
      {
        PieceLies(cell, buf, c, i, p);
        if offset != 0 && offset >= |cell[p].data| {
          offset := offset - |cell[p].data|;
        } else {
          var n := |cell[p].data| - offset;
          if n > len {
            n := len;
          }
          CopiedMore(all, |Flat(cell, c[..i])|, cell[p].data, offset0, offset, out, len, n);
          out := out + cell[p].data[offset..offset + n];
          len := len - n;
          offset := 0;
        }
        p := cell[p].next;
        i := i + 1;
      }
      if p == 0 {
        ChainDone(cell, buf, c, i);
      }
      CopiedAll(all, |Flat(cell, c[..i])|, offset0, offset, out, len);
    }

    /** pbuf_skip: the pbuf holding byte in_offset, and where in it. */
    method Skip(buf: Ptr, inOffset: u16, ghost c: seq<Ptr>) returns (q: Ptr, offset: u16, ghost i: nat)
      requires IsChain(cell, buf, c)
      ensures i <= |c| && q == First(c[i..]) && offset + |Flat(cell, c[..i])| == inOffset
      ensures i < |c| ==> offset < |Data(cell, c[i])|
      ensures (q != 0) == (inOffset < |Flat(cell, c)|)
    {
      q, offset, i := buf, inOffset, 0;
      assert c[..0] == [] && c[0..] == c && Flat(cell, []) == [];
      hide Flat, Link;
      if q != 0 { PieceLies(cell, buf, c, i, q); }
      while q != 0 && |cell[q].data| <= offset
        invariant i <= |c| && q == First(c[i..]) && offset + |Flat(cell, c[..i])| == inOffset
        invariant q != 0 ==> q in cell && i < |c|
        decreases |c| - i
      {
        PieceLies(cell, buf, c, i, q);
        offset := offset - |cell[q].data|;
        q := cell[q].next;
        i := i + 1;
        if q != 0 { PieceLies(cell, buf, c, i, q); }
      }
      if q == 0 { ChainDone(cell, buf, c, i); } else { PieceLies(cell, buf, c, i, q); }
    }

    /** pbuf_take: data written over the first bytes of the chain. */
    method Take(buf: Ptr, data: seq<u8>, ghost c: seq<Ptr>) returns (err: Err)
      requires OnePacket(cell, buf, c) && |data| <= 0xffff
      modifies this
      ensures err == if buf == 0 then ERR_ARG else if |data| > |Flat(old(cell), c)| then ERR_MEM else ERR_OK
      ensures err == ERR_OK ==> Written(old(cell), cell, buf, c, 0, data)
      ensures err != ERR_OK ==> cell == old(cell)
    {
      hide Flat, Overwritten, SameShape;
      if buf == 0 {
        return ERR_ARG;
      }
      TotLenSums(cell, buf, c);
      if cell[buf].totLen < |data| {
        return ERR_MEM;
      }
      var total: nat, copied: nat := |data|, 0;
      var p := buf;
      ghost var i := 0;
      NothingWritten(cell, buf, c);
      assert c[0..] == c && data[..0] == [];
      while total != 0
        invariant i <= |c| && p == First(c[i..])
        invariant copied + total == |data|
        invariant total > 0 ==> copied == |Flat(cell, c[..i])|
        invariant Written(old(cell), cell, buf, c, 0, data[..copied])
        decreases |c| - i
      {
        SameLength(Flat(old(cell), c), Flat(cell, c), 0, data[..copied]);
        NotDone(cell, c, i);
        NextOf(cell, buf, c, i);
        PieceAt(cell, c, i);
        var n := total;
        if n > |cell[p].data| {
          n := |cell[p].data|;
        }
        var now := data[copied..copied + n];
        var piece := [] + now + cell[p].data[n..];
        TakeSlices(data, copied, n, cell[p].data);
        TakeStep(old(cell), cell, buf, c, i, data[..copied], now, piece);
        cell := cell[p := cell[p].(data := piece)];
        total := total - n;
        copied := copied + n;
        p := cell[p].next;
        i := i + 1;
      }
      assert data[..copied] == data;
      return ERR_OK;
    }

    /** pbuf_take_at. */
    method TakeAt(buf: Ptr, data: seq<u8>, offset: u16, ghost c: seq<Ptr>) returns (err: Err)
      requires OnePacket(cell, buf, c) && |data| <= 0xffff
      modifies this
      ensures var total := |Flat(old(cell), c)|;
        err == if offset < total && offset + |data| <= total then ERR_OK else ERR_MEM
      ensures err == ERR_OK ==> Written(old(cell), cell, buf, c, offset, data)
      ensures err != ERR_OK ==> cell == old(cell)
    {
      ghost var i;
      var q, target;
      q, target, i := Skip(buf, offset, c);
      if q != 0 {
        OnePacketSuffix(cell, buf, c, i);
        TotLenSums(cell, q, c[i..]);
        FlatCut(cell, c, i);
        if cell[q].totLen >= target + |data| {
          err := TakeFrom(buf, q, data, target, offset, c, i);
          return err;
        }
      }
      return ERR_MEM;
    }

    /** The copying part of pbuf_take_at: the bytes that fit the pbuf q, then pbuf_take. */
    method TakeFrom(buf: Ptr, q: Ptr, data: seq<u8>, target: nat, ghost offset: nat, ghost c: seq<Ptr>, ghost i: nat)
      returns (err: Err)
      requires OnePacket(cell, buf, c) && |data| <= 0xffff && i < |c| && q == c[i]
      requires target < |Data(cell, q)| && offset == |Flat(cell, c[..i])| + target && offset + |data| <= |Flat(cell, c)|
      modifies this
      ensures err == ERR_OK && Written(old(cell), cell, buf, c, offset, data)
    {
      hide Flat, Overwritten, SameShape;
      NextOf(cell, buf, c, i);
      PieceAt(cell, c, i);
      var first := Min(|cell[q].data| - target, |data|);
      var piece := cell[q].data[..target] + data[..first] + cell[q].data[target + first..];
      FirstSlices(data, first, cell[q].data, target);
      HeadWritten(cell, buf, c, i, target, data[..first], piece);
      cell := cell[q := cell[q].(data := piece)];
      ghost var m := cell;
      if |data| - first > 0 {
        SameLength(Flat(old(cell), c), Flat(cell, c), offset, data[..first]);
        var rest := data[first..];
        err := TakeRest(buf, q, rest, c, i);
        TailWritten(old(cell), m, cell, buf, c, i, offset, data[..first], rest);
        return err;
      }
      return ERR_OK;
    }

    method TakeRest(buf: Ptr, q: Ptr, rest: seq<u8>, ghost c: seq<Ptr>, ghost i: nat) returns (err: Err)
      requires OnePacket(cell, buf, c) && 0 < |rest| <= 0xffff && i < |c| && q == c[i] && q in cell
      requires |Flat(cell, c[..i + 1])| + |rest| <= |Flat(cell, c)|
      modifies this
      ensures err == ERR_OK && Written(old(cell), cell, First(c[i + 1..]), c[i + 1..], 0, rest)
    {
      OnePacketSuffix(cell, buf, c, i + 1);
      FlatCut(cell, c, i + 1);
      NotDone(cell, c, i + 1);
      NextOf(cell, buf, c, i);
      err := Take(cell[q].next, rest, c[i + 1..]);
    }

    /** pbuf_realloc; the memory behind a cut PBUF_RAM pbuf is given back by mem_trim, which
        leaves the pbuf where it is. */
    method Realloc(p: Ptr, newLen: u16, ghost c: seq<Ptr>)
      requires OnePacket(cell, p, c) && |c| > 0 && 0 !in cell
      requires forall q :: q in cell ==> cell[q].ref > 0
      modifies this
      ensures cell == S.Realloc(old(cell), c, newLen)
    {
      hide Flat, LastKept, S.Cut, Wrap16;
      TotLenSums(cell, p, c);
      if newLen >= cell[p].totLen {
        return;
      }
      Shorten(p, newLen, c);
    }

    /** The walk to the pbuf the new end falls into, and the cut there. */
    method Shorten(p: Ptr, newLen: u16, ghost c: seq<Ptr>)
      requires OnePacket(cell, p, c) && |c| > 0 && 0 !in cell && newLen < |Flat(cell, c)| && p in cell
      requires |Flat(cell, c)| == cell[p].totLen && forall q :: q in cell ==> cell[q].ref > 0
      modifies this
      ensures cell == S.Realloc(old(cell), c, newLen)
    {
      hide Flat, LastKept, S.Cut, S.Realloc, Wrap16, PassedOver;
      var grow: int := newLen - cell[p].totLen;
      var rem: nat := newLen;
      var q := p;
      ghost var k := 0;
      WalkStart(cell, p, c, newLen);
      while rem > |cell[q].data|
        invariant Walking(old(cell), cell, c, newLen, k, rem) && q == c[k] && q in cell && q in old(cell)
        invariant cell[q] == old(cell)[q]
        decreases |c| - k
      {
        var here := |cell[q].data|;
        q := PassOver(q, grow, p, newLen, c, k, rem, old(cell));
        rem := rem - here;
        k := k + 1;
      }
      LastKeptHere(old(cell), c, k, rem);
      CutHere(p, q, rem, newLen, c, k, old(cell));
    }

    /** One pbuf further, its `tot_len` adjusted. */
    method PassOver(q0: Ptr, grow: int, ghost p: Ptr, ghost n: nat, ghost c: seq<Ptr>, ghost k: nat,
        ghost rem: nat, ghost m0: Memory)
      returns (q: Ptr)
      requires IsChain(m0, p, c) && Walking(m0, cell, c, n, k, rem) && q0 == c[k] && q0 in cell && q0 in m0
        && cell[q0] == m0[q0]
      requires rem > |cell[q0].data| && |Flat(m0, c)| <= 0xffff && grow == n - |Flat(m0, c)|
      modifies this
      ensures k + 1 < |c| && q == c[k + 1] && q in cell && q in m0 && cell[q] == m0[q]
      ensures Walking(m0, cell, c, n, k + 1, rem - |m0[q0].data|)
    {
      hide Flat, LastKept, Wrap16, PassedOver, IsChain, Walking;
      ghost var r := WalkStep(m0, cell, p, c, n, k, rem, grow);
      cell := cell[q0 := cell[q0].(totLen := Wrap16(cell[q0].totLen + Wrap16(grow)))];
      assert cell == r;
      q := cell[q0].next;
    }

    /** Cut the k-th pbuf q, free the rest and unlink it. */
    method CutHere(p: Ptr, q: Ptr, rem: nat, ghost n: u16, ghost c: seq<Ptr>, ghost k: nat, ghost m0: Memory)
      requires OnePacket(m0, p, c) && k < |c| && q == c[k] && 0 !in m0 && n < |Flat(m0, c)|
      requires (forall x :: x in m0 ==> m0[x].ref > 0) && PassedOver(m0, cell, c, k, |Flat(m0, c)| - n)
      requires rem + |Flat(m0, c[..k])| == n && rem <= |Data(m0, q)| && k == LastKept(m0, c, n)
      modifies this
      ensures cell == S.Realloc(m0, c, n)
    {
      hide Flat, LastKept;
      NextOf(m0, p, c, k);
      ChainSplit(m0, p, c, k);
      assert c[k] in c[k..];
      cell := cell[q := cell[q].(data := cell[q].data[..rem], totLen := Wrap16(rem))];
      CutDone(m0, cell, p, c, k, n);
      var next := cell[q].next;
      if next != 0 {
        var gone := Free(next, c[k + 1..]);
      }
      cell := cell[q := cell[q].(next := 0)];
    }

    /** How tcp_receive hides bytes at the front of a segment: pbufs wholly before the cut
        become empty, the payload of the one it falls into is moved, by what must fit an s16. */
    method HideFront(p0: Ptr, offset: nat, ghost c: seq<Ptr>)
      requires OnePacket(cell, p0, c) && |c| > 0 && offset <= |Flat(cell, c)|
      requires Small(cell, c)
      modifies this
      ensures OnePacket(cell, p0, c) && Flat(cell, c) == Flat(old(cell), c)[offset..]
      ensures SameLinks(old(cell), cell, c)
    {
      hide Flat, IsChain, SameLinks, TotOk, Hidden;
      TotLenSums(cell, p0, c);
      NextOf(cell, p0, c, 0);
      var p, off;
      ghost var i;
      p, off, i := HideWhole(p0, offset, Wrap16(cell[p0].totLen - offset), c);
      ghost var r := HideLast(old(cell), cell, p0, c, i, off, offset);
      Header(p, off);
      assert cell == r;
    }

    /** The loop over the pbufs wholly before the cut (none if the first one reaches it). */
    method HideWhole(p0: Ptr, offset: nat, newTot: u16, ghost c: seq<Ptr>) returns (p: Ptr, off: nat, ghost i: nat)
      requires OnePacket(cell, p0, c) && |c| > 0 && offset <= |Flat(cell, c)|
      modifies this
      ensures i < |c| && p == c[i] && off + |Flat(old(cell), c[..i])| == offset && off <= |Data(old(cell), c[i])|
      ensures Hidden(old(cell), cell, c, i, newTot)
    {
      NextOf(cell, p0, c, 0);
      p, off, i := p0, offset, 0;
      assert c[..0] == [] && c[0..] == c;
      while |cell[p].data| < off
        invariant i < |c| && p == c[i] && p in cell && off + |Flat(old(cell), c[..i])| == offset
        invariant Hidden(old(cell), cell, c, i, newTot)
        decreases |c| - i
      {
        NextOf(old(cell), p0, c, i);
        PieceAt(old(cell), c, i);
        NotDone(old(cell), c, i + 1);
        HideStep(old(cell), cell, p0, c, i, newTot);
        off := off - |cell[p].data|;
        cell := cell[p := cell[p].(totLen := newTot, data := [])];
        p := cell[p].next;
        i := i + 1;
        NextOf(old(cell), p0, c, i);
      }
    }

    /** pbuf_header with a negative increment. */
    method Header(p: Ptr, n: nat)
      requires p in cell && n <= |cell[p].data| && n <= 0x7fff
      modifies this
      ensures var was := old(cell)[p];
        cell == old(cell)[p := was.(data := was.data[n..], totLen := Wrap16(was.totLen - n))]
    {
      if n == 0 {
        assert cell[p].data[0..] == cell[p].data;
        return;
      }
      cell := cell[p := cell[p].(data := cell[p].data[n..])];
      cell := cell[p := cell[p].(totLen := Wrap16(cell[p].totLen - n))];
    }

    /** The test for a second packet behind q: q ends its packet but has a successor. */
    method EndsPacket(q: Ptr, ghost p: Ptr, ghost c: seq<Ptr>, ghost i: nat, ghost m0: Memory) returns (b: bool)
      requires OnePacket(cell, p, c) && i <= |c| && q == First(c[i..])
      requires forall x :: x in c ==> |Data(m0, x)| == |Data(cell, x)|
      ensures b <==> W.Queued(Lens(m0, c), i)
    {
      if q == 0 {
        ChainDone(cell, p, c, i);
        return false;
      }
      NextOf(cell, p, c, i);
      QueueCheck(m0, cell, p, c, i);
      b := |cell[q].data| == cell[q].totLen && cell[q].next != 0;
    }

    /** One round of pbuf_copy: copy what fits both pbufs, then step over the exhausted ones. */
    method CopyRound(t0: Ptr, ot0: nat, f0: Ptr, of0: nat, ghost m0: Memory,
                     ghost to: Ptr, ghost c: seq<Ptr>, ghost i0: nat, ghost from: Ptr, ghost d: seq<Ptr>, ghost j0: nat)
      returns (t: Ptr, ot: nat, f: Ptr, of: nat, ghost i: nat, ghost j: nat)
      requires CopyState(m0, cell, to, c, i0, ot0, from, d, j0, of0) && forall q :: q in d ==> q !in c
      requires i0 < |c| && j0 < |d| && t0 == c[i0] && f0 == d[j0]
      modifies this
      ensures CopyState(m0, cell, to, c, i, ot, from, d, j, of)
      ensures t == First(c[i..]) && f == First(d[j..]) && i0 + j0 < i + j
      ensures var p := W.Pos(i0, ot0, j0, of0); var b, a := Lens(m0, c), Lens(m0, d);
        W.Inside(b, a, p) && W.Pos(i, ot, j, of) == W.Round(b, a, p)
    {
      hide CopyState;
      CopyBounds(m0, cell, to, c, i0, ot0, from, d, j0, of0);
      RoundLens(m0, cell, to, c, i0, ot0, from, d, j0, of0);
      var room, left := |cell[t0].data| - ot0, |cell[f0].data| - of0;
      var len := if room >= left then left else room;
      var piece := cell[t0].data[..ot0] + cell[f0].data[of0..of0 + len] + cell[t0].data[ot0 + len..];
      CopyPiece(m0, cell, to, c, i0, ot0, from, d, j0, of0, len, piece);
      cell := cell[t0 := cell[t0].(data := piece)];
      f, of, j := StepSource(f0, of0 + len, m0, to, c, i0, ot0 + len, from, d, j0);
      t, ot, i := StepTarget(t0, ot0 + len, m0, to, c, i0, from, d, j, of);
    }

    method StepSource(f0: Ptr, of0: nat, ghost m0: Memory, ghost to: Ptr, ghost c: seq<Ptr>, ghost i: nat,
        ghost ot: nat,
                      ghost from: Ptr, ghost d: seq<Ptr>, ghost j0: nat)
      returns (f: Ptr, of: nat, ghost j: nat)
      requires CopyState(m0, cell, to, c, i, ot, from, d, j0, of0) && forall q :: q in d ==> q !in c
      requires j0 < |d| && f0 == d[j0]
      ensures CopyState(m0, cell, to, c, i, ot, from, d, j, of) && f == First(d[j..])
      ensures if of0 == |Data(m0, d[j0])| then j == j0 + 1 && of == 0 else j == j0 && of == of0
    {
      SourceKept(m0, cell, from, c, d);
      NextOf(cell, from, d, j0);
      f, of, j := f0, of0, j0;
      if of >= |cell[f].data| {
        CopyNextSource(m0, cell, to, c, i, ot, from, d, j, of);
        of := 0;
        f := cell[f].next;
        j := j + 1;
      }
    }

    method StepTarget(t0: Ptr, ot0: nat, ghost m0: Memory, ghost to: Ptr, ghost c: seq<Ptr>, ghost i0: nat,
                      ghost from: Ptr, ghost d: seq<Ptr>, ghost j: nat, ghost of: nat)
      returns (t: Ptr, ot: nat, ghost i: nat)
      requires CopyState(m0, cell, to, c, i0, ot0, from, d, j, of) && i0 < |c| && t0 == c[i0]
      ensures CopyState(m0, cell, to, c, i, ot, from, d, j, of) && t == First(c[i..])
      ensures if ot0 == |Data(cell, c[i0])| then i == i0 + 1 && ot == 0 else i == i0 && ot == ot0
    {
      NextOf(cell, to, c, i0);
      t, ot, i := t0, ot0, i0;
      if ot == |cell[t].data| {
        CopyNextTarget(m0, cell, to, c, i, ot, from, d, j, of);
        ot := 0;
        t := cell[t].next;
        i := i + 1;
      }
    }

    /** pbuf_copy, between chains that share no pbuf: the first n bytes of the source are
        written, all of them unless a check against packet queues strikes; PbufCopy says
        exactly for which chains none does. */
    method Copy(to: Ptr, from: Ptr, ghost c: seq<Ptr>, ghost d: seq<Ptr>) returns (err: Err, ghost n: nat)
      requires OnePacket(cell, to, c) && OnePacket(cell, from, d) && forall q :: q in d ==> q !in c
      modifies this
      ensures var fits := to != 0 && from != 0 && |Flat(old(cell), d)| <= |Flat(old(cell), c)|;
        && (!fits ==> err == ERR_ARG && cell == old(cell))
        && (fits ==> n <= |Flat(old(cell), d)| && Written(old(cell), cell, to, c, 0, Flat(old(cell), d)[..n]))
        && (fits && err != ERR_VAL ==> n == |Flat(old(cell), d)|)
        && (fits ==> c != [] && d != [])
        && (err == ERR_OK <==> fits && W.Passes(Lens(old(cell), c), Lens(old(cell), d)))
    {
      hide Before, SameShape, Overwritten, Flat, Link, TotOk;
      hide W.Passes, W.Queued, W.Round, W.Reached, W.Inside, W.Total, W.Visited;
      n := 0;
      if to == 0 || from == 0 {
        return ERR_ARG, n;
      }
      TotLenSums(cell, to, c);
      TotLenSums(cell, from, d);
      if cell[to].totLen < cell[from].totLen {
        return ERR_ARG, n;
      }
      var t, f := to, from;
      var ot: nat, of: nat := 0, 0;
      ghost var i: nat, j: nat := 0, 0;
      ghost var b, a := Lens(cell, c), Lens(cell, d);
      CopyStarts(cell, to, c, from, d);
      while f != 0
        invariant i <= |c| && t == First(c[i..]) && j <= |d| && f == First(d[j..]) && (f != 0 ==> t != 0)
        invariant CopyState(old(cell), cell, to, c, i, ot, from, d, j, of)
        invariant var p := W.Pos(i, ot, j, of); p == W.START || (W.Reached(b, a, p) && W.Checked(b, a, p))
        decreases |d| - j + (|c| - i)
      {
        ghost var p := W.Pos(i, ot, j, of);
        t, ot, f, of, i, j := CopyRound(t, ot, f, of, old(cell), to, c, i, from, d, j);
        n := CopiedSoFar(old(cell), cell, to, c, i, ot, from, d, j, of);
        if p == W.START { W.FirstRound(b, a); } else { W.NextRound(b, a, p); }
        if !(t != 0 || f == 0) {
          ChainDone(cell, to, c, i);
          W.StrikeFails(b, a, W.Pos(i, ot, j, of));
          return ERR_ARG, n;
        }
        SourceKept(old(cell), cell, from, c, d);
        ShapeLengths(old(cell), cell, c);
        var queued := EndsPacket(f, from, d, j, old(cell));
        if queued {
          W.StrikeFails(b, a, W.Pos(i, ot, j, of));
          return ERR_VAL, n;
        }
        queued := EndsPacket(t, to, c, i, old(cell));
        if queued {
          W.StrikeFails(b, a, W.Pos(i, ot, j, of));
          return ERR_VAL, n;
        }
        EndOfChain(cell, to, c, i);
        EndOfChain(old(cell), from, d, j);
      }
      n := CopiedSoFar(old(cell), cell, to, c, i, ot, from, d, j, of);
      ChainDone(old(cell), from, d, j);
      W.EndPasses(b, a, W.Pos(i, ot, j, of));
      return ERR_OK, n;
    }
  }

  /** The lengths of the pbufs of a chain. */
  ghost function Lens(m: Memory, c: seq<Ptr>): seq<nat> {
    seq(|c|, i requires 0 <= i < |c| => |Data(m, c[i])|)
  }

  lemma {:induction false} LensTotal(m: Memory, c: seq<Ptr>, k: nat)
    requires k <= |c|
    ensures |Flat(m, c[..k])| == W.Total(Lens(m, c), k)
  {
    hide Flat, Data;
    if k == 0 {
      FlatNone(m, c);
    } else {
      LensTotal(m, c, k - 1);
      PieceAt(m, c, k - 1);
    }
  }

  lemma EndOfChain(m: Memory, p: Ptr, c: seq<Ptr>, i: nat)
    requires IsChain(m, p, c) && i <= |c|
    ensures First(c[i..]) == 0 <==> i == |c|
  {
    if i < |c| { NextOf(m, p, c, i); }
  }

  /** The bytes of the chain d before byte `of` of its j-th pbuf. */
  ghost function Before(m: Memory, d: seq<Ptr>, j: nat, of: nat): seq<u8>
    requires j <= |d|
  {
    Flat(m, d[..j]) + (if j < |d| && of <= |Data(m, d[j])| then Data(m, d[j])[..of] else [])
  }

  /** pbuf_copy between two pieces: the bytes before the two positions are copied. */
  ghost predicate CopyState(m0: Memory, m: Memory, to: Ptr, c: seq<Ptr>, i: nat, ot: nat,
                            from: Ptr, d: seq<Ptr>, j: nat, of: nat) {
    && OnePacket(m0, from, d) && i <= |c| && j <= |d|
    && |Flat(m, c[..i])| + ot == |Before(m0, d, j, of)|
    && (if i < |c| then ot <= |Data(m, c[i])| else ot == 0)
    && (if j < |d| then of <= |Data(m0, d[j])| else of == 0)
    && Written(m0, m, to, c, 0, Before(m0, d, j, of))
  }

  /** The source chain shares no pbuf with the target, so writing leaves it alone. */
  lemma SourceKept(m0: Memory, m: Memory, from: Ptr, c: seq<Ptr>, d: seq<Ptr>)
    requires SameShape(m0, m, c) && OnePacket(m0, from, d) && forall q :: q in d ==> q !in c
    ensures OnePacket(m, from, d) && Flat(m, d) == Flat(m0, d) && forall q :: q in d ==> Data(m, q) == Data(m0, q)
  {
    ChainInMemory(m0, from, d);
    PacketKept(m0, m, from, d);
    FlatSame(m0, m, d);
  }

  lemma ShapeLengths(m0: Memory, m: Memory, c: seq<Ptr>)
    requires SameShape(m0, m, c)
    ensures forall q :: q in c ==> |Data(m0, q)| == |Data(m, q)|
  {
  }

  lemma CopyPiece(m0: Memory, m: Memory, to: Ptr, c: seq<Ptr>, i: nat, ot: nat,
                  from: Ptr, d: seq<Ptr>, j: nat, of: nat, len: nat, piece: seq<u8>)
    requires CopyState(m0, m, to, c, i, ot, from, d, j, of) && i < |c| && j < |d| && c[i] in m
    requires ot + len <= |Data(m, c[i])| && of + len <= |Data(m0, d[j])|
    requires piece == Data(m, c[i])[..ot] + Data(m0, d[j])[of..of + len] + Data(m, c[i])[ot + len..]
    ensures CopyState(m0, m[c[i] := m[c[i]].(data := piece)], to, c, i, ot + len, from, d, j, of + len)
  {
    hide Flat, IsChain, Overwritten;
    var r := m[c[i] := m[c[i]].(data := piece)];
    var now := Data(m0, d[j])[of..of + len];
    SpliceIsOverwritten(Data(m, c[i]), ot, now);
    HeadWritten(m, to, c, i, ot, now, piece);
    FlatPrefixKept(m, r, to, c, i);
    WrittenMore(m0, m, r, to, c, 0, Before(m0, d, j, of), now);
    BeforeMore(m0, d, j, of, len);
  }

  lemma FlatPrefixKept(m: Memory, r: Memory, p: Ptr, c: seq<Ptr>, i: nat)
    requires IsChain(m, p, c) && i < |c| && c[i] in m && m.Keys == r.Keys
    requires forall q :: q in m && q != c[i] ==> r[q] == m[q]
    ensures Flat(r, c[..i]) == Flat(m, c[..i])
  {
    ChainSplit(m, p, c, i);
    assert c[i] in c[i..];
    FlatSame(m, r, c[..i]);
  }

  lemma BeforeMore(m: Memory, d: seq<Ptr>, j: nat, of: nat, len: nat)
    requires j < |d| && of + len <= |Data(m, d[j])|
    ensures Before(m, d, j, of + len) == Before(m, d, j, of) + Data(m, d[j])[of..of + len]
  {
    var x := Data(m, d[j]);
    assert x[..of + len] == x[..of] + x[of..of + len];
  }

  lemma BeforeNext(m: Memory, d: seq<Ptr>, j: nat)
    requires j < |d|
    ensures Before(m, d, j, |Data(m, d[j])|) == Before(m, d, j + 1, 0)
  {
    assert d[..j + 1] == d[..j] + [d[j]];
    FlatSnoc(m, d[..j], d[j]);
  }

  lemma SpliceIsOverwritten(s: seq<u8>, at: nat, data: seq<u8>)
    requires at + |data| <= |s|
    ensures Overwritten(s, s[..at] + data + s[at + |data|..], at, data)
  {
  }

  lemma CopyNextSource(m0: Memory, m: Memory, to: Ptr, c: seq<Ptr>, i: nat, ot: nat,
                       from: Ptr, d: seq<Ptr>, j: nat, of: nat)
    requires CopyState(m0, m, to, c, i, ot, from, d, j, of) && j < |d| && of == |Data(m0, d[j])|
    ensures CopyState(m0, m, to, c, i, ot, from, d, j + 1, 0)
  {
    BeforeNext(m0, d, j);
  }

  lemma CopyNextTarget(m0: Memory, m: Memory, to: Ptr, c: seq<Ptr>, i: nat, ot: nat,
                       from: Ptr, d: seq<Ptr>, j: nat, of: nat)
    requires CopyState(m0, m, to, c, i, ot, from, d, j, of) && i < |c| && ot == |Data(m, c[i])|
    ensures CopyState(m0, m, to, c, i + 1, 0, from, d, j, of)
  {
    PieceAt(m, c, i);
  }

  /** In a round of pbuf_copy both pbufs are there, and the positions inside them. */
  lemma CopyBounds(m0: Memory, m: Memory, to: Ptr, c: seq<Ptr>, i: nat, ot: nat,
                   from: Ptr, d: seq<Ptr>, j: nat, of: nat)
    requires CopyState(m0, m, to, c, i, ot, from, d, j, of) && forall q :: q in d ==> q !in c
    requires i < |c| && j < |d|
    ensures c[i] in m && ot <= |m[c[i]].data| && d[j] in m && d[j] in m0 && m[d[j]].data == m0[d[j]].data
    ensures of <= |m[d[j]].data|
  {
    hide Flat, IsChain, Overwritten;
    SourceKept(m0, m, from, c, d);
    NextOf(m, to, c, i);
    NextOf(m, from, d, j);
    NextOf(m0, from, d, j);
    assert d[j] in d;
  }

  lemma CopyStarts(m: Memory, to: Ptr, c: seq<Ptr>, from: Ptr, d: seq<Ptr>)
    requires OnePacket(m, to, c) && OnePacket(m, from, d) && |c| > 0 && |d| > 0
    ensures c[0..] == c && d[0..] == d && CopyState(m, m, to, c, 0, 0, from, d, 0, 0)
    ensures W.Total(Lens(m, c), |c|) == |Flat(m, c)| && W.Total(Lens(m, d), |d|) == |Flat(m, d)|
  {
    LensTotal(m, c, |c|);
    LensTotal(m, d, |d|);
    assert c[..|c|] == c && d[..|d|] == d;
    assert c[..0] == [] && d[..0] == [];
    assert Before(m, d, 0, 0) == [];
  }

  /** How much was written: all of the source when either chain has come to its end. */
  lemma CopiedSoFar(m0: Memory, m: Memory, to: Ptr, c: seq<Ptr>, i: nat, ot: nat,
                    from: Ptr, d: seq<Ptr>, j: nat, of: nat) returns (n: nat)
    requires CopyState(m0, m, to, c, i, ot, from, d, j, of) && |Flat(m0, d)| <= |Flat(m0, c)|
    ensures n <= |Flat(m0, d)| && Written(m0, m, to, c, 0, Flat(m0, d)[..n])
    ensures First(d[j..]) == 0 || First(c[i..]) == 0 ==> n == |Flat(m0, d)|
  {
    hide Flat, Written;
    n := |Before(m0, d, j, of)|;
    FlatCut(m0, d, j);
    if j < |d| {
      PieceAt(m0, d, j);
      assert Before(m0, d, j, of) == Flat(m0, d)[..n];
    } else {
      assert d[..j] == d;
      assert Before(m0, d, j, of) == Flat(m0, d)[..n];
    }
    if First(d[j..]) == 0 { ChainDone(m0, from, d, j); }
    if First(c[i..]) == 0 { TargetFull(m0, m, to, c, i, ot, from, d, j, of); }
  }

  lemma TargetFull(m0: Memory, m: Memory, to: Ptr, c: seq<Ptr>, i: nat, ot: nat,
                   from: Ptr, d: seq<Ptr>, j: nat, of: nat)
    requires CopyState(m0, m, to, c, i, ot, from, d, j, of) && First(c[i..]) == 0
    ensures |Before(m0, d, j, of)| == |Flat(m0, c)|
  {
    hide Flat;
    ChainDone(m, to, c, i);
    ShapeLengths(m0, m, c);
    FlatSameLength(m0, m, c);
  }

  lemma QueueCheck(m0: Memory, m: Memory, p: Ptr, c: seq<Ptr>, i: nat)
    requires OnePacket(m, p, c) && i < |c| && c[i] in m
    requires forall q :: q in c ==> |Data(m0, q)| == |Data(m, q)|
    ensures |Data(m, c[i])| == m[c[i]].totLen && m[c[i]].next != 0 <==> W.Queued(Lens(m0, c), i)
  {
    hide Flat, W.Total;
    NextOf(m, p, c, i);
    assert TotOk(m, c, i);
    PieceAt(m, c, i);
    FlatCut(m, c, i);
    FlatSameLength(m0, m, c);
    FlatSameLength(m0, m, c[..i + 1]);
    LensTotal(m0, c, i + 1);
    LensTotal(m0, c, |c|);
    assert c[..|c|] == c;
  }

  /** In a round of pbuf_copy the positions lie inside the lengths. */
  lemma RoundLens(m0: Memory, m: Memory, to: Ptr, c: seq<Ptr>, i: nat, ot: nat,
                  from: Ptr, d: seq<Ptr>, j: nat, of: nat)
    requires CopyState(m0, m, to, c, i, ot, from, d, j, of) && i < |c| && j < |d|
    ensures W.Inside(Lens(m0, c), Lens(m0, d), W.Pos(i, ot, j, of))
    ensures |Data(m0, c[i])| == |Data(m, c[i])|
  {
    hide Flat, IsChain, Overwritten, Before;
    ShapeLengths(m0, m, c);
    assert c[i] in c;
  }

  /** n is m with data written over the bytes of the chain from offset on; nothing else,
      no link, length or count differs. */
  ghost predicate Written(m: Memory, n: Memory, p: Ptr, c: seq<Ptr>, offset: nat, data: seq<u8>) {
    && OnePacket(n, p, c) && SameShape(m, n, c)
    && Overwritten(Flat(m, c), Flat(n, c), offset, data)
  }

  lemma NothingWritten(m: Memory, p: Ptr, c: seq<Ptr>)
    requires OnePacket(m, p, c)
    ensures Written(m, m, p, c, 0, []) && Flat(m, c[..0]) == []
  {
  }

  /** The first bytes written into the i-th pbuf from its byte x on. */
  lemma HeadWritten(m: Memory, p: Ptr, c: seq<Ptr>, i: nat, x: nat, data: seq<u8>, piece: seq<u8>)
    requires OnePacket(m, p, c) && i < |c| && x + |data| <= |Data(m, c[i])|
    requires Overwritten(Data(m, c[i]), piece, x, data)
    ensures c[i] in m
    ensures var r := m[c[i] := m[c[i]].(data := piece)];
      Written(m, r, p, c, |Flat(m, c[..i])| + x, data) && |Flat(r, c[..i + 1])| == |Flat(m, c[..i + 1])|
  {
    OverwriteOne(m, p, c, i, piece);
    var r := m[c[i] := m[c[i]].(data := piece)];
    FlatSameLength(m, r, c[..i + 1]);
    FlatAt(m, c, i);
    PartOverwritten(Flat(m, c), Flat(r, c), Flat(m, c[..i]), Data(m, c[i]), piece, Flat(m, c[i + 1..]), x, data);
  }

  /** The bytes that did not fit written from the next pbuf on. */
  lemma TailWritten(m: Memory, n: Memory, r: Memory, p: Ptr, c: seq<Ptr>, i: nat, offset: nat, data: seq<u8>,
      more: seq<u8>)
    requires i < |c| && Written(m, n, p, c, offset, data)
    requires offset + |data| == |Flat(n, c[..i + 1])|
    requires Written(n, r, First(c[i + 1..]), c[i + 1..], 0, more)
    ensures Written(m, r, p, c, offset, data + more)
  {
    hide Flat, IsChain;
    var d := c[i + 1..];
    ChainSplit(n, p, c, i + 1);
    assert forall q :: q in d ==> q in c;
    assert SameShape(n, r, c);
    ShapeTrans(m, n, r, c);
    PacketKept(n, r, p, c);
    FlatSame(n, r, c[..i + 1]);
    FlatCut(n, c, i + 1);
    FlatCut(r, c, i + 1);
    assert Flat(n, d) == Flat(n, d) + [] && Flat(r, d) == Flat(r, d) + [];
    PartOverwritten(Flat(n, c), Flat(r, c), Flat(n, c[..i + 1]), Flat(n, d), Flat(r, d), [], 0, more);
    OverwriteMore(Flat(m, c), Flat(n, c), Flat(r, c), offset, data, more);
  }

  /** r is s with data written over it from position at on. */
  ghost predicate Overwritten(s: seq<u8>, r: seq<u8>, at: nat, data: seq<u8>) {
    && |r| == |s| && at + |data| <= |s|
    && forall k {:trigger r[k]} :: 0 <= k < |s| ==> r[k] == if at <= k < at + |data| then data[k - at] else s[k]
  }

  lemma SameLength(s: seq<u8>, r: seq<u8>, at: nat, data: seq<u8>)
    requires Overwritten(s, r, at, data)
    ensures |s| == |r|
  {
  }

  lemma OverwrittenIsSplice(s: seq<u8>, r: seq<u8>, at: nat, data: seq<u8>)
    requires Overwritten(s, r, at, data)
    ensures r == s[..at] + data + s[at + |data|..]
  {
  }

  /** Writing more bytes right behind those already written. */
  lemma OverwriteMore(s: seq<u8>, r: seq<u8>, t: seq<u8>, at: nat, data: seq<u8>, more: seq<u8>)
    requires Overwritten(s, r, at, data) && Overwritten(r, t, at + |data|, more)
    ensures Overwritten(s, t, at, data + more)
  {
  }

  /** What was written so far, and the piece `now` written at the start of the i-th pbuf. */
  lemma TakeStep(m0: Memory, m: Memory, p: Ptr, c: seq<Ptr>, i: nat, done: seq<u8>, now: seq<u8>, piece: seq<u8>)
    requires i < |c| && |done| == |Flat(m, c[..i])|
    requires Written(m0, m, p, c, 0, done) && Overwritten(Data(m, c[i]), piece, 0, now)
    ensures c[i] in m
    ensures var r := m[c[i] := m[c[i]].(data := piece)];
      Written(m0, r, p, c, 0, done + now) && |Flat(r, c[..i + 1])| == |Flat(m, c[..i + 1])|
  {
    HeadWritten(m, p, c, i, 0, now, piece);
    WrittenMore(m0, m, m[c[i] := m[c[i]].(data := piece)], p, c, 0, done, now);
  }

  lemma TakeSlices(data: seq<u8>, k: nat, n: nat, d: seq<u8>)
    requires k + n <= |data| && n <= |d|
    ensures data[..k] + data[k..k + n] == data[..k + n]
    ensures Overwritten(d, [] + data[k..k + n] + d[n..], 0, data[k..k + n])
  {
  }

  lemma FirstSlices(data: seq<u8>, first: nat, d: seq<u8>, x: nat)
    requires first <= |data| && x + first <= |d|
    ensures Overwritten(d, d[..x] + data[..first] + d[x + first..], x, data[..first])
    ensures data[..first] + data[first..] == data
    ensures first == |data| ==> data[..first] == data
  {
  }

  lemma WrittenMore(m: Memory, n: Memory, r: Memory, p: Ptr, c: seq<Ptr>, at: nat, data: seq<u8>, more: seq<u8>)
    requires Written(m, n, p, c, at, data) && Written(n, r, p, c, at + |data|, more)
    ensures Written(m, r, p, c, at, data + more)
  {
    ShapeTrans(m, n, r, c);
    OverwriteMore(Flat(m, c), Flat(n, c), Flat(r, c), at, data, more);
  }

  /** Overwriting inside one part of a sequence. */
  lemma PartOverwritten(s: seq<u8>, r: seq<u8>, before: seq<u8>, here: seq<u8>, now: seq<u8>, after: seq<u8>,
      x: nat, more: seq<u8>)
    requires s == before + (here + after) && r == before + (now + after)
    requires Overwritten(here, now, x, more)
    ensures Overwritten(s, r, |before| + x, more)
  {
  }

  /** What pbuf_take_at wrote is what pbuf_copy_partial then reads. */
  lemma TakeAtThenCopy(m: Memory, n: Memory, p: Ptr, c: seq<Ptr>, offset: nat, data: seq<u8>)
    requires Written(m, n, p, c, offset, data)
    ensures Flat(n, c)[offset..offset + |data|] == data
    ensures Flat(n, c)[..offset] == Flat(m, c)[..offset]
    ensures Flat(n, c)[offset + |data|..] == Flat(m, c)[offset + |data|..]
  {
    OverwrittenIsSplice(Flat(m, c), Flat(n, c), offset, data);
  }
}
