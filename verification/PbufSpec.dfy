/** Packet buffers (core/pbuf.c): memory as a map from addresses to pbuf structures, what a
    chain is, what bytes it holds, and what its reference counts must be. */
module PbufSpec {
  import opened Words

  /** 0 is NULL. */
  type Ptr = nat

  /** `len` is |data|: the bytes `payload` points to. */
  datatype Cell = Cell(next: Ptr, data: seq<u8>, totLen: u16, ref: u16)

  type Memory = map<Ptr, Cell>

  // ---------------------------------------------------------------- chains and their bytes

  /** The i-th pbuf of c is allocated and links to the next one of c, the last to NULL. */
  ghost predicate Link(m: Memory, c: seq<Ptr>, i: nat)
    requires i < |c|
  {
    c[i] != 0 && c[i] in m && m[c[i]].next == First(c[i + 1..])
  }

  function First(c: seq<Ptr>): Ptr { if |c| == 0 then 0 else c[0] }

  /** c lists the pbufs reached from p through `next`, up to NULL. */
  ghost predicate IsChain(m: Memory, p: Ptr, c: seq<Ptr>) {
    p == First(c) && forall i {:trigger Link(m, c, i)} :: 0 <= i < |c| ==> Link(m, c, i)
  }

  lemma ChainSuffix(m: Memory, p: Ptr, c: seq<Ptr>, i: nat)
    requires IsChain(m, p, c) && i <= |c|
    ensures IsChain(m, First(c[i..]), c[i..])
  {
    forall j {:trigger Link(m, c[i..], j)} | 0 <= j < |c[i..]| ensures Link(m, c[i..], j) {
      assert Link(m, c, i + j);
      assert c[i..][j + 1..] == c[i + j + 1..];
    }
  }

  lemma ChainTail(m: Memory, p: Ptr, c: seq<Ptr>)
    requires IsChain(m, p, c) && |c| > 0
    ensures p != 0 && p in m && IsChain(m, m[p].next, c[1..])
  {
    assert Link(m, c, 0);
    ChainSuffix(m, p, c, 1);
  }

  lemma ChainInMemory(m: Memory, p: Ptr, c: seq<Ptr>)
    requires IsChain(m, p, c)
    ensures forall q :: q in c ==> q in m && q != 0
  {
    forall q | q in c ensures q in m && q != 0 {
      var i :| 0 <= i < |c| && c[i] == q;
      assert Link(m, c, i);
    }
  }

  lemma {:induction false} ChainUnique(m: Memory, p: Ptr, c: seq<Ptr>, d: seq<Ptr>)
    requires IsChain(m, p, c) && IsChain(m, p, d)
    ensures |c| == |d|
    decreases |c|
  {
    if |c| > 0 && |d| > 0 {
      ChainTail(m, p, c);
      ChainTail(m, p, d);
      ChainUnique(m, m[p].next, c[1..], d[1..]);
    } else if |c| > 0 {
      ChainTail(m, p, c);
    } else if |d| > 0 {
      ChainTail(m, p, d);
    }
  }

  /** A chain ends, so it passes no pbuf twice. */
  lemma ChainDistinct(m: Memory, p: Ptr, c: seq<Ptr>, i: nat, j: nat)
    requires IsChain(m, p, c) && i < j < |c|
    ensures c[i] != c[j]
  {
    if c[i] == c[j] {
      ChainSuffix(m, p, c, i);
      ChainSuffix(m, p, c, j);
      ChainUnique(m, c[i], c[i..], c[j..]);
    }
  }

  lemma ChainSplit(m: Memory, p: Ptr, c: seq<Ptr>, k: nat)
    requires IsChain(m, p, c) && k <= |c|
    ensures forall q :: q in c[k..] ==> q !in c[..k]
  {
    forall q | q in c[k..] ensures q !in c[..k] {
      var j :| 0 <= j < |c[k..]| && c[k..][j] == q;
      forall i | 0 <= i < k ensures c[i] != q { ChainDistinct(m, p, c, i, k + j); }
    }
  }

  function Data(m: Memory, p: Ptr): seq<u8> { if p in m then m[p].data else [] }

  /** The bytes of the pbufs in c, in order. */
  function Flat(m: Memory, c: seq<Ptr>): seq<u8> {
    if |c| == 0 then [] else Data(m, c[0]) + Flat(m, c[1..])
  }

  lemma {:induction false} FlatConcat(m: Memory, c: seq<Ptr>, d: seq<Ptr>)
    ensures Flat(m, c + d) == Flat(m, c) + Flat(m, d)
    decreases |c|
  {
    if |c| == 0 {
      assert c + d == d;
    } else {
      FlatConcat(m, c[1..], d);
      assert (c + d)[1..] == c[1..] + d;
    }
  }

  lemma FlatCut(m: Memory, c: seq<Ptr>, i: nat)
    requires i <= |c|
    ensures Flat(m, c) == Flat(m, c[..i]) + Flat(m, c[i..])
  {
    FlatConcat(m, c[..i], c[i..]);
    assert c[..i] + c[i..] == c;
  }

  lemma FlatOne(m: Memory, p: Ptr)
    ensures Flat(m, [p]) == Data(m, p)
  {
    assert Flat(m, [p]) == Data(m, p) + Flat(m, []);
  }

  lemma FlatSnoc(m: Memory, c: seq<Ptr>, p: Ptr)
    ensures Flat(m, c + [p]) == Flat(m, c) + Data(m, p)
  {
    FlatConcat(m, c, [p]);
    FlatOne(m, p);
  }

  /** The bytes of the chain around its i-th pbuf. */
  lemma FlatAt(m: Memory, c: seq<Ptr>, i: nat)
    requires i < |c|
    ensures Flat(m, c) == Flat(m, c[..i]) + (Data(m, c[i]) + Flat(m, c[i + 1..]))
  {
    FlatCut(m, c, i);
    assert c[i..][1..] == c[i + 1..];
  }

  lemma {:induction false} FlatSame(m: Memory, n: Memory, c: seq<Ptr>)
    requires forall q :: q in c ==> Data(m, q) == Data(n, q)
    ensures Flat(m, c) == Flat(n, c)
  {
    if |c| > 0 {
      FlatSame(m, n, c[1..]);
    }
  }

  lemma {:induction false} FlatSameLength(m: Memory, n: Memory, c: seq<Ptr>)
    requires forall q :: q in c ==> |Data(m, q)| == |Data(n, q)|
    ensures |Flat(m, c)| == |Flat(n, c)|
  {
    if |c| > 0 {
      FlatSameLength(m, n, c[1..]);
    }
  }

  /** `tot_len` of the i-th pbuf is the number of bytes from it to the end of the chain. */
  ghost predicate TotOk(m: Memory, c: seq<Ptr>, i: nat)
    requires i < |c|
  {
    c[i] in m && m[c[i]].totLen == |Flat(m, c[i..])|
  }

  /** The chain c from p is one packet with right length fields.  (So `tot_len` is `len` plus
      the `tot_len` of the next pbuf.) */
  ghost predicate OnePacket(m: Memory, p: Ptr, c: seq<Ptr>) {
    IsChain(m, p, c) && forall i {:trigger TotOk(m, c, i)} :: 0 <= i < |c| ==> TotOk(m, c, i)
  }

  lemma OnePacketSuffix(m: Memory, p: Ptr, c: seq<Ptr>, i: nat)
    requires OnePacket(m, p, c) && i <= |c|
    ensures OnePacket(m, First(c[i..]), c[i..])
  {
    ChainSuffix(m, p, c, i);
    forall j {:trigger TotOk(m, c[i..], j)} | 0 <= j < |c[i..]| ensures TotOk(m, c[i..], j) {
      assert TotOk(m, c, i + j);
      assert c[i..][j..] == c[i + j..];
    }
  }

  lemma TotLenSums(m: Memory, p: Ptr, c: seq<Ptr>)
    requires OnePacket(m, p, c) && |c| > 0
    ensures p in m && m[p].totLen == |Flat(m, c)|
    ensures m[p].totLen == |m[p].data| + (if m[p].next != 0 && m[p].next in m then m[m[p].next].totLen else 0)
  {
    assert TotOk(m, c, 0) && Link(m, c, 0);
    assert c[0..] == c;
    if |c| > 1 {
      assert TotOk(m, c, 1) && Link(m, c, 1);
    }
  }

  /** Only pbufs of c changed, and of those only payload bytes. */
  ghost predicate SameShape(m: Memory, n: Memory, c: seq<Ptr>) {
    && m.Keys == n.Keys
    && forall q {:trigger n[q]} {:trigger m[q]} :: q in m ==>
         if q in c then
           n[q].next == m[q].next && n[q].totLen == m[q].totLen && n[q].ref == m[q].ref && |n[q].data| == |m[q].data|
         else n[q] == m[q]
  }

  /** A chain whose pbufs kept their links (and lengths) is the same chain (and packet). */
  lemma ChainKept(m: Memory, n: Memory, p: Ptr, c: seq<Ptr>)
    requires IsChain(m, p, c)
    requires forall q :: q in c && q in m ==> q in n && n[q].next == m[q].next
    ensures IsChain(n, p, c)
  {
    ChainInMemory(m, p, c);
    forall i {:trigger Link(n, c, i)} | 0 <= i < |c| ensures Link(n, c, i) {
      assert Link(m, c, i);
    }
  }

  lemma PacketKept(m: Memory, n: Memory, p: Ptr, c: seq<Ptr>)
    requires OnePacket(m, p, c)
    requires forall q :: q in c && q in m ==>
      q in n && n[q].next == m[q].next && n[q].totLen == m[q].totLen && |n[q].data| == |m[q].data|
    ensures OnePacket(n, p, c)
  {
    ChainInMemory(m, p, c);
    ChainKept(m, n, p, c);
    forall i {:trigger TotOk(n, c, i)} | 0 <= i < |c| ensures TotOk(n, c, i) {
      assert TotOk(m, c, i);
      FlatSameLength(m, n, c[i..]);
    }
  }

  // ---------------------------------------------------------------- reference counts

  ghost function Preds(m: Memory, p: Ptr): set<Ptr> {
    set q | q in m && m[q].next == p
  }

  /** How many references outside pbuf memory there are to p. */
  function Count(holders: map<Ptr, nat>, p: Ptr): nat {
    if p in holders then holders[p] else 0
  }

  /** `ref` counts holders and predecessors, plus one for the pbuf `extra` (0 for none):
      the reference a free in progress is about to give up. */
  ghost predicate Counted(m: Memory, holders: map<Ptr, nat>, extra: Ptr := 0) {
    && 0 !in m
    && (forall p {:trigger RefOk(m, holders, extra, p)} :: p in m ==> RefOk(m, holders, extra, p))
    && (forall p :: p in holders && holders[p] > 0 ==> p in m)
  }

  ghost predicate RefOk(m: Memory, holders: map<Ptr, nat>, extra: Ptr, p: Ptr)
    requires p in m
  {
    && m[p].ref == Count(holders, p) + |Preds(m, p)| + (if p == extra then 1 else 0)
    && m[p].ref > 0
    && (m[p].next == 0 || m[p].next in m)
  }

  /** pbuf_free: give up one reference to p; a pbuf nobody refers to is deallocated and gives
      up its reference to the next. */
  function Free(m: Memory, p: Ptr): Memory
    decreases |m|
  {
    if p !in m then m
    else if m[p].ref == 1 then Free(m - {p}, m[p].next)
    else m[p := m[p].(ref := Wrap16(m[p].ref - 1))]
  }

  /** How many pbufs pbuf_free deallocates; the C function returns this in a u8. */
  function Freed(m: Memory, p: Ptr): nat
    decreases |m|
  {
    if p !in m then 0
    else if m[p].ref == 1 then 1 + Freed(m - {p}, m[p].next)
    else 0
  }

  lemma PredsWithout(m: Memory, p: Ptr, q: Ptr)
    requires p in m
    ensures Preds(m - {p}, q) == Preds(m, q) - {p}
    ensures |Preds(m - {p}, q)| == |Preds(m, q)| - (if m[p].next == q then 1 else 0)
  {
  }

  /** Changing one link changes two in-degrees. */
  lemma PredsRelinked(m: Memory, n: Memory, x: Ptr, q: Ptr)
    requires m.Keys == n.Keys && x in m && forall y :: y in m && y != x ==> n[y].next == m[y].next
    ensures |Preds(n, q)| == |Preds(m, q)| - (if m[x].next == q then 1 else 0) + (if n[x].next == q then 1 else 0)
  {
    assert Preds(n, q) - {x} == Preds(m, q) - {x};
    assert m[x].next == q <==> x in Preds(m, q);
    assert n[x].next == q <==> x in Preds(n, q);
    hide Preds;
    Without(Preds(m, q), x);
    Without(Preds(n, q), x);
  }

  lemma Without(s: set<Ptr>, x: Ptr)
    ensures |s - {x}| == |s| - (if x in s then 1 else 0)
  {
    if x !in s { assert s - {x} == s; }
  }

  lemma NoPreds(m: Memory, p: Ptr, q: Ptr)
    requires |Preds(m, p)| == 0 && q in m
    ensures m[q].next != p
  {
    assert q !in Preds(m, p);
  }

  /** Freeing gives up exactly the one surplus reference: afterwards every count is right and
      every `next` leads to allocated memory. */
  lemma {:induction false} FreeKeepsCounts(m: Memory, holders: map<Ptr, nat>, p: Ptr)
    requires Counted(m, holders, p) && (p == 0 || p in m)
    ensures Counted(Free(m, p), holders)
    decreases |m|
  {
    if p == 0 {
      assert Free(m, p) == m;
      forall q | q in m ensures RefOk(m, holders, 0, q) {
        assert RefOk(m, holders, p, q);
      }
    } else {
      assert RefOk(m, holders, p, p);
      if m[p].ref == 1 {
        DeallocateStep(m, holders, p);
        FreeKeepsCounts(m - {p}, holders, m[p].next);
      } else {
        DecrementStep(m, holders, p);
      }
    }
  }

  lemma DecrementStep(m: Memory, holders: map<Ptr, nat>, p: Ptr)
    requires Counted(m, holders, p) && p in m && m[p].ref > 1
    ensures Counted(m[p := m[p].(ref := m[p].ref - 1)], holders)
  {
    var n := m[p := m[p].(ref := m[p].ref - 1)];
    forall q | q in n ensures RefOk(n, holders, 0, q) {
      assert RefOk(m, holders, p, q);
      PredsRelinked(m, n, p, q);
    }
  }

  /** Deallocating a pbuf without other references moves the surplus to the next one. */
  lemma DeallocateStep(m: Memory, holders: map<Ptr, nat>, p: Ptr)
    requires Counted(m, holders, p) && p in m && m[p].ref == 1
    ensures Counted(m - {p}, holders, m[p].next)
    ensures m[p].next == 0 || m[p].next in m - {p}
  {
    assert RefOk(m, holders, p, p);
    NoPreds(m, p, p);
    var n := m - {p};
    forall q | q in n ensures RefOk(n, holders, m[p].next, q) {
      assert RefOk(m, holders, p, q);
      PredsWithout(m, p, q);
      NoPreds(m, p, q);
    }
  }

  function AsSet(c: seq<Ptr>): set<Ptr> { set q | q in c }

  /** The length of the longest prefix of c whose pbufs have count 1. */
  function SoleOwned(m: Memory, c: seq<Ptr>): (k: nat)
    ensures k <= |c|
    ensures forall i :: 0 <= i < k ==> c[i] in m && m[c[i]].ref == 1
    ensures k < |c| && c[k] in m ==> m[c[k]].ref != 1
  {
    if |c| == 0 || c[0] !in m || m[c[0]].ref != 1 then 0 else 1 + SoleOwned(m, c[1..])
  }

  lemma {:induction false} SoleOwnedSame(m: Memory, n: Memory, c: seq<Ptr>)
    requires forall q :: q in c ==> q in m && q in n && m[q].ref == n[q].ref
    ensures SoleOwned(m, c) == SoleOwned(n, c)
  {
    if |c| > 0 {
      SoleOwnedSame(m, n, c[1..]);
    }
  }

  /** pbuf_free deallocates exactly the longest prefix of count-1 pbufs, takes one off the
      count of the pbuf after it, and touches nothing else. */
  lemma {:induction false} FreeIsPrefix(m: Memory, p: Ptr, c: seq<Ptr>)
    requires IsChain(m, p, c) && 0 !in m
    requires forall q :: q in c ==> q in m && m[q].ref > 0
    ensures var k := SoleOwned(m, c);
      && Freed(m, p) == k
      && Free(m, p) ==
         (var n := m - AsSet(c[..k]);
          if k < |c| then n[c[k] := m[c[k]].(ref := m[c[k]].ref - 1)] else n)
    decreases |c|
  {
    hide Flat, Link;
    if |c| == 0 || m[c[0]].ref != 1 {
      assert AsSet(c[..0]) == {};
    } else {
      SoleHead(m, p, c);
      var n, d := m - {p}, c[1..];
      FreeIsPrefix(n, m[p].next, d);
      var k := SoleOwned(n, d);
      assert AsSet(c[..k + 1]) == {p} + AsSet(d[..k]);
      assert m - AsSet(c[..k + 1]) == n - AsSet(d[..k]);
    }
  }

  /** Deallocating the head leaves the rest of the chain, with the same counts. */
  lemma SoleHead(m: Memory, p: Ptr, c: seq<Ptr>)
    requires IsChain(m, p, c) && |c| > 0 && p in m && m[p].ref == 1
    ensures c[0] == p && p !in c[1..] && IsChain(m - {p}, m[p].next, c[1..])
    ensures SoleOwned(m, c) == 1 + SoleOwned(m - {p}, c[1..])
  {
    ChainTail(m, p, c);
    ChainSplit(m, p, c, 1);
    assert c[..1] == [p];
    ChainInMemory(m, p, c);
    ChainKept(m, m - {p}, m[p].next, c[1..]);
    SoleOwnedSame(m, m - {p}, c[1..]);
  }

  // ---------------------------------------------------------------- the other operations

  function Ref(m: Memory, p: Ptr): Memory
    requires p in m
  {
    m[p := m[p].(ref := Wrap16(m[p].ref + 1))]
  }

  /** pbuf_cat on the chain c: every `tot_len` of it grows, its last pbuf links to t. */
  function Cat(m: Memory, c: seq<Ptr>, t: Ptr): Memory
    requires |c| > 0 && t in m
  {
    map q | q in m ::
      if q in c then
        m[q].(totLen := Wrap16(m[q].totLen + m[t].totLen), next := if q == c[|c| - 1] then t else m[q].next)
      else m[q]
  }

  /** pbuf_cat joins two packets into one that holds the bytes of both, as long as the sum of
      their lengths fits `tot_len`. */
  lemma CatIsConcat(m: Memory, p: Ptr, c: seq<Ptr>, t: Ptr, d: seq<Ptr>)
    requires OnePacket(m, p, c) && OnePacket(m, t, d) && |c| > 0 && |d| > 0 && t in m
    requires (forall q :: q in d ==> q !in c) && |Flat(m, c)| + |Flat(m, d)| <= 0xffff
    ensures OnePacket(Cat(m, c, t), p, c + d)
    ensures Flat(Cat(m, c, t), c + d) == Flat(m, c) + Flat(m, d)
  {
    hide Flat;
    var r := Cat(m, c, t);
    TotLenSums(m, t, d);
    FlatSame(m, r, c);
    FlatSame(m, r, d);
    FlatConcat(r, c, d);
    forall i {:trigger Link(r, c + d, i)} {:trigger TotOk(r, c + d, i)} | 0 <= i < |c + d|
      ensures Link(r, c + d, i) && TotOk(r, c + d, i)
    {
      CatAt(m, p, c, t, d, i);
    }
  }

  lemma CatAt(m: Memory, p: Ptr, c: seq<Ptr>, t: Ptr, d: seq<Ptr>, i: nat)
    requires OnePacket(m, p, c) && OnePacket(m, t, d) && |c| > 0 && |d| > 0 && t in m
    requires (forall q :: q in d ==> q !in c) && |Flat(m, c)| + |Flat(m, d)| <= 0xffff && i < |c| + |d|
    ensures Link(Cat(m, c, t), c + d, i) && TotOk(Cat(m, c, t), c + d, i)
  {
    if i < |c| {
      CatAtHead(m, p, c, t, d, i);
    } else {
      CatAtTail(m, c, t, d, i - |c|);
    }
  }

  lemma CatAtHead(m: Memory, p: Ptr, c: seq<Ptr>, t: Ptr, d: seq<Ptr>, i: nat)
    requires OnePacket(m, p, c) && OnePacket(m, t, d) && |d| > 0 && t in m
    requires (forall q :: q in d ==> q !in c) && |Flat(m, c)| + |Flat(m, d)| <= 0xffff && i < |c|
    ensures Link(Cat(m, c, t), c + d, i) && TotOk(Cat(m, c, t), c + d, i)
  {
    hide Flat, OnePacket, Cat;
    CatLink(m, p, c, t, d, i);
    CatTotal(m, p, c, t, d, i);
  }

  lemma Suffixes(c: seq<Ptr>, d: seq<Ptr>, i: nat)
    requires i < |c|
    ensures (c + d)[i..] == c[i..] + d && (c + d)[i] == c[i]
    ensures First(c[i + 1..]) == if i + 1 < |c| then c[i + 1] else 0
    ensures |d| > 0 ==> First((c + d)[i + 1..]) == if i + 1 < |c| then c[i + 1] else d[0]
  {
  }

  lemma CatLink(m: Memory, p: Ptr, c: seq<Ptr>, t: Ptr, d: seq<Ptr>, i: nat)
    requires OnePacket(m, p, c) && OnePacket(m, t, d) && |d| > 0 && t in m && i < |c|
    ensures Link(Cat(m, c, t), c + d, i)
  {
    hide OnePacket;
    PacketAt(m, p, c, i);
    PacketAt(m, t, d, 0);
    Suffixes(c, d, i);
    if i + 1 < |c| {
      NotLast(m, p, c, i);
    }
  }

  /** pbuf_cat moves no byte. */
  lemma CatFlat(m: Memory, c: seq<Ptr>, t: Ptr, e: seq<Ptr>)
    requires |c| > 0 && t in m
    ensures Flat(Cat(m, c, t), e) == Flat(m, e)
  {
    hide Flat;
    FlatSame(m, Cat(m, c, t), e);
  }

  lemma CatLength(m: Memory, c: seq<Ptr>, t: Ptr, d: seq<Ptr>, i: nat)
    requires i < |c| && t in m
    ensures |Flat(Cat(m, c, t), (c + d)[i..])| == |Flat(m, c[i..])| + |Flat(m, d)|
    ensures |Flat(m, c[i..])| <= |Flat(m, c)|
  {
    hide Flat, Cat;
    Suffixes(c, d, i);
    FlatCut(m, c, i);
    FlatConcat(m, c[i..], d);
    CatFlat(m, c, t, c[i..] + d);
  }

  lemma CatTotal(m: Memory, p: Ptr, c: seq<Ptr>, t: Ptr, d: seq<Ptr>, i: nat)
    requires OnePacket(m, p, c) && OnePacket(m, t, d) && |d| > 0 && t in m && i < |c|
    requires (forall q :: q in d ==> q !in c) && |Flat(m, c)| + |Flat(m, d)| <= 0xffff
    ensures TotOk(Cat(m, c, t), c + d, i)
  {
    hide Flat, OnePacket, Wrap16, Link;
    TotLenSums(m, t, d);
    PacketAt(m, p, c, i);
    PacketAt(m, t, d, 0);
    assert (c + d)[i] == c[i];
    CatLength(m, c, t, d, i);
    Fits16(m[c[i]].totLen + m[t].totLen);
  }

  lemma Fits16(x: nat)
    ensures x <= 0xffff ==> Wrap16(x) == x
  {
  }

  lemma PacketAt(m: Memory, p: Ptr, c: seq<Ptr>, i: nat)
    requires OnePacket(m, p, c) && i < |c|
    ensures Link(m, c, i) && TotOk(m, c, i) && p == c[0]
  {
  }

  lemma NotLast(m: Memory, p: Ptr, c: seq<Ptr>, i: nat)
    requires OnePacket(m, p, c) && i + 1 < |c|
    ensures c[i] != c[|c| - 1]
  {
    ChainDistinct(m, p, c, i, |c| - 1);
  }

  lemma CatAtTail(m: Memory, c: seq<Ptr>, t: Ptr, d: seq<Ptr>, j: nat)
    requires OnePacket(m, t, d) && j < |d| && |c| > 0 && t in m && forall q :: q in d ==> q !in c
    ensures Link(Cat(m, c, t), c + d, |c| + j) && TotOk(Cat(m, c, t), c + d, |c| + j)
  {
    hide Flat, OnePacket;
    PacketAt(m, t, d, j);
    assert (c + d)[|c| + j..] == d[j..] && (c + d)[|c| + j + 1..] == d[j + 1..] && d[j] in d;
    FlatSame(m, Cat(m, c, t), d[j..]);
  }

  /** pbuf_dechain before it frees the rest q. */
  function Unlink(m: Memory, p: Ptr): Memory
    requires p in m && m[p].next in m
  {
    var q := m[p].next;
    var n := m[q := m[q].(totLen := Wrap16(m[p].totLen - |m[p].data|))];
    n[p := n[p].(next := 0, totLen := Wrap16(|m[p].data|))]
  }

  function Dechain(m: Memory, p: Ptr): Memory
    requires p in m
  {
    if m[p].next in m then Free(Unlink(m, p), m[p].next) else m
  }

  lemma RefKeepsCounts(m: Memory, holders: map<Ptr, nat>, p: Ptr)
    requires Counted(m, holders) && p in m && m[p].ref < 0xffff
    ensures Counted(Ref(m, p), holders[p := Count(holders, p) + 1])
  {
    var n := Ref(m, p);
    forall q | q in n ensures RefOk(n, holders[p := Count(holders, p) + 1], 0, q) {
      assert RefOk(m, holders, 0, q);
      PredsRelinked(m, n, p, q);
    }
  }

  lemma DropKeepsCounts(m: Memory, holders: map<Ptr, nat>, p: Ptr)
    requires Counted(m, holders) && Count(holders, p) > 0
    ensures Counted(m, holders[p := Count(holders, p) - 1], p)
    ensures Counted(Free(m, p), holders[p := Count(holders, p) - 1])
  {
    forall q | q in m ensures RefOk(m, holders[p := Count(holders, p) - 1], p, q) {
      assert RefOk(m, holders, 0, q);
    }
    FreeKeepsCounts(m, holders[p := Count(holders, p) - 1], p);
  }

  lemma ChainLast(m: Memory, p: Ptr, c: seq<Ptr>)
    requires IsChain(m, p, c) && |c| > 0
    ensures c[|c| - 1] in m && m[c[|c| - 1]].next == 0
  {
    assert Link(m, c, |c| - 1);
  }

  /** pbuf_cat hands the caller's reference to t over to the link. */
  lemma CatKeepsCounts(m: Memory, holders: map<Ptr, nat>, p: Ptr, c: seq<Ptr>, t: Ptr)
    requires Counted(m, holders) && IsChain(m, p, c) && |c| > 0 && Count(holders, t) > 0 && t in m
    ensures Counted(Cat(m, c, t), holders[t := Count(holders, t) - 1])
  {
    ChainLast(m, p, c);
    var n := Cat(m, c, t);
    var z := c[|c| - 1];
    forall q | q in n ensures RefOk(n, holders[t := Count(holders, t) - 1], 0, q) {
      assert RefOk(m, holders, 0, q);
      PredsRelinked(m, n, z, q);
    }
  }

  /** pbuf_chain = pbuf_cat then pbuf_ref(t): the caller keeps its reference. */
  lemma ChainKeepsCounts(m: Memory, holders: map<Ptr, nat>, p: Ptr, c: seq<Ptr>, t: Ptr)
    requires Counted(m, holders) && IsChain(m, p, c) && |c| > 0 && Count(holders, t) > 0 && t in m
    requires m[t].ref < 0xffff
    ensures Counted(Ref(Cat(m, c, t), t), holders)
  {
    CatKeepsCounts(m, holders, p, c, t);
    RefKeepsCounts(Cat(m, c, t), holders[t := Count(holders, t) - 1], t);
    var n := Ref(Cat(m, c, t), t);
    var h := holders[t := Count(holders, t) - 1][t := Count(holders, t)];
    forall q | q in n ensures RefOk(n, holders, 0, q) {
      assert RefOk(n, h, 0, q);
    }
  }

  lemma DechainKeepsCounts(m: Memory, holders: map<Ptr, nat>, p: Ptr)
    requires Counted(m, holders) && p in m && m[p].next != p
    ensures Counted(Dechain(m, p), holders)
  {
    var q := m[p].next;
    assert RefOk(m, holders, 0, p);
    if q != 0 {
      var n := Unlink(m, p);
      forall r | r in n ensures RefOk(n, holders, q, r) {
        assert RefOk(m, holders, 0, r);
        PredsRelinked(m, n, p, r);
      }
      FreeKeepsCounts(n, holders, q);
    }
  }

  /** pbuf_dechain cuts a packet in two: its first pbuf alone, and the rest. */
  lemma UnlinkIsSplit(m: Memory, p: Ptr, c: seq<Ptr>)
    requires OnePacket(m, p, c) && |c| > 1
    ensures p in m && m[p].next == c[1] && c[1] in m && c[1] != p
    ensures var n := Unlink(m, p);
      && OnePacket(n, p, [p]) && Flat(n, [p]) == m[p].data
      && OnePacket(n, c[1], c[1..]) && Flat(m, c) == m[p].data + Flat(n, c[1..])
  {
    hide Flat;
    PacketAt(m, p, c, 0);
    PacketAt(m, p, c, 1);
    ChainSplit(m, p, c, 1);
    TotLenSums(m, p, c);
    OnePacketSuffix(m, p, c, 1);
    TotLenSums(m, c[1], c[1..]);
    var n := Unlink(m, p);
    assert c[..1] == [p] && c[0..] == c;
    FlatCut(m, c, 1);
    FlatOne(m, p);
    FlatOne(n, p);
    PacketKept(m, n, c[1], c[1..]);
    FlatSame(m, n, c[1..]);
    Alone(n, p);
  }

  lemma Alone(m: Memory, p: Ptr)
    requires p != 0 && p in m && m[p].next == 0 && m[p].totLen == |m[p].data|
    ensures OnePacket(m, p, [p])
  {
    assert [p][0..] == [p] && [p][1..] == [];
    FlatOne(m, p);
  }

  /** The first part is the caller's; the rest lives on if it is referenced otherwise. */
  lemma DechainIsSplit(m: Memory, p: Ptr, c: seq<Ptr>)
    requires OnePacket(m, p, c) && |c| > 1 && 0 !in m && forall q :: q in m ==> m[q].ref > 0
    ensures p in m && c[1] in m
    ensures var n := Dechain(m, p);
      && OnePacket(n, p, [p]) && Flat(n, [p]) == m[p].data
      && (m[c[1]].ref > 1 ==> OnePacket(n, c[1], c[1..]) && Flat(m, c) == m[p].data + Flat(n, c[1..]))
  {
    hide Flat, OnePacket, Unlink, Free;
    UnlinkIsSplit(m, p, c);
    var u, n := Unlink(m, p), Dechain(m, p);
    PacketIsChain(u, c[1], c[1..]);
    PacketIsChain(m, p, c);
    ChainSplit(m, p, c, 1);
    assert c[..1] == [p];
    UnlinkRefs(m, p);
    FreeOther(u, c[1], c[1..], p);
    PacketKept(u, n, p, [p]);
    FlatSame(u, n, [p]);
    if m[c[1]].ref > 1 {
      FreeShared(u, c[1]);
      PacketKept(u, n, c[1], c[1..]);
      FlatSame(u, n, c[1..]);
    }
  }

  lemma UnlinkRefs(m: Memory, p: Ptr)
    requires p in m && m[p].next in m
    ensures Unlink(m, p).Keys == m.Keys && forall q :: q in m ==> Unlink(m, p)[q].ref == m[q].ref
  {
  }

  /** Freeing a chain leaves everything outside it as it is. */
  lemma FreeOther(m: Memory, q: Ptr, c: seq<Ptr>, p: Ptr)
    requires IsChain(m, q, c) && 0 !in m && p in m && p !in c && forall x :: x in c ==> x in m && m[x].ref > 0
    ensures p in Free(m, q) && Free(m, q)[p] == m[p]
  {
    hide Free, IsChain;
    FreeIsPrefix(m, q, c);
  }

  lemma FreeShared(m: Memory, q: Ptr)
    requires q in m && m[q].ref > 1
    ensures Free(m, q) == m[q := m[q].(ref := m[q].ref - 1)]
  {
  }

  lemma PacketIsChain(m: Memory, p: Ptr, c: seq<Ptr>)
    requires OnePacket(m, p, c)
    ensures IsChain(m, p, c) && (forall q :: q in c ==> q in m) && p == First(c)
  {
    ChainInMemory(m, p, c);
  }

  /** pbuf_dechain reports the rest as NULL from the u8 count of deallocated pbufs, so what
      it returns is an allocated pbuf (or NULL) exactly when that count is not a positive
      multiple of 256. */
  lemma DechainAnswer(m: Memory, holders: map<Ptr, nat>, p: Ptr)
    requires Counted(m, holders) && p in m && m[p].next != p && m[p].next in m
    ensures
      var q := m[p].next;
      var freed := Freed(Unlink(m, p), q);
      var answer := if freed % 0x100 > 0 then 0 else q;
      (answer == 0 || answer in Dechain(m, p)) <==> !(freed > 0 && freed % 0x100 == 0)
  {
    assert RefOk(m, holders, 0, p);
    var q := m[p].next;
    FreedFirst(Unlink(m, p), q);
  }

  /** n empty pbufs in a row, each referenced once. */
  function Row(n: nat): Memory { map q | q in Names(n) :: Cell(if q < n then q + 1 else 0, [], 0, 1) }

  function Names(n: nat): (r: set<Ptr>)
    ensures forall q :: q in r <==> 1 <= q <= n
  {
    if n == 0 then {} else Names(n - 1) + {n}
  }

  lemma RowCounted(n: nat)
    requires n > 0
    ensures Counted(Row(n), map[1 := 1])
  {
    var m := Row(n);
    forall q | q in m ensures RefOk(m, map[1 := 1], 0, q) {
      assert Preds(m, q) == if q == 1 then {} else {q - 1};
    }
  }

  lemma RowLinks(n: nat, c: seq<Ptr>)
    requires n > 1 && |c| == n - 1 && forall i :: 0 <= i < |c| ==> c[i] == i + 2
    ensures IsChain(Unlink(Row(n), 1), 2, c)
  {
    var m := Unlink(Row(n), 1);
    forall i {:trigger Link(m, c, i)} | 0 <= i < |c| ensures Link(m, c, i) {
      if i + 1 < |c| { assert c[i + 1..][0] == c[i + 1]; }
    }
  }

  lemma {:induction false} AllSole(m: Memory, c: seq<Ptr>)
    requires forall q :: q in c ==> q in m && m[q].ref == 1
    ensures SoleOwned(m, c) == |c|
  {
    if |c| > 0 { AllSole(m, c[1..]); }
  }

  lemma RowFreed(n: nat)
    requires n > 1
    ensures Freed(Unlink(Row(n), 1), 2) == n - 1
  {
    hide IsChain, Freed, Free;
    var c := seq(n - 1, i => i + 2);
    RowLinks(n, c);
    AllSole(Unlink(Row(n), 1), c);
    FreeIsPrefix(Unlink(Row(n), 1), 2, c);
  }

  /** It does happen: from a row of 257 pbufs held by its first, pbuf_dechain returns the
      second one, which it has just deallocated. */
  lemma DechainDangles()
    ensures var m := Row(257);
      && Counted(m, map[1 := 1]) && m[1].next == 2 && 2 in m
      && Freed(Unlink(m, 1), 2) == 256 && 2 !in Dechain(m, 1)
  {
    RowCounted(257);
    RowFreed(257);
    FreedFirst(Unlink(Row(257), 1), 2);
  }

  lemma {:induction false} FreedFirst(m: Memory, q: Ptr)
    requires q in m
    ensures q in Free(m, q) <==> Freed(m, q) == 0
  {
    if m[q].ref == 1 {
      FreeShrinks(m - {q}, m[q].next);
    }
  }

  lemma {:induction false} FreeShrinks(m: Memory, p: Ptr)
    ensures Free(m, p).Keys <= m.Keys
    decreases |m|
  {
    if p in m && m[p].ref == 1 {
      FreeShrinks(m - {p}, m[p].next);
    }
  }

  // ---------------------------------------------------------------- pbuf_realloc

  /** The pbuf of c that becomes the last one when the chain is cut to n bytes. */
  function LastKept(m: Memory, c: seq<Ptr>, n: nat): (k: nat)
    ensures k <= |c|
  {
    if |c| == 0 || n <= |Data(m, c[0])| then 0 else 1 + LastKept(m, c[1..], n - |Data(m, c[0])|)
  }

  /** The chain c cut to n bytes, n inside or at the end of its k-th pbuf: `tot_len` of the
      pbufs passed over goes down by drop, the k-th is cut and unlinked. */
  function Cut(m: Memory, c: seq<Ptr>, k: nat, n: nat, drop: nat): Memory
    requires k < |c|
  {
    var rem := n - |Flat(m, c[..k])|;
    map q | q in m ::
      if q == c[k] && 0 <= rem <= |m[q].data| then Cell(0, m[q].data[..rem], Wrap16(rem), m[q].ref)
      else if q in c[..k] then m[q].(totLen := Wrap16(m[q].totLen - drop))
      else m[q]
  }

  function Realloc(m: Memory, c: seq<Ptr>, n: u16): Memory {
    if |c| == 0 || c[0] !in m || n >= m[c[0]].totLen then m
    else
      var k := LastKept(m, c, n);
      if k == |c| || c[k] !in m then m else Free(Cut(m, c, k, n, m[c[0]].totLen - n), m[c[k]].next)
  }

  lemma {:induction false} LastKeptWhere(m: Memory, c: seq<Ptr>, n: nat)
    requires n <= |Flat(m, c)| && |c| > 0
    ensures var k := LastKept(m, c, n);
      k < |c| && |Flat(m, c[..k])| <= n <= |Flat(m, c[..k])| + |Data(m, c[k])|
  {
    var here := |Data(m, c[0])|;
    if n > here {
      assert |c[1..]| > 0;
      LastKeptWhere(m, c[1..], n - here);
      var k := LastKept(m, c, n);
      assert c[..k][1..] == c[1..][..k - 1];
    }
  }

  /** r is m with the chain c cut inside its k-th pbuf, as seen pbuf by pbuf. */
  ghost predicate CutAt(m: Memory, r: Memory, c: seq<Ptr>, k: nat, rem: nat, drop: nat)
    requires k < |c|
  {
    && m.Keys == r.Keys
    && c[k] in m && rem <= |m[c[k]].data|
    && r[c[k]] == Cell(0, m[c[k]].data[..rem], Wrap16(rem), m[c[k]].ref)
    && (forall i {:trigger c[i]} :: 0 <= i < k && c[i] in m ==>
         && r[c[i]].next == m[c[i]].next && r[c[i]].data == m[c[i]].data && r[c[i]].ref == m[c[i]].ref
         && r[c[i]].totLen == Wrap16(m[c[i]].totLen - drop))
    && (forall q :: q in m && q !in c[..k + 1] ==> r[q] == m[q])
  }

  lemma CutIsCutAt(m: Memory, p: Ptr, c: seq<Ptr>, k: nat, n: nat, drop: nat)
    requires IsChain(m, p, c) && k < |c|
    requires |Flat(m, c[..k])| <= n <= |Flat(m, c[..k])| + |Data(m, c[k])|
    ensures CutAt(m, Cut(m, c, k, n, drop), c, k, n - |Flat(m, c[..k])|, drop)
  {
    ChainSplit(m, p, c, k);
    assert c[k] in c[k..];
    assert Link(m, c, k);
    assert c[..k + 1] == c[..k] + [c[k]];
  }

  lemma CutLinks(m: Memory, r: Memory, p: Ptr, c: seq<Ptr>, k: nat, rem: nat, drop: nat)
    requires IsChain(m, p, c) && k < |c| && CutAt(m, r, c, k, rem, drop)
    ensures IsChain(r, p, c[..k + 1])
  {
    var d := c[..k + 1];
    forall i {:trigger Link(r, d, i)} | 0 <= i < |d| ensures Link(r, d, i) {
      assert Link(m, c, i);
      if i < k {
        assert c[i] in c[..k];
        assert First(d[i + 1..]) == First(c[i + 1..]);
      }
    }
  }

  /** What is left is a well-formed packet holding the first n bytes. */
  lemma CutIsPrefix(m: Memory, r: Memory, p: Ptr, c: seq<Ptr>, k: nat, n: nat, drop: nat)
    requires OnePacket(m, p, c) && k < |c| && n + drop == |Flat(m, c)| <= 0xffff
    requires |Flat(m, c[..k])| <= n && CutAt(m, r, c, k, n - |Flat(m, c[..k])|, drop)
    ensures OnePacket(r, p, c[..k + 1]) && Flat(r, c[..k + 1]) == Flat(m, c)[..n]
  {
    hide Flat;
    var d := c[..k + 1];
    ChainInMemory(m, p, c);
    CutLinks(m, r, p, c, k, n - |Flat(m, c[..k])|, drop);
    assert d == c[..k] + [c[k]];
    FlatAt(m, c, k);
    FlatSame(m, r, c[..k]);
    FlatSnoc(r, c[..k], c[k]);
    var rem := n - |Flat(m, c[..k])|;
    assert 0 <= rem <= 0xffff;
    assert r[c[k]].totLen == rem == |Data(r, c[k])|;
    forall i {:trigger TotOk(r, d, i)} | 0 <= i < |d| ensures TotOk(r, d, i) {
      assert TotOk(m, c, i);
      if i < k {
        assert c[i] in c[..k];
        assert r[c[i]].totLen == Wrap16(m[c[i]].totLen - drop);
      }
      CutTotOk(m, r, c, i, k, n, drop);
    }
  }

  lemma CutTotOk(m: Memory, r: Memory, c: seq<Ptr>, i: nat, k: nat, n: nat, drop: nat)
    requires i <= k < |c| && n + drop == |Flat(m, c)| <= 0xffff && n >= |Flat(m, c[..k])|
    requires TotOk(m, c, i) && c[i] in r
    requires forall q :: q in c[..k] ==> Data(m, q) == Data(r, q)
    requires |Data(r, c[k])| == n - |Flat(m, c[..k])|
    requires r[c[i]].totLen == (if i < k then Wrap16(m[c[i]].totLen - drop) else |Data(r, c[k])|)
    ensures TotOk(r, c[..k + 1], i)
  {
    CutTotals(m, r, c, i, k, n, drop);
    FlatCut(m, c, i);
    assert 0 <= |Flat(m, c[i..])| - drop <= 0xffff;
    assert c[..k + 1][i] == c[i];
    FlatAfter(r, c, i, k);
  }

  lemma FlatAfter(r: Memory, c: seq<Ptr>, i: nat, k: nat)
    requires i <= k < |c|
    ensures i == k ==> Flat(r, c[..k + 1][i..]) == Data(r, c[k])
  {
    if i == k {
      assert c[..k + 1][k..] == [c[k]];
      FlatOne(r, c[k]);
    }
  }

  lemma CutTotals(m: Memory, r: Memory, c: seq<Ptr>, i: nat, k: nat, n: nat, drop: nat)
    requires i <= k < |c| && n + drop == |Flat(m, c)| && n >= |Flat(m, c[..k])|
    requires forall q :: q in c[..k] ==> Data(m, q) == Data(r, q)
    requires |Data(r, c[k])| == n - |Flat(m, c[..k])|
    ensures |Flat(r, c[..k + 1][i..])| == |Flat(m, c[i..])| - drop
  {
    var d := c[..k + 1];
    assert d[i..] == c[i..k] + [c[k]];
    FlatSnoc(r, c[i..k], c[k]);
    FlatSame(m, r, c[i..k]);
    FlatCut(m, c, i);
    FlatCut(m, c[..k], i);
    assert c[..k][..i] == c[..i] && c[..k][i..] == c[i..k];
  }

  /** pbuf_realloc leaves exactly the first n bytes, in a well-formed packet made of a prefix
      of the chain's pbufs (which all stay allocated), and touches no other chain. */
  lemma ReallocIsPrefix(m: Memory, p: Ptr, c: seq<Ptr>, n: u16)
    requires OnePacket(m, p, c) && |c| > 0 && 0 !in m && n < |Flat(m, c)|
    requires forall q :: q in c && q in m ==> m[q].ref > 0
    ensures LastKept(m, c, n) < |c|
    ensures OnePacket(Realloc(m, c, n), p, c[..LastKept(m, c, n) + 1])
    ensures Flat(Realloc(m, c, n), c[..LastKept(m, c, n) + 1]) == Flat(m, c)[..n]
    ensures SameOutside(m, Realloc(m, c, n), c)
  {
    hide Flat, CutAt, SameOutside;
    TotLenSums(m, p, c);
    LastKeptWhere(m, c, n);
    var k := LastKept(m, c, n);
    var drop := m[p].totLen - n;
    var cut := ReallocSteps(m, p, c, n);
    CutIsPrefix(m, cut, p, c, k, n, drop);
    CutThenFree(m, cut, p, c, k, n - |Flat(m, c[..k])|, drop);
  }

  lemma ReallocSteps(m: Memory, p: Ptr, c: seq<Ptr>, n: u16) returns (cut: Memory)
    requires OnePacket(m, p, c) && |c| > 0 && n < |Flat(m, c)|
    ensures var k := LastKept(m, c, n);
      && k < |c| && c[k] in m && p in m && n <= m[p].totLen && |Flat(m, c[..k])| <= n
      && CutAt(m, cut, c, k, n - |Flat(m, c[..k])|, m[p].totLen - n)
      && Realloc(m, c, n) == Free(cut, m[c[k]].next)
  {
    hide Flat, Cut, CutAt, LastKept;
    TotLenSums(m, p, c);
    LastKeptWhere(m, c, n);
    var k := LastKept(m, c, n);
    assert Link(m, c, k);
    cut := Cut(m, c, k, n, m[p].totLen - n);
    CutIsCutAt(m, p, c, k, n, m[p].totLen - n);
  }

  /** Freeing the rest after the cut reaches only the pbufs of the rest. */
  lemma CutThenFree(m: Memory, cut: Memory, p: Ptr, c: seq<Ptr>, k: nat, rem: nat, drop: nat)
    requires OnePacket(m, p, c) && k < |c| && 0 !in m && CutAt(m, cut, c, k, rem, drop)
    requires forall q :: q in c && q in m ==> m[q].ref > 0
    requires OnePacket(cut, p, c[..k + 1])
    ensures var r := Free(cut, m[c[k]].next);
      SameOutside(m, r, c) && OnePacket(r, p, c[..k + 1]) && Flat(r, c[..k + 1]) == Flat(cut, c[..k + 1])
  {
    var rest := c[k + 1..];
    ChainInMemory(m, p, c);
    ChainSuffix(m, p, c, k + 1);
    ChainSplit(m, p, c, k + 1);
    assert Link(m, c, k);
    assert c[k] in c[..k + 1];
    assert forall q :: q in rest ==> q in c;
    assert forall q :: q in c[..k] ==> q in c[..k + 1];
    ChainKept(m, cut, m[c[k]].next, rest);
    FreeTouchesOnly(cut, m[c[k]].next, rest);
    var r := Free(cut, m[c[k]].next);
    PacketKept(cut, r, p, c[..k + 1]);
    FlatSame(cut, r, c[..k + 1]);
  }

  lemma FreeTouchesOnly(m: Memory, p: Ptr, c: seq<Ptr>)
    requires IsChain(m, p, c) && 0 !in m
    requires forall q :: q in c ==> q in m && m[q].ref > 0
    ensures SameOutside(m, Free(m, p), c)
  {
    FreeIsPrefix(m, p, c);
  }

  /** Whatever is not a pbuf of c is as before. */
  ghost predicate SameOutside(m: Memory, n: Memory, c: seq<Ptr>) {
    n.Keys <= m.Keys && forall q {:trigger m[q]} {:trigger n[q]} :: q in m && q !in c ==> q in n && n[q] == m[q]
  }

  /** pbuf_realloc drops its own link to the rest and no other reference. */
  lemma ReallocKeepsCounts(m: Memory, holders: map<Ptr, nat>, p: Ptr, c: seq<Ptr>, n: u16)
    requires Counted(m, holders) && OnePacket(m, p, c) && |c| > 0
    ensures Counted(Realloc(m, c, n), holders)
  {
    hide Flat, Free, Preds, LastKept;
    TotLenSums(m, p, c);
    if n < m[p].totLen {
      var cut := ReallocSteps(m, p, c, n);
      var z := c[LastKept(m, c, n)];
      var rest := m[z].next;
      assert RefOk(m, holders, 0, z);
      forall q | q in cut ensures RefOk(cut, holders, rest, q) {
        assert RefOk(m, holders, 0, q);
        CutRefOk(m, cut, holders, c, LastKept(m, c, n), n - |Flat(m, c[..LastKept(m, c, n)])|, m[p].totLen - n, q);
      }
      FreeKeepsCounts(cut, holders, rest);
    }
  }

  lemma CutRefOk(m: Memory, cut: Memory, holders: map<Ptr, nat>, c: seq<Ptr>, k: nat, rem: nat, drop: nat, q: Ptr)
    requires k < |c| && CutAt(m, cut, c, k, rem, drop) && q in m && RefOk(m, holders, 0, q)
    ensures RefOk(cut, holders, m[c[k]].next, q)
  {
    hide Preds;
    PredsRelinked(m, cut, c[k], q);
  }

  // ---------------------------------------------------------------- runs

  datatype Op =
    | OpRef(p: Ptr)
    | OpCat(h: seq<Ptr>, t: Ptr)
    | OpChain(h: seq<Ptr>, t: Ptr)
    | OpDechain(p: Ptr)
    | OpFree(p: Ptr)
    | OpRealloc(c: seq<Ptr>, n: u16)

  /** Callers name allocated pbufs, give away only references they hold, and no count
      overflows its 16 bits; h lists a chain that ends, and p is not its own successor. */
  ghost predicate Legal(m: Memory, holders: map<Ptr, nat>, op: Op) {
    match op
    case OpRef(p) => p in m && m[p].ref < 0xffff
    case OpCat(h, t) => |h| > 0 && IsChain(m, h[0], h) && t in m && Count(holders, t) > 0
    case OpChain(h, t) => |h| > 0 && IsChain(m, h[0], h) && t in m && Count(holders, t) > 0 && m[t].ref < 0xffff
    case OpDechain(p) => p in m && m[p].next != p
    case OpFree(p) => Count(holders, p) > 0
    case OpRealloc(c, n) => |c| > 0 && OnePacket(m, c[0], c)
  }

  function Apply(m: Memory, op: Op): Memory {
    match op
    case OpRef(p) => if p in m then Ref(m, p) else m
    case OpCat(h, t) => if |h| > 0 && t in m then Cat(m, h, t) else m
    case OpChain(h, t) => if |h| > 0 && t in m then Ref(Cat(m, h, t), t) else m
    case OpDechain(p) => if p in m then Dechain(m, p) else m
    case OpFree(p) => Free(m, p)
    case OpRealloc(c, n) => Realloc(m, c, n)
  }

  function Owners(holders: map<Ptr, nat>, op: Op): map<Ptr, nat> {
    match op
    case OpRef(p) => holders[p := Count(holders, p) + 1]
    case OpCat(h, t) => if Count(holders, t) > 0 then holders[t := Count(holders, t) - 1] else holders
    case OpChain(h, t) => holders
    case OpDechain(p) => holders
    case OpFree(p) => if Count(holders, p) > 0 then holders[p := Count(holders, p) - 1] else holders
    case OpRealloc(c, n) => holders
  }

  ghost predicate LegalRun(m: Memory, holders: map<Ptr, nat>, ops: seq<Op>)
    decreases |ops|
  {
    |ops| == 0 || (Legal(m, holders, ops[0]) && LegalRun(Apply(m, ops[0]), Owners(holders, ops[0]), ops[1..]))
  }

  function Run(m: Memory, ops: seq<Op>): Memory
    decreases |ops|
  {
    if |ops| == 0 then m else Run(Apply(m, ops[0]), ops[1..])
  }

  function OwnersRun(holders: map<Ptr, nat>, ops: seq<Op>): map<Ptr, nat>
    decreases |ops|
  {
    if |ops| == 0 then holders else OwnersRun(Owners(holders, ops[0]), ops[1..])
  }

  /** A reference taken and given back. */
  lemma RefThenFree(m: Memory, holders: map<Ptr, nat>, p: Ptr)
    requires Counted(m, holders) && p in m && m[p].ref < 0xffff
    ensures LegalRun(m, holders, [OpRef(p), OpFree(p)]) && Run(m, [OpRef(p), OpFree(p)]) == m
  {
    assert RefOk(m, holders, 0, p);
    assert Free(Ref(m, p), p) == m;
    TwoOps(m, holders, OpRef(p), OpFree(p));
  }

  /** A pbuf on its own chained to a packet and dechained again: everything is as it was. */
  lemma ChainThenDechain(m: Memory, holders: map<Ptr, nat>, p: Ptr, t: Ptr)
    requires Counted(m, holders) && p in m && t in m && p != t && m[p].next == 0 && m[p].totLen == |m[p].data|
    requires Count(holders, t) > 0 && m[t].ref < 0xffff && m[p].totLen + m[t].totLen < 0x1_0000
    ensures LegalRun(m, holders, [OpChain([p], t), OpDechain(p)]) && Run(m, [OpChain([p], t), OpDechain(p)]) == m
  {
    assert RefOk(m, holders, 0, t);
    assert Link(m, [p], 0);
    var n := Ref(Cat(m, [p], t), t);
    assert n[p] == m[p].(totLen := m[p].totLen + m[t].totLen, next := t) && n[t] == m[t].(ref := m[t].ref + 1);
    assert Dechain(n, p) == m;
    TwoOps(m, holders, OpChain([p], t), OpDechain(p));
  }

  lemma TwoOps(m: Memory, holders: map<Ptr, nat>, a: Op, b: Op)
    ensures LegalRun(m, holders, [a, b]) <==> Legal(m, holders, a) && Legal(Apply(m, a), Owners(holders, a), b)
    ensures Run(m, [a, b]) == Apply(Apply(m, a), b)
  {
    hide Legal, Apply, Owners;
    assert [a, b][1..] == [b] && [b][1..] == [];
    var n, h := Apply(m, a), Owners(holders, a);
    assert Run(n, [b]) == Apply(n, b) && (LegalRun(n, h, [b]) <==> Legal(n, h, b));
  }

  /** Over every run, `ref` is the number of outside holders plus predecessors, and nothing
      deallocated can be reached from a holder. */
  lemma {:induction false} RunKeepsCounts(m: Memory, holders: map<Ptr, nat>, ops: seq<Op>)
    requires Counted(m, holders) && LegalRun(m, holders, ops)
    ensures Counted(Run(m, ops), OwnersRun(holders, ops))
    ensures forall p :: Count(OwnersRun(holders, ops), p) > 0 ==> NeverDangling(Run(m, ops), p)
    decreases |ops|
  {
    if |ops| == 0 {
      forall p | Count(holders, p) > 0 ensures NeverDangling(m, p) {
        ReachableAllocated(m, holders, p);
      }
    } else {
      match ops[0] {
        case OpRef(p) => RefKeepsCounts(m, holders, p);
        case OpCat(h, t) => CatKeepsCounts(m, holders, h[0], h, t);
        case OpChain(h, t) => ChainKeepsCounts(m, holders, h[0], h, t);
        case OpDechain(p) => DechainKeepsCounts(m, holders, p);
        case OpFree(p) => DropKeepsCounts(m, holders, p);
        case OpRealloc(c, n) =>
          ReallocKeepsCounts(m, holders, c[0], c, n);
      }
      RunKeepsCounts(Apply(m, ops[0]), Owners(holders, ops[0]), ops[1..]);
    }
  }

  /** The pbuf reached from p after n links; 0 past the end of the chain. */
  function Follow(m: Memory, p: Ptr, n: nat): Ptr
    decreases n
  {
    if n == 0 then p
    else if p in m then Follow(m, m[p].next, n - 1)
    else p
  }

  ghost predicate NeverDangling(m: Memory, p: Ptr) {
    forall n: nat :: Follow(m, p, n) == 0 || Follow(m, p, n) in m
  }

  lemma {:induction false} FollowAllocated(m: Memory, holders: map<Ptr, nat>, p: Ptr, n: nat)
    requires Counted(m, holders) && (p == 0 || p in m)
    ensures Follow(m, p, n) == 0 || Follow(m, p, n) in m
    decreases n
  {
    if n > 0 && p in m {
      assert RefOk(m, holders, 0, p);
      FollowAllocated(m, holders, m[p].next, n - 1);
    }
  }

  lemma ReachableAllocated(m: Memory, holders: map<Ptr, nat>, p: Ptr)
    requires Counted(m, holders) && Count(holders, p) > 0
    ensures NeverDangling(m, p)
  {
    forall n: nat ensures Follow(m, p, n) == 0 || Follow(m, p, n) in m {
      FollowAllocated(m, holders, p, n);
    }
  }
}
