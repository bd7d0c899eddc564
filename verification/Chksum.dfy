/** The Internet checksum (core/inet_chksum.c, section 2 of RFC 1071): three summing
    algorithms, the sum over a pbuf chain, and the pseudo-header forms, on a little-endian
    machine. */
module Chksum {
  import opened Words
  import P = PbufSpec
  import Pbuf

  // ---------------------------------------------------------------- the simple form

  function Word(lo: u8, hi: u8): u16 { lo + 0x100 * (hi as int) }

  /** The sum of the 16-bit little-endian words of d, padded with a zero byte. */
  function Sum(d: seq<u8>): nat { if |d| == 0 then 0 else d[0] + SumHigh(d[1..]) }

  /** The same with the words read big-endian. */
  function SumHigh(d: seq<u8>): nat { if |d| == 0 then 0 else Word(0, d[0]) + Sum(d[1..]) }

  /** Ones' complement value of a sum: 0 only for 0, else in 1 .. 65535 modulo 65535. */
  function Rep(n: nat): u16 { if n == 0 then 0 else (n - 1) % 0xffff + 1 }

  /** What LWIP_CHKSUM computes. */
  function Standard(d: seq<u8>): u16 { Rep(Sum(d)) }

  /** inet_chksum. */
  function Inet(d: seq<u8>): u16 { 0xffff - Standard(d) }

  // ---------------------------------------------------------------- arithmetic modulo 65535

  lemma RepIs(n: nat, r: nat, k: int)
    requires n == r + 0xffff * k && r <= 0xffff && (r == 0 <==> n == 0)
    ensures Rep(n) == r
  {
    if n != 0 {
      assert n - 1 == 0xffff * k + (r - 1);
    }
  }

  lemma RepOf(n: nat) returns (k: nat)
    ensures n == Rep(n) + 0xffff * k && (Rep(n) == 0 <==> n == 0)
  {
    k := if n == 0 then 0 else (n - 1) / 0xffff;
  }

  lemma RepTurns(x: nat, k: nat)
    requires x > 0
    ensures Rep(x + 0xffff * k) == Rep(x)
  {
    var j := RepOf(x);
    RepIs(x + 0xffff * k, Rep(x), j + k);
  }

  lemma RepAdd(x: nat, y: nat)
    ensures Rep(Rep(x) + y) == Rep(x + y)
  {
    var j := RepOf(x);
    if x > 0 { RepTurns(Rep(x) + y, j); }
  }

  lemma RepScale(x: nat)
    ensures Rep(0x100 * Rep(x)) == Rep(0x100 * x) && Rep(0x100 * (0x100 * x)) == Rep(x)
  {
    var j := RepOf(x);
    if x > 0 {
      RepTurns(0x100 * Rep(x), 0x100 * j);
      RepTurns(x, x);
    }
  }

  /** FOLD_U32T and SWAP_BYTES_IN_WORD. */
  function Fold(u: u32): u32 { u / 0x1_0000 + u % 0x1_0000 }

  function Swap(w: u32): u16 { w % 0x100 * 0x100 + w / 0x100 % 0x100 }

  lemma FoldTwice(u: u32)
    ensures Fold(u) <= 0x1fffe && Fold(Fold(u)) == Rep(u) && (Fold(u) <= 0xffff ==> Fold(u) == Rep(u))
    ensures u <= 0x1fffe ==> Fold(u) == Rep(u)
  {
    var k: int := u / 0x1_0000 + Fold(u) / 0x1_0000;
    RepIs(u, Fold(Fold(u)), k);
  }

  lemma SwapIs(w: u16)
    ensures Swap(w) == Rep(0x100 * w)
  {
    RepIs(0x100 * w, Swap(w), w / 0x100);
  }

  // ---------------------------------------------------------------- sums of pieces

  lemma {:induction false} SumHighIs(d: seq<u8>)
    ensures Rep(SumHigh(d)) == Rep(0x100 * Sum(d)) && Rep(Sum(d)) == Rep(0x100 * SumHigh(d))
  {
    hide Rep;
    if |d| > 0 {
      SumHighIs(d[1..]);
      var x: nat, s, h := d[0], Sum(d[1..]), SumHigh(d[1..]);
      RepAdd(s, 0x100 * x);
      RepAdd(0x100 * h, 0x100 * x);
      RepAdd(h, x);
      RepAdd(0x100 * s, x);
      RepAdd(x, 0x100 * s);
      RepScale(x);
      RepAdd(0x100 * (0x100 * x), 0x100 * s);
    }
  }

  lemma {:induction false} SumConcat(a: seq<u8>, b: seq<u8>)
    ensures Sum(a + b) == Sum(a) + (if |a| % 2 == 0 then Sum(b) else SumHigh(b))
    ensures SumHigh(a + b) == SumHigh(a) + (if |a| % 2 == 0 then SumHigh(b) else Sum(b))
    decreases |a|
  {
    if |a| == 0 {
      assert a + b == b;
    } else {
      assert (a + b)[1..] == a[1..] + b;
      SumConcat(a[1..], b);
    }
  }

  lemma {:induction false} SumBound(d: seq<u8>)
    ensures Sum(d) <= (|d| + 1) / 2 * 0xffff && SumHigh(d) <= (|d| + 1) / 2 * 0xffff
    ensures |d| % 2 == 0 ==> SumHigh(d) <= |d| / 2 * 0xffff
    ensures |d| % 2 == 1 ==> Sum(d) <= |d| / 2 * 0xffff + 0xff
    decreases |d|
  {
    if |d| > 1 {
      SumBound(d[2..]);
      assert d[1..][1..] == d[2..];
    } else if |d| == 1 {
      assert d[1..] == [];
    }
  }

  lemma SumTwo(d: seq<u8>, i: nat)
    requires i + 2 <= |d|
    ensures Sum(d[i..]) == Word(d[i], d[i + 1]) + Sum(d[i + 2..])
    ensures SumHigh(d[i..]) == Word(d[i + 1], d[i]) + SumHigh(d[i + 2..])
  {
    assert d[i..][1..] == d[i + 1..] && d[i + 1..][1..] == d[i + 2..];
  }

  lemma SumEnd(d: seq<u8>)
    ensures |d| == 0 ==> Sum(d) == 0 && SumHigh(d) == 0
    ensures |d| == 1 ==> Sum(d) == d[0] && SumHigh(d) == Word(0, d[0])
  {
  }

  // ---------------------------------------------------------------- lwip_standard_chksum

  /** Version 1: big-endian words, swapped at the end. */
  method StandardChksum1(d: seq<u8>) returns (r: u16)
    requires |d| <= 0x20000
    ensures r == Standard(d)
  {
    hide Sum, SumHigh, Rep, Fold, Swap, Word;
    var acc: u32 := 0;
    var i: nat, len: nat := 0, |d|;
    SumBound(d);
    while len > 1
      invariant i + len == |d| && acc + SumHigh(d[i..]) == SumHigh(d)
    {
      SumTwo(d, i);
      SumBound(d[i + 2..]);
      var src := Word(d[i + 1], d[i]);
      acc := acc + src;
      i, len := i + 2, len - 2;
    }
    SumEnd(d[i..]);
    if len > 0 {
      acc := acc + Word(0, d[i]);
    }
    r := DeferredCarry(acc);
    SumHighIs(d);
    RepScale(SumHigh(d));
    SwapIs(r);
    r := Swap(r);
  }

  method DeferredCarry(acc0: u32) returns (r: u16)
    ensures r == Rep(acc0)
  {
    var acc := acc0;
    FoldTwice(acc);
    acc := Fold(acc);
    if acc / 0x1_0000 != 0 {
      acc := Fold(acc);
    }
    r := acc;
  }

  /** Version 2, for data at address addr: aligned words, the end bytes collected in t. */
  method StandardChksum2(d: seq<u8>, addr: nat) returns (r: u16)
    requires |d| <= 0x20000
    ensures r == Standard(d)
  {
    hide Sum, SumHigh, Rep, Fold, Swap;
    var t0: u8, t1: u8 := 0, 0;
    var sum: u32 := 0;
    var i: nat, len: nat := 0, |d|;
    var odd := addr % 2 == 1;
    ghost var total := if odd then SumHigh(d) else Sum(d);
    SumBound(d);
    if odd && len > 0 {
      SumFirst(d);
      t1 := d[0];
      i, len := i + 1, len - 1;
    }
    SumBound(d[i..]);
    while len > 1
      invariant i + len == |d| && sum + Sum(d[i..]) + Word(0, t1) == total
    {
      SumTwo(d, i);
      SumBound(d[i + 2..]);
      sum := sum + Word(d[i], d[i + 1]);
      i, len := i + 2, len - 2;
    }
    SumEnd(d[i..]);
    if len > 0 {
      t0 := d[i];
    }
    sum := sum + Word(t0, t1);
    r := Finish(sum, odd, d);
  }

  lemma SumFirst(d: seq<u8>)
    requires |d| > 0
    ensures Sum(d) == d[0] + SumHigh(d[1..]) && SumHigh(d) == Word(0, d[0]) + Sum(d[1..])
  {
  }

  /** The two folds and the swap at the end of versions 2 and 3. */
  method Finish(sum0: u32, odd: bool, ghost d: seq<u8>) returns (r: u16)
    requires Rep(sum0) == Rep(if odd then SumHigh(d) else Sum(d))
    ensures r == Standard(d)
  {
    hide Sum, SumHigh, Rep, Fold, Swap;
    var sum := sum0;
    FoldTwice(sum);
    sum := Fold(sum);
    sum := Fold(sum);
    if odd {
      SumHighIs(d);
      RepScale(SumHigh(d));
      SwapIs(sum);
      sum := Swap(sum);
    }
    r := sum;
  }

  function Long(d: seq<u8>, i: nat): u32
    requires i + 4 <= |d|
  {
    d[i] + 0x100 * (d[i + 1] as int) + 0x1_0000 * (d[i + 2] as int) + 0x100_0000 * (d[i + 3] as int)
  }

  /** Adding a 32-bit word with the carry put back at the bottom. */
  method AddCarry(sum: u32, d: seq<u8>, i: nat) returns (r: u32)
    requires i + 4 <= |d|
    ensures Rep(r + Sum(d[i + 4..])) == Rep(sum + Sum(d[i..]))
  {
    hide Sum, SumHigh, Rep;
    r := Wrap32(sum + Long(d, i));
    if r < sum {
      r := r + 1;
    }
    SumTwo(d, i);
    SumTwo(d, i + 2);
    LongIs(d, i, sum + Sum(d[i + 4..]));
    if r != sum + Long(d, i) {
      RepTurns(r + Sum(d[i + 4..]), 0x1_0001);
    }
  }

  lemma LongIs(d: seq<u8>, i: nat, x: nat)
    requires i + 4 <= |d|
    ensures Rep(Long(d, i) + x) == Rep(Word(d[i], d[i + 1]) + Word(d[i + 2], d[i + 3]) + x)
  {
    hide Rep;
    var y := Word(d[i], d[i + 1]) + Word(d[i + 2], d[i + 3]) + x;
    if y > 0 {
      RepTurns(y, Word(d[i + 2], d[i + 3]));
    }
  }

  /** The unrolled loop of version 3. */
  method AddLongs(sum0: u32, d: seq<u8>, i0: nat) returns (sum: u32, i: nat, len: nat)
    requires i0 <= |d|
    ensures i + len == |d| && len <= 7 && Rep(sum + Sum(d[i..])) == Rep(sum0 + Sum(d[i0..]))
  {
    hide Sum, SumHigh, Rep, Long;
    sum, i, len := sum0, i0, |d| - i0;
    while len > 7
      invariant i + len == |d| && Rep(sum + Sum(d[i..])) == Rep(sum0 + Sum(d[i0..]))
    {
      var tmp := AddCarry(sum, d, i);
      sum := AddCarry(tmp, d, i + 4);
      i, len := i + 8, len - 8;
    }
  }

  /** Its last words; after a fold there is room for them. */
  method AddWords(sum0: u32, d: seq<u8>, i0: nat) returns (sum: u32, i: nat, len: nat)
    requires i0 <= |d| <= i0 + 7 && sum0 <= 0x1fffe
    ensures i + len == |d| && len <= 1 && Rep(sum + Sum(d[i..])) == Rep(sum0 + Sum(d[i0..])) && sum <= 0x7_0000
  {
    hide Sum, SumHigh, Rep;
    sum, i, len := sum0, i0, |d| - i0;
    while len > 1
      invariant i + len == |d| && len <= 7 && sum + len / 2 * 0xffff <= 0x6_0000
      invariant sum + Sum(d[i..]) == sum0 + Sum(d[i0..])
    {
      SumTwo(d, i);
      sum := sum + Word(d[i], d[i + 1]);
      i, len := i + 2, len - 2;
    }
  }

  /** Version 3: eight bytes at a time, carries added back. */
  method StandardChksum3(d: seq<u8>, addr: nat) returns (r: u16)
    ensures r == Standard(d)
  {
    hide Sum, SumHigh, Rep, Fold, Swap, Wrap32, Long;
    var t0: u8, t1: u8 := 0, 0;
    var sum: u32 := 0;
    var i: nat, len: nat := 0, |d|;
    var odd := addr % 2 == 1;
    ghost var total := if odd then SumHigh(d) else Sum(d);
    if odd && len > 0 {
      SumFirst(d);
      t1 := d[0];
      i, len := i + 1, len - 1;
    }
    ghost var rest := Sum(d[i..]);
    if (addr + i) % 4 != 0 && len > 1 {
      SumTwo(d, i);
      sum := sum + Word(d[i], d[i + 1]);
      i, len := i + 2, len - 2;
    }
    sum, i, len := AddLongs(sum, d, i);
    FoldTwice(sum);
    RepOfFold(sum, Sum(d[i..]));
    sum := Fold(sum);
    sum, i, len := AddWords(sum, d, i);
    SumEnd(d[i..]);
    if len > 0 {
      t0 := d[i];
    }
    sum := sum + Word(t0, t1);
    RepAdd(rest, Word(0, t1));
    RepAdd(sum - Word(0, t1), Word(0, t1));
    r := Finish(sum, odd, d);
  }

  lemma RepOfFold(u: u32, x: nat)
    ensures Rep(Fold(u) + x) == Rep(u + x)
  {
    if u > 0 {
      RepTurns(Fold(u) + x, u / 0x1_0000);
    }
  }

  // ---------------------------------------------------------------- pbuf chains

  /** A sum, or the same sum with its bytes swapped. */
  function Scaled(x: nat, swapped: bool): nat { if swapped then 0x100 * x else x }

  /** Adding the sum of the next piece, whose bytes sit the other way round in the whole
      when an odd number came before. */
  lemma PieceAdds(x: nat, a: seq<u8>, b: seq<u8>, acc: u16)
    requires var swapped := |a| % 2 == 1; acc == Rep(Scaled(x + Sum(a), swapped))
    ensures Fold(acc + Standard(b)) == Rep(Scaled(x + Sum(a + b), |a| % 2 == 1))
  {
    hide Rep, Sum, SumHigh, Fold;
    var y := Scaled(x + Sum(a), |a| % 2 == 1);
    FoldTwice(acc + Standard(b));
    RepAdd(y, Standard(b));
    RepAdd(Sum(b), y);
    SumConcat(a, b);
    SumHighIs(b);
    RepAdd(0x100 * SumHigh(b), y);
  }

  lemma SwapScaled(x: nat, swapped: bool, acc: u16)
    requires acc == Rep(Scaled(x, swapped))
    ensures Swap(acc) == Rep(Scaled(x, !swapped))
  {
    hide Rep, Swap;
    SwapIs(acc);
    RepScale(x);
    RepScale(0x100 * x);
  }

  /** Lengths are 16 bits wide. */
  ghost predicate ShortPieces(m: P.Memory) { forall q :: q in m ==> |m[q].data| <= 0xffff }

  /** The loop of inet_chksum_pbuf and inet_cksum_pseudo_base: pieces at any alignment and
      of any length add up to the sum of the whole. */
  method SumChain(m: P.Memory, p: P.Ptr, addr: P.Ptr -> nat, acc0: u16, ghost c: seq<P.Ptr>) returns (acc: u16)
    requires P.IsChain(m, p, c) && ShortPieces(m)
    ensures acc == Rep(acc0 + Sum(P.Flat(m, c)))
  {
    hide Rep, Sum, SumHigh, Fold, Swap, P.Flat;
    acc := acc0;
    var swapped := 0;
    var q := p;
    ghost var k := 0;
    Start(m, c, acc0);
    while q != 0
      invariant k <= |c| && q == P.First(c[k..]) && 0 <= swapped <= 1
      invariant swapped == |P.Flat(m, c[..k])| % 2
      invariant acc == Rep(Scaled(acc0 + Sum(P.Flat(m, c[..k])), swapped == 1))
      decreases |c| - k
    {
      Pbuf.NextOf(m, p, c, k);
      ghost var a := P.Flat(m, c[..k]);
      var chksum := StandardChksum2(m[q].data, addr(q));
      PieceAdds(acc0, a, m[q].data, acc);
      acc := Fold(acc + chksum);
      Extend(m, c, k);
      if |m[q].data| % 2 != 0 {
        swapped := 1 - swapped;
        SwapScaled(acc0 + Sum(a + m[q].data), |a| % 2 == 1, acc);
        acc := Swap(acc);
      }
      q := m[q].next;
      k := k + 1;
    }
    Pbuf.ChainDone(m, p, c, k);
    if swapped != 0 {
      SwapScaled(acc0 + Sum(P.Flat(m, c)), true, acc);
      acc := Swap(acc);
    }
  }

  lemma Start(m: P.Memory, c: seq<P.Ptr>, x: u16)
    ensures c[0..] == c && P.Flat(m, c[..0]) == [] && Sum([]) == 0 && Rep(x) == x
  {
  }

  lemma Extend(m: P.Memory, c: seq<P.Ptr>, k: nat)
    requires k < |c|
    ensures P.Flat(m, c[..k + 1]) == P.Flat(m, c[..k]) + P.Data(m, c[k])
  {
    assert c[..k + 1] == c[..k] + [c[k]];
    P.FlatSnoc(m, c[..k], c[k]);
  }

  /** inet_chksum_pbuf. */
  method InetPbuf(m: P.Memory, p: P.Ptr, addr: P.Ptr -> nat, ghost c: seq<P.Ptr>) returns (r: u16)
    requires P.IsChain(m, p, c) && ShortPieces(m)
    ensures r == Inet(P.Flat(m, c))
  {
    var acc := SumChain(m, p, addr, 0, c);
    r := 0xffff - acc;
  }

  /** A 16-bit half as it lies in little-endian memory. */
  function Half(w: u16): seq<u8> { [w % 0x100, w / 0x100] }

  /** The pseudo-header of IPv4 as it lies in memory; the addresses are kept in network
      order, the length is not. */
  function PseudoHeader(src: u32, dest: u32, proto: u8, protoLen: u16): seq<u8> {
    Half(src % 0x1_0000) + Half(src / 0x1_0000) + Half(dest % 0x1_0000) + Half(dest / 0x1_0000)
    + [0, proto] + Half(Swap(protoLen))
  }

  lemma HalfSum(w: u16)
    ensures Sum(Half(w)) == w && |Half(w)| == 2
  {
    SumTwo(Half(w), 0);
    SumEnd(Half(w)[2..]);
    assert Half(w)[0..] == Half(w);
  }

  lemma PseudoHeaderSum(src: u32, dest: u32, proto: u8, protoLen: u16)
    ensures |PseudoHeader(src, dest, proto, protoLen)| == 12
    ensures Sum(PseudoHeader(src, dest, proto, protoLen)) == Addresses(src, dest) + Word(0, proto) + Swap(protoLen)
  {
    hide Sum, SumHigh, Half, Swap;
    var a, b, c, d, f := Half(src % 0x1_0000), Half(src / 0x1_0000), Half(dest % 0x1_0000),
        Half(dest / 0x1_0000), Half(Swap(protoLen));
    HalfSum(src % 0x1_0000);
    HalfSum(src / 0x1_0000);
    HalfSum(dest % 0x1_0000);
    HalfSum(dest / 0x1_0000);
    HalfSum(Swap(protoLen));
    SumConcat(a, b);
    SumConcat(a + b, c);
    SumConcat(a + b + c, d);
    SumConcat(a + b + c + d, [0, proto]);
    SumConcat(a + b + c + d + [0, proto], f);
    SumTwo([0, proto], 0);
    SumEnd([0, proto][2..]);
    assert [0, proto][0..] == [0, proto];
  }

  /** The addresses' part, folded to 16 bits, as inet_chksum_pseudo passes it on. */
  function Addresses(src: u32, dest: u32): nat {
    src % 0x1_0000 + src / 0x1_0000 + dest % 0x1_0000 + dest / 0x1_0000
  }

  method SumAddresses(src: u32, dest: u32) returns (acc: u16)
    ensures acc == Rep(Addresses(src, dest))
  {
    var sum: u32 := src % 0x1_0000;
    sum := sum + src / 0x1_0000;
    sum := sum + dest % 0x1_0000;
    sum := sum + dest / 0x1_0000;
    FoldTwice(sum);
    sum := Fold(sum);
    sum := Fold(sum);
    acc := sum;
  }

  /** The end of both base functions: protocol and length are added, the sum inverted. */
  method AddProtocol(acc0: u16, proto: u8, protoLen: u16, ghost src: u32, ghost dest: u32, ghost data: seq<u8>)
    returns (r: u16)
    requires acc0 == Rep(Rep(Addresses(src, dest)) + Sum(data))
    ensures r == Inet(PseudoHeader(src, dest, proto, protoLen) + data)
  {
    hide Rep, Sum, SumHigh, Fold, Swap, PseudoHeader, Addresses;
    var acc: u32 := acc0;
    acc := acc + Word(0, proto);
    acc := acc + Swap(protoLen);
    FoldTwice(acc);
    HeaderAdds(src, dest, proto, protoLen, data);
    acc := Fold(acc);
    acc := Fold(acc);
    r := 0xffff - acc;
  }

  lemma HeaderAdds(src: u32, dest: u32, proto: u8, protoLen: u16, data: seq<u8>)
    ensures var x := Rep(Rep(Addresses(src, dest)) + Sum(data)) + Word(0, proto) + Swap(protoLen);
      Rep(x) == Standard(PseudoHeader(src, dest, proto, protoLen) + data)
  {
    hide Rep, Sum, SumHigh, Swap, PseudoHeader, Addresses, Word;
    var x := Addresses(src, dest);
    PseudoHeaderSum(src, dest, proto, protoLen);
    SumConcat(PseudoHeader(src, dest, proto, protoLen), data);
    RepAdd(x, Sum(data));
    RepAdd(x + Sum(data), Word(0, proto) + Swap(protoLen));
  }

  /** inet_chksum_pseudo with inet_cksum_pseudo_base. */
  method InetPseudo(m: P.Memory, p: P.Ptr, addr: P.Ptr -> nat, proto: u8, protoLen: u16, src: u32, dest: u32,
                    ghost c: seq<P.Ptr>)
    returns (r: u16)
    requires P.IsChain(m, p, c) && ShortPieces(m)
    ensures r == Inet(PseudoHeader(src, dest, proto, protoLen) + P.Flat(m, c))
  {
    var acc := SumAddresses(src, dest);
    acc := SumChain(m, p, addr, acc, c);
    r := AddProtocol(acc, proto, protoLen, src, dest, P.Flat(m, c));
  }

  /** The loop of inet_cksum_pseudo_partial_base.  The swap looks at the whole length of the
      last pbuf, not at the part that was summed; it is undone at the end either way. */
  method SumChainPartial(m: P.Memory, p: P.Ptr, addr: P.Ptr -> nat, chksumLen0: u16, acc0: u16, ghost c: seq<P.Ptr>)
    returns (acc: u16)
    requires P.IsChain(m, p, c) && ShortPieces(m)
    ensures var all := P.Flat(m, c); acc == Rep(acc0 + Sum(all[..Min(chksumLen0, |all|)]))
  {
    hide Rep, Sum, SumHigh, Fold, Swap, P.Flat, Word, P.Link, ShortPieces;
    acc := acc0;
    var swapped := 0;
    var chksumLen: nat := chksumLen0;
    var q := p;
    ghost var k, done, all := 0, 0, P.Flat(m, c);
    Start(m, c, acc0);
    assert all[..0] == [];
    while q != 0 && chksumLen > 0
      invariant k <= |c| && q == P.First(c[k..]) && 0 <= swapped <= 1
      invariant done + chksumLen == chksumLen0 && done <= |all|
      invariant chksumLen > 0 ==> done == |P.Flat(m, c[..k])| && swapped == done % 2
      invariant acc == Rep(Scaled(acc0 + Sum(all[..done]), swapped == 1))
      decreases |c| - k
    {
      Pbuf.PieceLies(m, p, c, k, q);
      var chklen := |m[q].data|;
      if chklen > chksumLen {
        chklen := chksumLen;
      }
      var chksum := StandardChksum2(m[q].data[..chklen], addr(q));
      chksumLen := chksumLen - chklen;
      NextPiece(acc0, all, done, m[q].data, chklen, swapped, acc);
      acc := Fold(acc + chksum);
      if |m[q].data| % 2 != 0 {
        SwapScaled(acc0 + Sum(all[..done + chklen]), swapped == 1, acc);
        swapped := 1 - swapped;
        acc := Swap(acc);
      }
      done := done + chklen;
      q := m[q].next;
      k := k + 1;
    }
    if q == 0 {
      Pbuf.ChainDone(m, p, c, k);
    }
    if swapped != 0 {
      SwapScaled(acc0 + Sum(all[..done]), true, acc);
      acc := Swap(acc);
    }
  }

  lemma SliceMore(all: seq<u8>, at: nat, piece: seq<u8>, n: nat)
    requires n <= |piece| && at + |piece| <= |all| && all[at..at + |piece|] == piece
    ensures all[..at + n] == all[..at] + piece[..n]
  {
  }

  lemma NextPiece(x: nat, all: seq<u8>, at: nat, piece: seq<u8>, n: nat, swapped: int, acc: u16)
    requires n <= |piece| && at + |piece| <= |all| && all[at..at + |piece|] == piece && swapped == at % 2
    requires acc == Rep(Scaled(x + Sum(all[..at]), swapped == 1))
    ensures Fold(acc + Standard(piece[..n])) == Rep(Scaled(x + Sum(all[..at + n]), swapped == 1))
  {
    hide Rep, Sum, Fold, Standard, Scaled;
    PieceAdds(x, all[..at], piece[..n], acc);
    SliceMore(all, at, piece, n);
  }

  /** inet_chksum_pseudo_partial with its base function. */
  method InetPseudoPartial(m: P.Memory, p: P.Ptr, addr: P.Ptr -> nat, proto: u8, protoLen: u16, chksumLen: u16,
                           src: u32, dest: u32, ghost c: seq<P.Ptr>)
    returns (r: u16)
    requires P.IsChain(m, p, c) && ShortPieces(m)
    ensures var all := P.Flat(m, c);
      r == Inet(PseudoHeader(src, dest, proto, protoLen) + all[..Min(chksumLen, |all|)])
  {
    var acc := SumAddresses(src, dest);
    acc := SumChainPartial(m, p, addr, chksumLen, acc, c);
    ghost var all := P.Flat(m, c);
    r := AddProtocol(acc, proto, protoLen, src, dest, all[..Min(chksumLen, |all|)]);
  }

  // ---------------------------------------------------------------- what a checksum is for

  /** d with the checksum written into the 16-bit field at i. */
  function Filled(d: seq<u8>, i: nat): seq<u8>
    requires i + 2 <= |d|
  {
    d[i := Inet(d) % 0x100][i + 1 := Inet(d) / 0x100]
  }

  /** The receiver's check: a packet whose zero checksum field, at an even offset, was filled
      with its checksum sums to 0. */
  lemma FilledChecks(d: seq<u8>, i: nat)
    requires i % 2 == 0 && i + 2 <= |d| && d[i] == 0 && d[i + 1] == 0
    ensures Inet(Filled(d, i)) == 0
  {
    hide Rep, Sum, SumHigh;
    var x, y := Inet(d) % 0x100, Inet(d) / 0x100;
    var e := Filled(d, i);
    assert d[..i] + d[i..] == d && e[..i] + e[i..] == e && e[..i] == d[..i] && e[i + 2..] == d[i + 2..];
    SumConcat(d[..i], d[i..]);
    SumConcat(e[..i], e[i..]);
    SumTwo(d, i);
    SumTwo(e, i);
    RepAdd(Sum(d), Inet(d));
    RepIs(0xffff, 0xffff, 0);
  }

  /** The example of section 3 of RFC 1071: the checksum goes out as 22 0d. */
  lemma ExampleOfStandard()
    ensures Half(Inet([0x00, 0x01, 0xf2, 0x03, 0xf4, 0xf5, 0xf6, 0xf7])) == [0x22, 0x0d]
  {
    hide Sum, SumHigh;
    ExampleSum();
    RepIs(0x1_f2dc, 0xf2dd, 1);
  }

  lemma ExampleSum()
    ensures Sum([0x00, 0x01, 0xf2, 0x03, 0xf4, 0xf5, 0xf6, 0xf7]) == 0x1_f2dc
  {
    hide Sum, SumHigh;
    var d: seq<u8> := [0x00, 0x01, 0xf2, 0x03, 0xf4, 0xf5, 0xf6, 0xf7];
    SumTwo(d, 0);
    SumTwo(d, 2);
    SumTwo(d, 4);
    SumTwo(d, 6);
    SumEnd(d[8..]);
    assert d[0..] == d;
  }

  /** The pseudo-header of RFC 793: the addresses byte by byte, a zero, the protocol, the length
      with its high byte first. */
  lemma PseudoHeaderIs(src: seq<u8>, dest: seq<u8>, proto: u8, len: u16)
    requires |src| == |dest| == 4
    ensures PseudoHeader(Host(src), Host(dest), proto, len) == src + dest + [0, proto, len / 0x100, len % 0x100]
  {
    HalvesOf(src);
    HalvesOf(dest);
    HalfOfSwap(len);
  }

  /** Four bytes as the word a little-endian load makes of them. */
  function Host(a: seq<u8>): u32
    requires |a| == 4
  {
    a[0] + 0x100 * (a[1] as int) + 0x1_0000 * (a[2] as int) + 0x100_0000 * (a[3] as int)
  }

  lemma HalvesOf(a: seq<u8>)
    requires |a| == 4
    ensures Half(Host(a) % 0x1_0000) + Half(Host(a) / 0x1_0000) == a
  {
    hide Half;
    var lo, hi := Word(a[0], a[1]), Word(a[2], a[3]);
    SplitWord(lo, hi);
    HalfOfWord(a[0], a[1]);
    HalfOfWord(a[2], a[3]);
    assert Host(a) == lo + 0x1_0000 * (hi as int);
  }

  lemma SplitWord(lo: u16, hi: u16)
    ensures (lo + 0x1_0000 * (hi as int)) % 0x1_0000 == lo && (lo + 0x1_0000 * (hi as int)) / 0x1_0000 == hi
  {
  }

  lemma HalfOfWord(lo: u8, hi: u8)
    ensures Half(Word(lo, hi)) == [lo, hi]
  {
  }

  lemma HalfOfSwap(w: u16)
    ensures Half(Swap(w)) == [w / 0x100, w % 0x100]
  {
  }

  /** One 16-bit word at an even offset replaced by another: the checksum stays the same if and
      only if the word does, or one of the two forms of zero became the other beside something
      that is not zero. */
  lemma ChangeDetected(a: seq<u8>, x: seq<u8>, y: seq<u8>, b: seq<u8>)
    requires |a| % 2 == 0 && |x| == |y| == 2
    ensures Inet(a + x + b) == Inet(a + y + b) <==>
      || x == y
      || (Sum(a + b) > 0 && ((x == [0, 0] && y == [0xff, 0xff]) || (x == [0xff, 0xff] && y == [0, 0])))
  {
    hide Sum, SumHigh, Rep, Word;
    var s := Sum(a + b);
    SumWithWord(a, x, b);
    SumWithWord(a, y, b);
    RepEqual(s + Word(x[0], x[1]), s + Word(y[0], y[1]));
    WordsDiffer(x, y);
  }

  lemma WordsDiffer(x: seq<u8>, y: seq<u8>)
    requires |x| == |y| == 2
    ensures Word(x[0], x[1]) == Word(y[0], y[1]) <==> x == y
    ensures Word(x[0], x[1]) - Word(y[0], y[1]) == 0xffff <==> x == [0xff, 0xff] && y == [0, 0]
    ensures Word(y[0], y[1]) - Word(x[0], x[1]) == 0xffff <==> y == [0xff, 0xff] && x == [0, 0]
    ensures x == [0, 0] ==> Word(x[0], x[1]) == 0
    ensures y == [0, 0] ==> Word(y[0], y[1]) == 0
  {
    assert x == [x[0], x[1]] && y == [y[0], y[1]];
  }

  lemma SumWithWord(a: seq<u8>, x: seq<u8>, b: seq<u8>)
    requires |a| % 2 == 0 && |x| == 2
    ensures Sum(a + x + b) == Sum(a + b) + Word(x[0], x[1])
  {
    hide Sum, SumHigh;
    SumConcat(a + x, b);
    SumConcat(a, x);
    SumConcat(a, b);
    SumTwo(x, 0);
    SumEnd(x[2..]);
    assert x[0..] == x;
  }

  lemma RepEqual(x: nat, y: nat)
    requires -0xffff <= x - y <= 0xffff
    ensures Rep(x) == Rep(y) <==> x == y || (x - y in {0xffff, -0xffff} && x > 0 && y > 0)
  {
    var i := RepOf(x);
    var j := RepOf(y);
    if x - y == 0xffff && y > 0 { RepTurns(y, 1); }
    if y - x == 0xffff && x > 0 { RepTurns(x, 1); }
  }
}
