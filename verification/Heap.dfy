/** The lwIP heap as the C code runs it: headers are bytes inside the arena, linked by
    offsets, and `lfree` caches the lowest free one.  Every method is proved against the
    function of the same name on layouts. */
module Heap {
  import opened Words
  import L = HeapLayout

  type Layout = L.Layout

  // ---------------------------------------------------------------- headers as bytes

  function Next(s: seq<u8>, p: nat): u16
    requires p + L.HDR <= |s|
  {
    (s[p] as int) + 0x100 * (s[p + 1] as int)
  }

  function Prev(s: seq<u8>, p: nat): u16
    requires p + L.HDR <= |s|
  {
    (s[p + 2] as int) + 0x100 * (s[p + 3] as int)
  }

  function Used(s: seq<u8>, p: nat): u8
    requires p + L.HDR <= |s|
  {
    s[p + 4]
  }

  /** Only the header at p may differ. */
  ghost predicate OnlyHeader(s: seq<u8>, t: seq<u8>, p: nat) {
    |s| == |t| && forall j :: 0 <= j < |s| && !(p <= j < p + L.HDR) ==> s[j] == t[j]
  }

  /** Header q reads the same in s and t. */
  ghost predicate SameHeader(s: seq<u8>, t: seq<u8>, q: nat)
    requires q + L.HDR <= |s| && q + L.HDR <= |t|
  {
    Next(s, q) == Next(t, q) && Prev(s, q) == Prev(t, q) && Used(s, q) == Used(t, q)
  }

  lemma FarHeader(s: seq<u8>, t: seq<u8>, p: nat, q: nat)
    requires OnlyHeader(s, t, p) && q + L.HDR <= |s|
    requires q + L.HDR <= p || p + L.HDR <= q
    ensures SameHeader(s, t, q)
  {
  }

  /** The header of block i says what the layout says. */
  ghost predicate HeaderOk(s: seq<u8>, l: Layout, i: nat)
    requires i < |l|
  {
    var p := l[i].start;
    && p + L.HDR <= |s|
    && Next(s, p) == L.Start(l, i + 1)
    && Prev(s, p) == (if i == 0 then 0 else l[i - 1].start)
    && Used(s, p) == (if l[i].used then 1 else 0)
  }

  /** The arena bytes hold the layout.  The sentinel's own `prev` is left out: mem_malloc
      and mem_trim do not maintain it. */
  ghost predicate Holds(s: seq<u8>, l: Layout) {
    && |s| == L.MEM_SIZE + L.HDR
    && Next(s, L.MEM_SIZE) == L.MEM_SIZE
    && Used(s, L.MEM_SIZE) == 1
    && forall i {:trigger HeaderOk(s, l, i)} :: 0 <= i < |l| ==> HeaderOk(s, l, i)
  }

  /** The payloads x in live keep their bytes. */
  ghost predicate PayloadsKept(s: seq<u8>, t: seq<u8>, live: set<(int, int)>) {
    |s| == |t| && forall x, j {:trigger x in live, s[j]} | x in live :: 0 <= x.0 <= j < x.1 <= |s| ==> s[j] == t[j]
  }

  /** Only headers at p, q and r may differ. */
  ghost predicate OnlyHeaders(s: seq<u8>, t: seq<u8>, p: nat, q: nat, r: nat) {
    && |s| == |t|
    && forall j :: 0 <= j < |s| && !(p <= j < p + L.HDR) && !(q <= j < q + L.HDR) && !(r <= j < r + L.HDR)
        ==> s[j] == t[j]
  }

  lemma FarFromHeaders(s: seq<u8>, t: seq<u8>, p: nat, q: nat, r: nat, h: nat)
    requires OnlyHeaders(s, t, p, q, r) && h + L.HDR <= |s|
    requires h + L.HDR <= p || p + L.HDR <= h
    requires h + L.HDR <= q || q + L.HDR <= h
    requires h + L.HDR <= r || r + L.HDR <= h
    ensures SameHeader(s, t, h)
  {
  }

  /** Headers of blocks lie inside the arena and apart from each other. */
  lemma HeadersApart(l: Layout, i: nat, j: nat)
    requires L.Tiled(l) && i <= |l| && j <= |l| && i != j
    ensures L.Start(l, i) + L.HDR + L.MIN_SIZE <= L.Start(l, j) || L.Start(l, j) + L.HDR + L.MIN_SIZE <= L.Start(l, i)
    ensures L.Start(l, i) <= L.MEM_SIZE && L.Start(l, j) <= L.MEM_SIZE
  {
    L.Increasing(l, L.Lower(i, j), L.Upper(i, j));
    if L.Upper(i, j) < |l| { L.Increasing(l, L.Upper(i, j), |l|); }
  }

  /** A header that no write came near still holds its block, if the block's own
      neighbours are the same. */
  lemma HeaderCarried(s: seq<u8>, t: seq<u8>, l: Layout, i: nat, m: Layout, j: nat)
    requires i < |l| && j < |m| && l[i] == m[j] && HeaderOk(s, l, i)
    requires L.Start(l, i + 1) == L.Start(m, j + 1)
    requires (if i == 0 then 0 else l[i - 1].start) == (if j == 0 then 0 else m[j - 1].start)
    requires |s| == |t| && SameHeader(s, t, l[i].start)
    ensures HeaderOk(t, m, j)
  {
  }

  /** Writes into headers of blocks, or into free room, leave live payloads alone. */
  lemma PayloadsUntouched(s: seq<u8>, t: seq<u8>, l: Layout, live: set<(int, int)>, p: nat, q: nat, r: nat)
    requires L.Tiled(l) && OnlyHeaders(s, t, p, q, r) && live <= L.Live(l)
    requires forall x | x in live :: Clear(x, p) && Clear(x, q) && Clear(x, r)
    ensures PayloadsKept(s, t, live)
  {
  }

  ghost predicate Clear(x: (int, int), p: int) {
    x.1 <= p || p + L.HDR <= x.0
  }

  /** Block headers never overlap a live payload. */
  lemma PayloadClearOfHeader(l: Layout, x: (int, int), i: nat)
    requires L.Tiled(l) && x in L.Live(l) && i <= |l|
    ensures Clear(x, L.Start(l, i))
  {
    var k :| 0 <= k < |l| && l[k].used && L.Extent(l, k) == x;
    if i < k {
      L.Increasing(l, i, k);
    } else if k + 1 < i {
      L.Increasing(l, k + 1, i);
    }
  }

  /** What following `next` from block i finds. */
  lemma ReadAbove(s: seq<u8>, l: Layout, i: nat)
    requires L.Tiled(l) && Holds(s, l) && i < |l|
    ensures l[i].start + L.HDR <= |s| && Next(s, l[i].start) == L.Start(l, i + 1)
    ensures l[i].start < L.Start(l, i + 1) <= L.MEM_SIZE && (L.Start(l, i + 1) == L.MEM_SIZE <==> i + 1 == |l|)
    ensures Used(s, l[i].start) == 0 <==> !l[i].used
    ensures i + 1 < |l| ==>
      && (Used(s, L.Start(l, i + 1)) == 0 <==> !l[i + 1].used)
      && Next(s, L.Start(l, i + 1)) == L.Start(l, i + 2)
  {
    assert HeaderOk(s, l, i);
    L.Increasing(l, i, i + 1);
    if i + 1 < |l| {
      assert HeaderOk(s, l, i + 1);
      L.Increasing(l, i + 1, |l|);
    }
  }

  /** What following `prev` from block i finds. */
  lemma ReadBelow(s: seq<u8>, l: Layout, i: nat)
    requires L.Tiled(l) && Holds(s, l) && i < |l|
    ensures l[i].start + L.HDR <= |s| && Prev(s, l[i].start) == (if i == 0 then l[i].start else l[i - 1].start)
    ensures i > 0 ==> l[i - 1].start < l[i].start && (Used(s, l[i - 1].start) == 0 <==> !l[i - 1].used)
  {
    assert HeaderOk(s, l, i);
    if i > 0 {
      assert HeaderOk(s, l, i - 1);
      L.Increasing(l, i - 1, i);
    }
  }

  ghost predicate SameRange(s: seq<u8>, t: seq<u8>, a: nat, b: nat) {
    a <= b <= |s| == |t| && forall j :: a <= j < b ==> s[j] == t[j]
  }

  class Arena {
    const ram: array<u8>
    var lfree: nat
    ghost var blocks: Layout

    ghost predicate Valid()
      reads this, ram
    {
      && ram.Length == L.MEM_SIZE + L.HDR
      && L.Wf(blocks)
      && Holds(ram[..], blocks)
      && lfree == L.Start(blocks, L.LowestFree(blocks))
    }

    method SetNext(p: nat, v: u16)
      requires p + L.HDR <= ram.Length
      modifies ram
      ensures OnlyHeader(old(ram[..]), ram[..], p)
      ensures Next(ram[..], p) == v && Prev(ram[..], p) == Prev(old(ram[..]), p)
        && Used(ram[..], p) == Used(old(ram[..]), p)
    {
      ram[p], ram[p + 1] := v % 0x100, v / 0x100;
    }

    method SetPrev(p: nat, v: u16)
      requires p + L.HDR <= ram.Length
      modifies ram
      ensures OnlyHeader(old(ram[..]), ram[..], p)
      ensures Next(ram[..], p) == Next(old(ram[..]), p) && Prev(ram[..], p) == v
        && Used(ram[..], p) == Used(old(ram[..]), p)
    {
      ram[p + 2], ram[p + 3] := v % 0x100, v / 0x100;
    }

    method SetUsed(p: nat, v: u8)
      requires p + L.HDR <= ram.Length
      modifies ram
      ensures OnlyHeader(old(ram[..]), ram[..], p)
      ensures Next(ram[..], p) == Next(old(ram[..]), p) && Prev(ram[..], p) == Prev(old(ram[..]), p)
        && Used(ram[..], p) == v
    {
      ram[p + 4] := v;
    }

    method SetHeader(p: nat, next: u16, prev: u16, used: u8)
      requires p + L.HDR <= ram.Length
      modifies ram
      ensures OnlyHeader(old(ram[..]), ram[..], p)
      ensures Next(ram[..], p) == next && Prev(ram[..], p) == prev && Used(ram[..], p) == used
    {
      SetUsed(p, used);
      SetNext(p, next);
      SetPrev(p, prev);
    }

    /** mem_init. */
    constructor ()
      ensures Valid() && blocks == L.InitLayout && fresh(ram)
    {
      ram := new u8[L.MEM_SIZE + L.HDR](_ => 0);
      lfree := 0;
      blocks := L.InitLayout;
      new;
      SetNext(0, L.MEM_SIZE);
      SetPrev(0, 0);
      SetUsed(0, 0);
      ghost var s := ram[..];
      SetUsed(L.MEM_SIZE, 1);
      SetNext(L.MEM_SIZE, L.MEM_SIZE);
      SetPrev(L.MEM_SIZE, L.MEM_SIZE);
      assert HeaderOk(ram[..], blocks, 0);
      assert L.GapOk(blocks, 0);
    }

    /** mem_malloc; the pointer is an offset into the arena, NULL is None. */
    method Malloc(request: u16) returns (rmem: Option<nat>)
      requires Valid()
      modifies this, ram
      ensures Valid()
      ensures var size := L.Rounded(request); var i := L.FirstFit(old(blocks), size);
        if request == 0 || size > L.MEM_SIZE || i == |old(blocks)| then rmem == None && blocks == old(blocks)
        else rmem == Some(old(blocks)[i].start + L.HDR) && blocks == L.Malloc(old(blocks), size)
      ensures PayloadsKept(old(ram[..]), ram[..], L.Live(old(blocks)))
    {
      hide L.GapOk, L.PairOk, Used;
      if request == 0 {
        return None;
      }
      var size := L.AlignSize(request);
      if size < L.MIN_SIZE {
        size := L.MIN_SIZE;
      }
      if size > L.MEM_SIZE {
        return None;
      }
      L.RoundedCoversRequest(request);
      ghost var k := L.LowestFree(blocks);
      var ptr := lfree;
      while ptr < L.MEM_SIZE - size
        invariant k <= |blocks| && ptr == L.Start(blocks, k)
        invariant forall j :: 0 <= j < k ==> !L.Fits(blocks, j, size)
        decreases |blocks| - k
      {
        assert HeaderOk(ram[..], blocks, k) && L.GapOk(blocks, k);
        if Used(ram[..], ptr) == 0 && Next(ram[..], ptr) - (ptr + L.HDR) >= size {
          FirstFitIs(blocks, size, k);
          TakeBlock(ptr, size, k);
          return Some(ptr + L.HDR);
        }
        ptr := Next(ram[..], ptr);
        k := k + 1;
      }
      forall j | 0 <= j < |blocks| ensures !L.Fits(blocks, j, size) {
        if k < j { L.Increasing(blocks, k, j); }
        assert L.GapOk(blocks, j);
        if j + 1 < |blocks| { L.Increasing(blocks, j + 1, |blocks|); }
      }
      rmem := None;
    }

    /** The body of the search loop once block k is chosen: carve it out, then move
        `lfree` past what is used now. */
    method TakeBlock(ptr: nat, size: nat, ghost k: nat)
      requires Valid() && k < |blocks| && ptr == blocks[k].start && L.Fits(blocks, k, size)
      requires size >= L.MIN_SIZE && size % L.MEM_ALIGNMENT == 0
      modifies this, ram
      ensures Valid() && blocks == L.Take(old(blocks), k, size)
      ensures PayloadsKept(old(ram[..]), ram[..], L.Live(old(blocks)))
    {
      ghost var l := blocks;
      ghost var low := L.LowestFree(l);
      if k != low { HeadersApart(l, k, low); }
      L.TakeKeepsWf(l, k, size);
      Carve(ptr, size, k);
      blocks := L.Take(l, k, size);
      if ptr == lfree {
        lfree := NextFree(ptr, k);
      } else {
        LowestFreeIs(blocks, low);
      }
    }

    /** Split block k, or take it whole. */
    method Carve(ptr: nat, size: nat, ghost k: nat)
      requires Valid() && k < |blocks| && ptr == blocks[k].start && L.Fits(blocks, k, size)
      requires size >= L.MIN_SIZE && size % L.MEM_ALIGNMENT == 0
      modifies ram
      ensures Holds(ram[..], L.Take(blocks, k, size))
      ensures PayloadsKept(old(ram[..]), ram[..], L.Live(blocks))
    {
      hide L.Tiled, L.Live, Holds, PayloadsKept;
      ghost var l, s := blocks, ram[..];
      ReadAbove(s, l, k);
      var next := Next(ram[..], ptr);
      if next - (ptr + L.HDR) >= size + L.HDR + L.MIN_SIZE {
        var ptr2 := ptr + L.HDR + size;
        RoomBounds(l, k, k + 1, ptr2);
        Link(ptr, ptr2, next);
        SetUsed(ptr, 1);
        HungBytes(s, ram[..], l, k, k + 1, ptr2);
        HungPayloads(s, ram[..], l, k, k + 1, ptr2, L.Live(l));
      } else {
        SetUsed(ptr, 1);
        WholeBytes(s, ram[..], l, k, size);
      }
    }

    /** Find the next free block from block k on, knowing none is free below it. */
    method NextFree(ptr: nat, ghost k: nat) returns (cur: nat)
      requires ram.Length == L.MEM_SIZE + L.HDR && L.Wf(blocks) && Holds(ram[..], blocks)
      requires k < |blocks| && ptr == blocks[k].start && forall j :: 0 <= j < k ==> blocks[j].used
      ensures cur == L.Start(blocks, L.LowestFree(blocks))
    {
      ghost var c := k;
      cur := ptr;
      assert HeaderOk(ram[..], blocks, c) && L.GapOk(blocks, c);
      while Used(ram[..], cur) != 0 && cur != L.MEM_SIZE
        invariant c <= |blocks| && cur == L.Start(blocks, c)
        invariant c < |blocks| ==> HeaderOk(ram[..], blocks, c) && L.GapOk(blocks, c)
        invariant forall j :: 0 <= j < c ==> blocks[j].used
        decreases |blocks| - c
      {
        if c < |blocks| { HeadersApart(blocks, c, |blocks|); }
        cur := Next(ram[..], cur);
        c := c + 1;
        if c < |blocks| { assert HeaderOk(ram[..], blocks, c) && L.GapOk(blocks, c); }
      }
      if c < |blocks| { HeadersApart(blocks, c, |blocks|); }
      LowestFreeIs(blocks, c);
    }

    /** What a client does with the payload x it holds: a byte of it is written.  The heap and
        all other payloads stay as they are. */
    method Store(at: nat, v: u8, ghost x: (int, int))
      requires Valid() && x in L.Live(blocks) && x.0 <= at < x.1
      modifies ram
      ensures Valid() && at < ram.Length && ram[..] == old(ram[..])[at := v]
      ensures PayloadsKept(old(ram[..]), ram[..], L.Live(blocks) - {x})
    {
      hide L.Tiled, L.LiveIn, Holds;
      L.LiveInBounds(blocks, 0, |blocks|, x);
      StoreKeeps(ram[..], blocks, at, v, x);
      ram[at] := v;
    }

    /** mem_free.  NULL and pointers outside the heap are ignored; the assertion on
        `mem->used` demands that any other pointer is a live payload. */
    method Free(rmem: Option<int>)
      requires Valid()
      requires rmem.Some? && 0 <= rmem.value < L.MEM_SIZE ==> L.Legal(blocks, L.OpFree(rmem.value))
      modifies this, ram
      ensures Valid()
      ensures if rmem.None? || !(0 <= rmem.value < L.MEM_SIZE) then blocks == old(blocks) && ram[..] == old(ram[..])
        else blocks == L.Free(old(blocks), L.BlockOf(old(blocks), rmem.value))
      ensures PayloadsKept(old(ram[..]), ram[..], L.Live(blocks))
    {
      if rmem == None {
        return;
      }
      if rmem.value < 0 || rmem.value >= L.MEM_SIZE {
        return;
      }
      ghost var l, s := blocks, ram[..];
      ghost var i := L.BlockOf(l, rmem.value);
      ghost var low := L.LowestFree(l);
      var mem := rmem.value - L.HDR;
      assert HeaderOk(s, l, i) && L.GapOk(l, i);
      HeadersApart(l, i, low);
      if low < i { L.Increasing(l, low, i); } else { L.Increasing(l, i, low); }
      SetUsed(mem, 0);
      if mem < lfree {
        lfree := mem;
      }
      FreedBytes(s, ram[..], l, i);
      blocks := l[i := L.Block(mem, false)];
      LowestFreeIs(blocks, L.Lower(i, low));
      PlugHoles(mem, i);
      L.FreeKeepsWf(l, i);
    }

    /** plug_holes: merge the freed block i with a free block above, then below. */
    method PlugHoles(mem: nat, ghost i: nat)
      requires ram.Length == L.MEM_SIZE + L.HDR && L.Tiled(blocks) && Holds(ram[..], blocks)
      requires i < |blocks| && !blocks[i].used && mem == blocks[i].start
      requires LfreeNear(blocks, lfree, i)
      modifies this, ram
      ensures L.Tiled(blocks) && Holds(ram[..], blocks)
      ensures blocks == L.PlugBackward(L.PlugForward(old(blocks), i), i)
      ensures lfree == L.Start(blocks, L.LowestFree(blocks))
      ensures L.Live(blocks) == L.Live(old(blocks)) && PayloadsKept(old(ram[..]), ram[..], L.Live(blocks))
    {
      hide L.LowestFree, L.LiveIn, L.Live, L.Tiled, Next, Prev, Used;
      ghost var a := blocks;
      ReadAbove(ram[..], a, i);
      LowestFreeAtMost(a, i);
      var nmem := Next(ram[..], mem);
      if mem != nmem && Used(ram[..], nmem) == 0 && nmem != L.MEM_SIZE {
        if lfree == nmem {
          lfree := mem;
        }
        Merge(mem, Next(ram[..], nmem), i);
      }
      assert blocks == L.PlugForward(a, i);
      ghost var b := blocks;
      ReadAbove(ram[..], b, i);
      ReadBelow(ram[..], b, i);
      if i > 0 && !b[i - 1].used { LowestFreeAtMost(b, i - 1); }
      var pmem := Prev(ram[..], mem);
      if pmem != mem && Used(ram[..], pmem) == 0 {
        if lfree == mem {
          lfree := pmem;
        }
        Merge(pmem, Next(ram[..], mem), i - 1);
      }
    }

    /** Unlink the header above the one at p: its `next` becomes ours, and the header it
        pointed to points back at us. */
    method Merge(p: nat, above: nat, ghost i: nat)
      requires ram.Length == L.MEM_SIZE + L.HDR && L.Tiled(blocks) && Holds(ram[..], blocks)
      requires i + 1 < |blocks| && !blocks[i].used && !blocks[i + 1].used
      requires p == blocks[i].start && above == L.Start(blocks, i + 2)
      modifies ram, this`blocks
      ensures L.Tiled(blocks) && Holds(ram[..], blocks) && blocks == L.Absorb(old(blocks), i)
      ensures L.Start(blocks, L.LowestFree(blocks)) == L.Start(old(blocks), L.LowestFree(old(blocks)))
      ensures L.Live(blocks) == L.Live(old(blocks)) && PayloadsKept(old(ram[..]), ram[..], L.Live(blocks))
    {
      ghost var s := ram[..];
      HeadersApart(blocks, i, i + 2);
      assert HeaderOk(s, blocks, i);
      if i + 2 < |blocks| { assert HeaderOk(s, blocks, i + 2); }
      SetNext(p, above);
      SetPrev(above, p);
      MergedBytes(s, ram[..], blocks, i);
      L.AbsorbFree(blocks, i);
      blocks := L.Absorb(blocks, i);
    }

    /** mem_trim.  A pointer inside the heap must be a live payload. */
    method Trim(rmem: int, newsize: u16) returns (r: Option<int>)
      requires Valid()
      requires 0 <= rmem < L.MEM_SIZE ==> L.Legal(blocks, L.OpTrim(rmem, newsize))
      modifies this, ram
      ensures Valid()
      ensures r.Some? ==> r.value == rmem
      ensures !(0 <= rmem < L.MEM_SIZE) ==>
        (r == None <==> L.Rounded(newsize) > L.MEM_SIZE) && blocks == old(blocks) && ram[..] == old(ram[..])
      ensures 0 <= rmem < L.MEM_SIZE ==>
        var size := L.Rounded(newsize); var i := L.BlockOf(old(blocks), rmem);
        && (r == None <==> size > L.Room(old(blocks), i))
        && blocks == L.Trim(old(blocks), i, size)
        && (r.Some? ==> SameRange(old(ram[..]), ram[..], rmem, rmem + size))
        && i < |blocks| && PayloadsKept(old(ram[..]), ram[..], L.Live(blocks) - {L.Extent(blocks, i)})
    {
      hide Next;
      if 0 <= rmem < L.MEM_SIZE { HeadersApart(blocks, L.BlockOf(blocks, rmem), L.BlockOf(blocks, rmem) + 1); }
      var size := L.AlignSize(newsize);
      if size < L.MIN_SIZE {
        size := L.MIN_SIZE;
      }
      if size > L.MEM_SIZE {
        return None;
      }
      if rmem < 0 || rmem >= L.MEM_SIZE {
        return Some(rmem);
      }
      L.RoundedCoversRequest(newsize);
      ghost var l, s := blocks, ram[..];
      ghost var i := L.BlockOf(l, rmem);
      var ptr := rmem - L.HDR;
      assert HeaderOk(s, l, i) && L.GapOk(l, i);
      HeadersApart(l, i, i + 1);
      var next := Next(ram[..], ptr);
      var room := next - ptr - L.HDR;
      if size > room {
        return None;
      }
      if size == room {
        return Some(rmem);
      }
      Shrink(ptr, next, size, i);
      L.TrimShrinks(l, i, size);
      KeptSubset(s, ram[..], L.Live(l) - {L.Extent(l, i)}, L.Live(blocks) - {L.Extent(blocks, i)});
      return Some(rmem);
    }

    /** Give up the bytes of block i past size: to the free block above by moving its
        header down, or to a new free block. */
    method Shrink(ptr: nat, next: nat, size: nat, ghost i: nat)
      requires Valid() && i < |blocks| && blocks[i].used && ptr == blocks[i].start && next == L.Start(blocks, i + 1)
      requires L.MIN_SIZE <= size < L.Room(blocks, i) && size % L.MEM_ALIGNMENT == 0
      modifies this, ram
      ensures Valid() && blocks == L.Trim(old(blocks), i, size)
      ensures SameRange(old(ram[..]), ram[..], ptr + L.HDR, ptr + L.HDR + size)
      ensures PayloadsKept(old(ram[..]), ram[..], L.Live(old(blocks)) - {L.Extent(old(blocks), i)})
    {
      hide L.Tiled, L.LowestFree, L.LiveIn, L.Live, HungRoom, Used, Next;
      ghost var l, s := blocks, ram[..];
      ApartFromRoom(l, i, i + 1, i + 1);
      if i + 1 < |l| { assert HeaderOk(s, l, i + 1); }
      L.TrimKeepsWf(l, i, size);
      var ptr2 := ptr + L.HDR + size;
      if Used(ram[..], next) == 0 {
        var last := Next(ram[..], next);
        TrimIsHung(l, i, i + 2, size);
        Rehang(ptr, ptr2, last, i, i + 2);
        if lfree == next {
          lfree := ptr2;
        }
        blocks := Hung(l, i, i + 2, ptr2);
        HungShrinks(s, ram[..], l, i, i + 2, ptr2);
      } else if size + L.HDR + L.MIN_SIZE <= next - ptr - L.HDR {
        TrimIsHung(l, i, i + 1, size);
        Rehang(ptr, ptr2, next, i, i + 1);
        if ptr2 < lfree {
          lfree := ptr2;
        }
        blocks := Hung(l, i, i + 1, ptr2);
        HungShrinks(s, ram[..], l, i, i + 1, ptr2);
      }
    }

    /** Create a free header at ptr2 after the used block i, pointing at `last`, the header
        of old block k. */
    method Rehang(ptr: nat, ptr2: nat, last: nat, ghost i: nat, ghost k: nat)
      requires ram.Length == L.MEM_SIZE + L.HDR && L.Tiled(blocks) && Holds(ram[..], blocks)
      requires i < k <= |blocks| && HungRoom(blocks, i, k, ptr2) && blocks[i].used
      requires ptr == blocks[i].start && last == L.Start(blocks, k)
      modifies ram
      ensures Holds(ram[..], Hung(blocks, i, k, ptr2))
      ensures OnlyHeaders(old(ram[..]), ram[..], ptr, ptr2, Third(blocks, i, k))
    {
      hide L.Tiled, HungRoom, Linked;
      ghost var s := ram[..];
      assert HeaderOk(s, blocks, i);
      RoomBounds(blocks, i, k, ptr2);
      Link(ptr, ptr2, last);
      HungBytes(s, ram[..], blocks, i, k, ptr2);
    }

    /** Write a free header at ptr2 between the headers at ptr and last. */
    method Link(ptr: nat, ptr2: nat, last: nat)
      requires ptr + L.HDR <= ptr2 && ptr2 + L.HDR <= last <= L.MEM_SIZE && ram.Length == L.MEM_SIZE + L.HDR
      modifies ram
      ensures Linked(old(ram[..]), ram[..], ptr, ptr2, last, old(Used(ram[..], ptr)))
    {
      SetHeader(ptr2, last, ptr, 0);
      SetNext(ptr, ptr2);
      if last != L.MEM_SIZE {
        SetPrev(last, ptr2);
      }
    }
  }

  /** `lfree` names the lowest free block, or a free neighbour of block i that merging
      with block i is about to make part of the lowest one. */
  ghost predicate LfreeNear(l: Layout, lfree: nat, i: nat)
    requires i < |l|
  {
    || lfree == L.Start(l, L.LowestFree(l))
    || (i + 1 < |l| && !l[i + 1].used && lfree == l[i + 1].start && L.LowestFree(l) == i)
    || (i > 0 && lfree == l[i].start && L.LowestFree(l) == i - 1)
  }

  /** A byte of a payload is no byte of a header, nor of another payload. */
  lemma StoreKeeps(s: seq<u8>, l: Layout, at: nat, v: u8, x: (int, int))
    requires L.Wf(l) && Holds(s, l) && x in L.Live(l) && x.0 <= at < x.1 <= |s|
    ensures Holds(s[at := v], l) && PayloadsKept(s, s[at := v], L.Live(l) - {x})
  {
    hide L.Tiled, L.LiveIn;
    var t := s[at := v];
    PayloadClearOfHeader(l, x, |l|);
    forall i {:trigger HeaderOk(t, l, i)} | 0 <= i < |l| ensures HeaderOk(t, l, i) {
      assert HeaderOk(s, l, i);
      PayloadClearOfHeader(l, x, i);
    }
    forall y | y in L.Live(l) - {x} ensures !(y.0 <= at < y.1) {
      L.LivePayloadsDisjoint(l, x, y);
    }
  }

  lemma KeptSubset(s: seq<u8>, t: seq<u8>, big: set<(int, int)>, small: set<(int, int)>)
    requires PayloadsKept(s, t, big) && small <= big
    ensures PayloadsKept(s, t, small)
  {
  }

  lemma LowestFreeAtMost(l: Layout, i: nat)
    requires L.Tiled(l) && i < |l| && !l[i].used
    ensures L.LowestFree(l) <= i && L.Start(l, L.LowestFree(l)) <= l[i].start
  {
    if L.LowestFree(l) < i { L.Increasing(l, L.LowestFree(l), i); }
  }

  lemma FirstFitIs(l: Layout, size: nat, k: nat)
    requires k < |l| && L.Fits(l, k, size) && forall j :: 0 <= j < k ==> !L.Fits(l, j, size)
    ensures L.FirstFit(l, size) == k
  {
  }

  lemma LowestFreeIs(l: Layout, k: nat)
    requires k <= |l| && (forall j :: 0 <= j < k ==> l[j].used) && (k < |l| ==> !l[k].used)
    ensures L.LowestFree(l) == k
  {
  }

  /** Taking block k whole rewrites one `used` flag. */
  lemma WholeBytes(s: seq<u8>, t: seq<u8>, l: Layout, k: nat, size: nat)
    requires L.Wf(l) && Holds(s, l) && k < |l| && L.Fits(l, k, size)
    requires L.Room(l, k) < size + L.HDR + L.MIN_SIZE
    requires l[k].start + L.HDR <= |s| && OnlyHeader(s, t, l[k].start)
    requires Next(t, l[k].start) == Next(s, l[k].start) && Prev(t, l[k].start) == Prev(s, l[k].start)
    requires Used(t, l[k].start) == 1
    ensures Holds(t, L.Take(l, k, size)) && PayloadsKept(s, t, L.Live(l))
  {
    var r := L.Take(l, k, size);
    var p := l[k].start;
    assert HeaderOk(s, l, k);
    HeadersApart(l, k, |l|);
    FarHeader(s, t, p, L.MEM_SIZE);
    forall j {:trigger HeaderOk(t, r, j)} | 0 <= j < |r| ensures HeaderOk(t, r, j) {
      if j != k {
        assert HeaderOk(s, l, j);
        HeadersApart(l, j, k);
        FarHeader(s, t, p, l[j].start);
        HeaderCarried(s, t, l, j, r, j);
      }
    }
    forall x | x in L.Live(l) ensures Clear(x, p) {
      PayloadClearOfHeader(l, x, k);
    }
    PayloadsUntouched(s, t, l, L.Live(l), p, p, p);
  }

  /** A free header hung at p2 after block i, which is in use; block k of l comes next. */
  function Hung(l: Layout, i: nat, k: nat, p2: nat): Layout
    requires i < k <= |l|
  {
    l[..i] + [L.Block(l[i].start, true), L.Block(p2, false)] + l[k..]
  }

  /** The third header such a change writes: `prev` of block k, unless that is the sentinel. */
  function Third(l: Layout, i: nat, k: nat): nat
    requires i < k
  {
    if L.Start(l, k) == L.MEM_SIZE then L.Start(l, i) else L.Start(l, k)
  }

  /** Where hanging in a header leaves the blocks around it. */
  ghost predicate HungRoom(l: Layout, i: nat, k: nat, p2: nat)
    requires i < k <= |l|
  {
    && l[i].start + L.HDR <= p2 && p2 + L.HDR <= L.Start(l, k)
    && forall m :: i < m < k ==> !l[m].used
  }

  /** Blocks outside [i, k) lie apart from the room in which the header is hung. */
  lemma ApartFromRoom(l: Layout, i: nat, k: nat, m: nat)
    requires L.Tiled(l) && i < k <= |l| && m <= |l| && (m < i || k <= m)
    ensures if m < i then L.Start(l, m) + L.HDR <= L.Start(l, i) && L.Start(l, m) + L.HDR <= L.Start(l, k)
      else L.Start(l, k) <= L.Start(l, m) && L.Start(l, i) + L.HDR <= L.Start(l, m)
    ensures k < m ==> L.Start(l, k) + L.HDR <= L.Start(l, m)
    ensures L.Start(l, m) <= L.MEM_SIZE && (m < |l| ==> L.Start(l, m) + L.HDR <= L.MEM_SIZE)
    ensures L.Start(l, k) <= L.MEM_SIZE && (k < |l| ==> L.Start(l, k) < L.MEM_SIZE)
  {
    hide L.Tiled;
    HeadersApart(l, i, k);
    if m < i {
      L.Increasing(l, m, i);
    } else if k < m {
      L.Increasing(l, k, m);
    }
    if m < i { L.Increasing(l, m, k); } else { L.Increasing(l, i, m); }
    if m < |l| { L.Increasing(l, m, |l|); }
    if k < |l| { L.Increasing(l, k, |l|); }
  }

  /** What linking leaves in the three headers: `used` is the flag of the one at p. */
  ghost predicate Linked(s: seq<u8>, t: seq<u8>, p: nat, p2: nat, last: nat, used: u8)
    requires p + L.HDR <= |s| && p + L.HDR <= |t| && p2 + L.HDR <= |t| && last + L.HDR <= |s| && last + L.HDR <= |t|
  {
    && OnlyHeaders(s, t, p, p2, if last == L.MEM_SIZE then p else last)
    && Next(t, p) == p2 && Prev(t, p) == Prev(s, p) && Used(t, p) == used
    && Next(t, p2) == last && Prev(t, p2) == p && Used(t, p2) == 0
    && Next(t, last) == Next(s, last) && Used(t, last) == Used(s, last)
    && (last != L.MEM_SIZE ==> Prev(t, last) == p2)
  }

  lemma RoomBounds(l: Layout, i: nat, k: nat, p2: nat)
    requires L.Tiled(l) && i < k <= |l| && HungRoom(l, i, k, p2)
    ensures l[i].start + L.HDR <= p2 && p2 + L.HDR <= L.Start(l, k) <= L.MEM_SIZE
    ensures k < |l| ==> L.Start(l, k) < L.MEM_SIZE
  {
    hide L.Tiled;
    ApartFromRoom(l, i, k, k);
  }

  /** So the three headers hold blocks i, i + 1 and i + 2 of the new layout. */
  lemma HungHeaders(s: seq<u8>, t: seq<u8>, l: Layout, i: nat, k: nat, p2: nat)
    requires L.Tiled(l) && i < k <= |l| && HungRoom(l, i, k, p2) && Holds(s, l)
    requires |t| == |s| && p2 + L.HDR <= |t| && L.Start(l, k) + L.HDR <= |t| && l[i].start + L.HDR <= |s|
    requires Linked(s, t, l[i].start, p2, L.Start(l, k), 1)
    ensures var r := Hung(l, i, k, p2);
      HeaderOk(t, r, i) && HeaderOk(t, r, i + 1) && (k < |l| ==> HeaderOk(t, r, i + 2))
  {
    hide L.Tiled, HungRoom, OnlyHeaders;
    RoomBounds(l, i, k, p2);
    assert HeaderOk(s, l, i);
    if k < |l| { assert HeaderOk(s, l, k); }
  }

  /** The headers of the blocks that stay away from the change. */
  lemma HungFar(s: seq<u8>, t: seq<u8>, l: Layout, i: nat, k: nat, p2: nat, m: nat)
    requires L.Tiled(l) && i < k <= |l| && HungRoom(l, i, k, p2) && |s| == L.MEM_SIZE + L.HDR
    requires OnlyHeaders(s, t, l[i].start, p2, Third(l, i, k))
    requires m <= |l| && (m < i || k < m || m == k == |l|)
    ensures L.Start(l, m) + L.HDR <= |s| && SameHeader(s, t, L.Start(l, m))
  {
    hide L.Tiled, OnlyHeaders, SameHeader;
    ApartFromRoom(l, i, k, m);
    FarFromHeaders(s, t, l[i].start, p2, Third(l, i, k), L.Start(l, m));
  }

  /** Hanging in a header writes the header of block i, the new one, and `prev` of the
      block above. */
  lemma HungBytes(s: seq<u8>, t: seq<u8>, l: Layout, i: nat, k: nat, p2: nat)
    requires L.Tiled(l) && i < k <= |l| && HungRoom(l, i, k, p2) && Holds(s, l)
    requires |t| == |s| && p2 + L.HDR <= |t| && L.Start(l, k) + L.HDR <= |t|
    requires Linked(s, t, l[i].start, p2, L.Start(l, k), 1)
    ensures Holds(t, Hung(l, i, k, p2))
    ensures OnlyHeaders(s, t, l[i].start, p2, Third(l, i, k))
  {
    hide L.Tiled, HeaderOk;
    var r := Hung(l, i, k, p2);
    HungHeaders(s, t, l, i, k, p2);
    HungFar(s, t, l, i, k, p2, |l|);
    forall j {:trigger HeaderOk(t, r, j)} | 0 <= j < |r| ensures HeaderOk(t, r, j) {
      if j < i || j > i + 2 {
        var m := if j < i then j else j - 2 + k - i;
        assert HeaderOk(s, l, m);
        HungFar(s, t, l, i, k, p2, m);
        HeaderCarried(s, t, l, m, r, j);
      }
    }
  }

  /** Live payloads other than that of block i are clear of all three headers. */
  lemma HungPayload(l: Layout, i: nat, k: nat, p2: nat, x: (int, int))
    requires L.Tiled(l) && i < k <= |l| && HungRoom(l, i, k, p2)
    requires x in L.Live(l) && (l[i].used ==> x != L.Extent(l, i))
    ensures Clear(x, l[i].start) && Clear(x, p2) && Clear(x, Third(l, i, k))
  {
    hide L.Tiled;
    PayloadClearOfHeader(l, x, i);
    PayloadClearOfHeader(l, x, k);
    var m :| 0 <= m < |l| && l[m].used && L.Extent(l, m) == x;
    if m < i {
      ApartFromRoom(l, i, k, m);
      if m + 1 < i { L.Increasing(l, m + 1, i); }
    } else {
      ApartFromRoom(l, i, k, m);
    }
  }

  /** So they keep their bytes. */
  lemma HungPayloads(s: seq<u8>, t: seq<u8>, l: Layout, i: nat, k: nat, p2: nat, live: set<(int, int)>)
    requires L.Tiled(l) && i < k <= |l| && HungRoom(l, i, k, p2)
    requires live <= L.Live(l) && (l[i].used ==> L.Extent(l, i) !in live)
    requires OnlyHeaders(s, t, l[i].start, p2, Third(l, i, k))
    ensures PayloadsKept(s, t, live)
  {
    hide L.Tiled, L.Live, HungRoom, Clear, OnlyHeaders, PayloadsKept, Third;
    forall x | x in live ensures Clear(x, l[i].start) && Clear(x, p2) && Clear(x, Third(l, i, k)) {
      HungPayload(l, i, k, p2, x);
    }
    PayloadsUntouched(s, t, l, live, l[i].start, p2, Third(l, i, k));
  }

  /** Clearing the `used` flag of block i. */
  lemma FreedBytes(s: seq<u8>, t: seq<u8>, l: Layout, i: nat)
    requires L.Wf(l) && Holds(s, l) && i < |l| && l[i].used
    requires OnlyHeader(s, t, l[i].start) && HeaderOk(t, l[i := L.Block(l[i].start, false)], i)
    ensures var a := l[i := L.Block(l[i].start, false)];
      L.Tiled(a) && Holds(t, a) && PayloadsKept(s, t, L.Live(a)) && L.Live(a) <= L.Live(l)
  {
    var a := l[i := L.Block(l[i].start, false)];
    var p := l[i].start;
    HeadersApart(l, i, |l|);
    FarHeader(s, t, p, L.MEM_SIZE);
    forall j {:trigger HeaderOk(t, a, j)} {:trigger L.GapOk(a, j)} | 0 <= j < |a|
      ensures HeaderOk(t, a, j) && L.GapOk(a, j)
    {
      assert L.GapOk(l, j);
      if j != i {
        assert HeaderOk(s, l, j);
        HeadersApart(l, j, i);
        FarHeader(s, t, p, l[j].start);
        HeaderCarried(s, t, l, j, a, j);
      }
    }
    forall x | x in L.Live(a) ensures x in L.Live(l) && Clear(x, p) {
      var k :| 0 <= k < |a| && a[k].used && L.Extent(a, k) == x;
      assert L.Extent(l, k) == x;
      PayloadClearOfHeader(l, x, i);
    }
    PayloadsUntouched(s, t, l, L.Live(a), p, p, p);
  }

  /** Unlinking header i + 1. */
  lemma MergedBytes(s: seq<u8>, t: seq<u8>, l: Layout, i: nat)
    requires L.Tiled(l) && Holds(s, l) && i + 1 < |l| && !l[i].used && !l[i + 1].used
    requires OnlyHeaders(s, t, l[i].start, L.Start(l, i + 2), L.Start(l, i + 2))
    requires HeaderOk(t, L.Absorb(l, i), i)
    requires if i + 2 < |l| then HeaderOk(t, L.Absorb(l, i), i + 1)
      else Next(t, L.MEM_SIZE) == L.MEM_SIZE && Used(t, L.MEM_SIZE) == 1
    ensures Holds(t, L.Absorb(l, i)) && PayloadsKept(s, t, L.Live(l))
  {
    var r := L.Absorb(l, i);
    var p, up := l[i].start, L.Start(l, i + 2);
    HeadersApart(l, i, |l|);
    if i + 2 < |l| {
      HeadersApart(l, i + 2, |l|);
      FarFromHeaders(s, t, p, up, up, L.MEM_SIZE);
    }
    forall j {:trigger HeaderOk(t, r, j)} | 0 <= j < |r| ensures HeaderOk(t, r, j) {
      if j < i || j > i + 1 {
        var k := if j < i then j else j + 1;
        assert HeaderOk(s, l, k);
        HeadersApart(l, k, i);
        HeadersApart(l, k, i + 2);
        FarFromHeaders(s, t, p, up, up, l[k].start);
        HeaderCarried(s, t, l, k, r, j);
      }
    }
    forall x | x in L.Live(l) ensures Clear(x, p) && Clear(x, up) {
      PayloadClearOfHeader(l, x, i);
      PayloadClearOfHeader(l, x, i + 2);
    }
    PayloadsUntouched(s, t, l, L.Live(l), p, up, up);
  }

  /** mem_trim hangs a header in, below a free block above or by splitting. */
  lemma TrimIsHung(l: Layout, i: nat, k: nat, size: nat)
    requires L.Wf(l) && i < |l| && l[i].used && size < L.Room(l, i)
    requires if i + 1 < |l| && !l[i + 1].used then k == i + 2
      else k == i + 1 && size + L.HDR + L.MIN_SIZE <= L.Room(l, i)
    ensures k <= |l| && HungRoom(l, i, k, l[i].start + L.HDR + size)
    ensures L.Trim(l, i, size) == Hung(l, i, k, l[i].start + L.HDR + size)
  {
    if i + 1 < |l| { assert L.GapOk(l, i + 1); }
  }

  /** What shrinking block i to end at p2 leaves: its first bytes, the other payloads, and
      the new header as lowest free block unless there is a lower one. */
  lemma HungShrinks(s: seq<u8>, t: seq<u8>, l: Layout, i: nat, k: nat, p2: nat)
    requires L.Wf(l) && i < k <= |l| && HungRoom(l, i, k, p2) && l[i].used && |s| == L.MEM_SIZE + L.HDR
    requires k == i + 1 || (k == i + 2 && !l[i + 1].used)
    requires OnlyHeaders(s, t, l[i].start, p2, Third(l, i, k))
    ensures SameRange(s, t, l[i].start + L.HDR, p2)
    ensures PayloadsKept(s, t, L.Live(l) - {L.Extent(l, i)})
    ensures var low := L.LowestFree(l);
      && low != i
      && L.LowestFree(Hung(l, i, k, p2)) == L.Lower(low, i + 1)
      && (low < i ==> L.Start(l, low) < l[i].start)
      && (low > i ==> L.Start(l, i + 1) <= L.Start(l, low))
      && (low > i && k > i + 1 ==> low == i + 1)
  {
    hide L.Tiled, L.Live, L.LowestFree, L.PairOk, L.GapOk, HungRoom, OnlyHeaders, SameRange, PayloadsKept, Third, Hung;
    HungRange(s, t, l, i, k, p2);
    HungPayloads(s, t, l, i, k, p2, L.Live(l) - {L.Extent(l, i)});
    HungLowest(l, i, k, p2);
    LowestAround(l, i);
  }

  lemma HungLowest(l: Layout, i: nat, k: nat, p2: nat)
    requires i < k <= |l| && l[i].used && (k == i + 1 || (k == i + 2 && !l[i + 1].used))
    ensures L.LowestFree(Hung(l, i, k, p2)) == L.Lower(L.LowestFree(l), i + 1)
    ensures L.LowestFree(l) > i && k > i + 1 ==> L.LowestFree(l) == i + 1
  {
    LowestFreeIs(Hung(l, i, k, p2), L.Lower(L.LowestFree(l), i + 1));
  }

  /** Where the lowest free block lies when block i is in use. */
  lemma LowestAround(l: Layout, i: nat)
    requires L.Tiled(l) && i < |l| && l[i].used
    ensures var low := L.LowestFree(l);
      && low != i
      && (low < i ==> L.Start(l, low) < l[i].start)
      && (low > i ==> L.Start(l, i + 1) <= L.Start(l, low))
  {
    hide L.Tiled;
    var low := L.LowestFree(l);
    if low < i { L.Increasing(l, low, i); }
    if i + 1 < low { L.Increasing(l, i + 1, low); }
  }

  lemma HungRange(s: seq<u8>, t: seq<u8>, l: Layout, i: nat, k: nat, p2: nat)
    requires L.Tiled(l) && i < k <= |l| && HungRoom(l, i, k, p2) && |s| == L.MEM_SIZE + L.HDR
    requires OnlyHeaders(s, t, l[i].start, p2, Third(l, i, k))
    ensures SameRange(s, t, l[i].start + L.HDR, p2)
  {
    hide L.Tiled;
    RoomBounds(l, i, k, p2);
  }
}
