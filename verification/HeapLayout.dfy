/** The lwIP heap (core/mem.c) seen as what it tiles the arena into: the list of its
    blocks in address order.  The three operations are given here as functions on
    such lists, and the properties of every run of them are proved. */
module HeapLayout {
  import opened Words

  const MEM_ALIGNMENT := 4
  const MEM_SIZE := 10240     // MEM_SIZE_ALIGNED
  const HDR := 8              // SIZEOF_STRUCT_MEM: two u16 and a u8, aligned
  const MIN_SIZE := 12        // MIN_SIZE_ALIGNED

  datatype Block = Block(start: nat, used: bool)

  type Layout = seq<Block>

  /** Where block i ends: at the next header, or at the sentinel `ram_end`. */
  function Start(l: Layout, i: nat): nat {
    if i < |l| then l[i].start else MEM_SIZE
  }

  function Room(l: Layout, i: nat): int
    requires i < |l|
  {
    Start(l, i + 1) - l[i].start - HDR
  }

  /** Block i is aligned and has room for MIN_SIZE bytes before the next header. */
  predicate GapOk(l: Layout, i: nat)
    requires i < |l|
  {
    l[i].start % MEM_ALIGNMENT == 0 && l[i].start + HDR + MIN_SIZE <= Start(l, i + 1)
  }

  /** Block i is not a free block followed by a free block. */
  predicate PairOk(l: Layout, i: nat)
    requires i < |l|
  {
    l[i].used || i + 1 == |l| || l[i + 1].used
  }

  predicate BlockOk(l: Layout, i: nat)
    requires i < |l|
  {
    GapOk(l, i) && PairOk(l, i)
  }

  /** The blocks tile the arena from 0 to MEM_SIZE in strictly increasing order. */
  ghost predicate Tiled(l: Layout) {
    && |l| > 0
    && l[0].start == 0
    && forall i {:trigger GapOk(l, i)} :: 0 <= i < |l| ==> GapOk(l, i)
  }

  /** A tiling in which no two neighbours are both free. */
  ghost predicate Wf(l: Layout) {
    Tiled(l) && forall i {:trigger PairOk(l, i)} :: 0 <= i < |l| ==> PairOk(l, i)
  }

  function Lower(i: nat, j: nat): nat { if i < j then i else j }

  function Upper(i: nat, j: nat): nat { if i < j then j else i }

  lemma {:induction false} Increasing(l: Layout, i: nat, j: nat)
    requires Tiled(l) && i < j <= |l|
    ensures Start(l, i) + HDR + MIN_SIZE <= Start(l, j)
    decreases j - i
  {
    assert GapOk(l, i);
    if i + 1 < j {
      Increasing(l, i + 1, j);
    }
  }

  // ---------------------------------------------------------------- sizes

  /** LWIP_MEM_ALIGN_SIZE computed in unsigned int and stored back in a mem_size_t. */
  function AlignSize(size: u16): u16 {
    Wrap16((size + MEM_ALIGNMENT - 1) / MEM_ALIGNMENT * MEM_ALIGNMENT)
  }

  /** The payload size a request is rounded up to. */
  function Rounded(size: u16): u16 {
    if AlignSize(size) < MIN_SIZE then MIN_SIZE else AlignSize(size)
  }

  /** Rounding covers the request except for the three sizes whose alignment wraps. */
  lemma RoundedCoversRequest(size: u16)
    ensures Rounded(size) % MEM_ALIGNMENT == 0 && Rounded(size) >= MIN_SIZE
    ensures Rounded(size) >= size <==> size <= 65532
    ensures size <= 65532 ==> Rounded(size) < size + MEM_ALIGNMENT || Rounded(size) == MIN_SIZE
  {
    if size <= 65532 {
      assert AlignSize(size) == (size + 3) / 4 * 4;
    } else {
      assert (size + 3) / 4 == 16384;
    }
  }

  // ---------------------------------------------------------------- mem_malloc

  predicate Fits(l: Layout, i: nat, size: nat)
    requires i < |l|
  {
    !l[i].used && Room(l, i) >= size
  }

  /** The lowest free block, or |l|: what `lfree` caches. */
  function LowestFree(l: Layout, from: nat := 0): (k: nat)
    requires from <= |l|
    ensures from <= k <= |l|
    ensures forall j :: from <= j < k ==> l[j].used
    ensures k < |l| ==> !l[k].used
    decreases |l| - from
  {
    if from == |l| || !l[from].used then from else LowestFree(l, from + 1)
  }

  /** The lowest free block with room for size bytes, or |l|. */
  function FirstFit(l: Layout, size: nat, from: nat := 0): (k: nat)
    requires from <= |l|
    ensures from <= k <= |l|
    ensures forall j :: from <= j < k ==> !Fits(l, j, size)
    ensures k < |l| ==> Fits(l, k, size)
    decreases |l| - from
  {
    if from == |l| || Fits(l, from, size) then from else FirstFit(l, size, from + 1)
  }

  /** Block i taken for size bytes; the rest is split off when it can hold a block. */
  function Take(l: Layout, i: nat, size: nat): Layout
    requires i < |l|
  {
    if Room(l, i) >= size + HDR + MIN_SIZE then
      l[..i] + [Block(l[i].start, true), Block(l[i].start + HDR + size, false)] + l[i + 1..]
    else
      l[i := Block(l[i].start, true)]
  }

  function Malloc(l: Layout, size: nat): Layout {
    var i := FirstFit(l, size);
    if i < |l| then Take(l, i, size) else l
  }

  lemma {:induction false} TakeKeepsWf(l: Layout, i: nat, size: nat)
    requires Wf(l) && i < |l| && Fits(l, i, size)
    requires size >= MIN_SIZE && size % MEM_ALIGNMENT == 0
    ensures Wf(Take(l, i, size))
  {
    var r := Take(l, i, size);
    if Room(l, i) >= size + HDR + MIN_SIZE {
      forall j {:trigger GapOk(r, j)} {:trigger PairOk(r, j)} | 0 <= j < |r|
        ensures BlockOk(r, j)
      {
        if j < i {
          assert BlockOk(l, j);
        } else {
          assert BlockOk(l, if j <= i + 1 then i else j - 1);
        }
      }
    } else {
      forall j {:trigger GapOk(r, j)} {:trigger PairOk(r, j)} | 0 <= j < |r|
        ensures BlockOk(r, j)
      {
        assert BlockOk(l, j);
      }
    }
  }

  // ---------------------------------------------------------------- mem_free

  /** Block i merged with the block above it. */
  function Absorb(l: Layout, i: nat): Layout
    requires i + 1 < |l|
  {
    l[..i + 1] + l[i + 2..]
  }

  function PlugForward(l: Layout, i: nat): Layout
    requires i < |l|
  {
    if i + 1 < |l| && !l[i + 1].used then Absorb(l, i) else l
  }

  function PlugBackward(l: Layout, i: nat): Layout
    requires i < |l|
  {
    if i > 0 && !l[i - 1].used then Absorb(l, i - 1) else l
  }

  /** Block i made free, then merged with a free block above and a free block below. */
  function Free(l: Layout, i: nat): Layout
    requires i < |l|
  {
    PlugBackward(PlugForward(l[i := Block(l[i].start, false)], i), i)
  }

  lemma FreeShape(l: Layout, i: nat)
    requires i < |l| && l[i].used
    ensures var a := if i > 0 && !l[i - 1].used then i - 1 else i;
      var b := if i + 1 < |l| && !l[i + 1].used then i + 2 else i + 1;
      Free(l, i) == l[..a] + [Block(l[a].start, false)] + l[b..]
  {
    var m := l[i := Block(l[i].start, false)];
    var f := PlugForward(m, i);
    var b := if i + 1 < |l| && !l[i + 1].used then i + 2 else i + 1;
    assert f == l[..i] + [Block(l[i].start, false)] + l[b..];
    if i > 0 && !l[i - 1].used {
      assert f[..i] + f[i + 1..] == l[..i - 1] + [l[i - 1]] + l[b..];
    }
  }

  lemma {:induction false} FreeKeepsWf(l: Layout, i: nat)
    requires Wf(l) && i < |l| && l[i].used
    ensures Wf(Free(l, i))
  {
    hide Free;
    FreeShape(l, i);
    var a := if i > 0 && !l[i - 1].used then i - 1 else i;
    var b := if i + 1 < |l| && !l[i + 1].used then i + 2 else i + 1;
    var r := Free(l, i);
    forall j {:trigger GapOk(r, j)} {:trigger PairOk(r, j)} | 0 <= j < |r|
      ensures BlockOk(r, j)
    {
      if j < a {
        assert BlockOk(l, j);
      } else if j == a {
        assert BlockOk(l, a) && BlockOk(l, i) && BlockOk(l, b - 1);
      } else {
        assert BlockOk(l, j - a - 1 + b);
      }
    }
  }

  // ---------------------------------------------------------------- mem_trim

  /** Block i cut to size payload bytes (size <= Room): the bytes given up join a free
      block above, or become a free block when they can hold one, or stay unused. */
  function Trim(l: Layout, i: nat, size: nat): Layout
    requires i < |l|
  {
    var cut := Block(l[i].start + HDR + size, false);
    if size >= Room(l, i) then l
    else if i + 1 < |l| && !l[i + 1].used then l[i + 1 := cut]
    else if size + HDR + MIN_SIZE <= Room(l, i) then l[..i + 1] + [cut] + l[i + 1..]
    else l
  }

  lemma {:induction false} TrimKeepsWf(l: Layout, i: nat, size: nat)
    requires Wf(l) && i < |l| && l[i].used
    requires size >= MIN_SIZE && size % MEM_ALIGNMENT == 0
    ensures Wf(Trim(l, i, size))
  {
    var r := Trim(l, i, size);
    forall j {:trigger GapOk(r, j)} {:trigger PairOk(r, j)} | 0 <= j < |r|
      ensures BlockOk(r, j)
    {
      if j <= i {
        assert BlockOk(l, j);
      } else {
        assert BlockOk(l, i);
        assert BlockOk(l, if |r| > |l| then j - 1 else j);
      }
    }
  }

  // ---------------------------------------------------------------- what clients hold

  ghost function Extent(l: Layout, i: nat): (int, int)
    requires i < |l|
  {
    (l[i].start + HDR, Start(l, i + 1))
  }

  ghost function LiveIn(l: Layout, a: nat, b: nat): set<(int, int)>
    requires a <= b <= |l|
  {
    set i | a <= i < b && l[i].used :: Extent(l, i)
  }

  /** The payloads clients hold: first byte and the byte past the last one. */
  ghost function Live(l: Layout): set<(int, int)> {
    LiveIn(l, 0, |l|)
  }

  lemma LiveInBounds(l: Layout, a: nat, b: nat, x: (int, int))
    requires Tiled(l) && a <= b <= |l| && x in LiveIn(l, a, b)
    ensures Start(l, a) + HDR <= x.0 && x.0 + MIN_SIZE <= x.1 <= Start(l, b)
  {
    var i :| a <= i < b && l[i].used && Extent(l, i) == x;
    assert GapOk(l, i);
    if a < i { Increasing(l, a, i); }
    if i + 1 < b { Increasing(l, i + 1, b); }
  }

  /** Layouts that differ only in the window [a..bl) of l and [a..br) of r hold the same
      payloads outside it. */
  lemma SpliceLive(l: Layout, r: Layout, a: nat, bl: nat, br: nat)
    requires Tiled(l) && a <= bl <= |l| && a <= br <= |r|
    requires l[..a] == r[..a] && l[bl..] == r[br..] && Start(l, a) == Start(r, a)
    ensures Live(r) == Live(l) - LiveIn(l, a, bl) + LiveIn(r, a, br)
  {
    LiveParts(l, a, bl);
    LiveParts(r, a, br);
    SameHead(l, r, a);
    SameTail(l, r, bl, br);
    hide Live, LiveIn, Start;
    forall x | x in LiveIn(l, a, bl)
      ensures x !in LiveIn(l, 0, a) && x !in LiveIn(l, bl, |l|)
    {
      LiveInBounds(l, a, bl, x);
      if x in LiveIn(l, 0, a) { LiveInBounds(l, 0, a, x); }
      if x in LiveIn(l, bl, |l|) { LiveInBounds(l, bl, |l|, x); }
    }
  }

  lemma LiveParts(l: Layout, a: nat, b: nat)
    requires a <= b <= |l|
    ensures Live(l) == LiveIn(l, 0, a) + LiveIn(l, a, b) + LiveIn(l, b, |l|)
  {
  }

  lemma SameHead(l: Layout, r: Layout, a: nat)
    requires a <= |l| && a <= |r| && l[..a] == r[..a] && Start(l, a) == Start(r, a)
    ensures LiveIn(l, 0, a) == LiveIn(r, 0, a)
  {
    forall i | 0 <= i < a ensures Extent(l, i) == Extent(r, i) && l[i] == r[i] {
      assert l[..a][i] == r[..a][i];
      if i + 1 < a { assert l[..a][i + 1] == r[..a][i + 1]; }
    }
  }

  lemma SameTail(l: Layout, r: Layout, bl: nat, br: nat)
    requires bl <= |l| && br <= |r| && l[bl..] == r[br..]
    ensures LiveIn(l, bl, |l|) == LiveIn(r, br, |r|)
  {
    var d := br - bl;
    assert |r| - br == |l| - bl;
    forall i | bl <= i < |l| ensures Extent(l, i) == Extent(r, i + d) && l[i] == r[i + d] {
      assert l[bl..][i - bl] == r[br..][i - bl];
      if i + 1 < |l| { assert l[bl..][i + 1 - bl] == r[br..][i + 1 - bl]; }
    }
    forall x | x in LiveIn(r, br, |r|) ensures x in LiveIn(l, bl, |l|) {
      var j :| br <= j < |r| && r[j].used && Extent(r, j) == x;
      assert Extent(l, j - d) == x;
    }
    forall x | x in LiveIn(l, bl, |l|) ensures x in LiveIn(r, br, |r|) {
      var j :| bl <= j < |l| && l[j].used && Extent(l, j) == x;
      assert Extent(r, j + d) == x;
    }
  }

  /** Live payloads and all headers lie apart from each other inside the arena. */
  lemma LivePayloadsDisjoint(l: Layout, x: (int, int), y: (int, int))
    requires Wf(l) && x in Live(l) && y in Live(l) && x != y
    ensures x.1 + HDR <= y.0 || y.1 + HDR <= x.0
    ensures HDR <= x.0 && x.0 + MIN_SIZE <= x.1 <= MEM_SIZE
    ensures HDR <= y.0 && y.0 + MIN_SIZE <= y.1 <= MEM_SIZE
  {
    var i :| 0 <= i < |l| && l[i].used && Extent(l, i) == x;
    var j :| 0 <= j < |l| && l[j].used && Extent(l, j) == y;
    assert BlockOk(l, i) && BlockOk(l, j);
    if i + 1 < |l| { Increasing(l, i + 1, |l|); }
    if j + 1 < |l| { Increasing(l, j + 1, |l|); }
    if i < j {
      if i + 1 < j { Increasing(l, i + 1, j); }
    } else {
      if j + 1 < i { Increasing(l, j + 1, i); }
    }
  }

  lemma LiveInOne(l: Layout, a: nat, b: nat, i: nat)
    requires a <= i < b <= |l| && l[i].used
    requires forall j :: a <= j < b && j != i ==> !l[j].used
    ensures LiveIn(l, a, b) == {Extent(l, i)}
  {
  }

  lemma ExtentIsNew(l: Layout, i: nat, x: (int, int))
    requires Tiled(l) && i < |l| && !l[i].used && x.0 == l[i].start + HDR
    ensures x !in Live(l)
  {
    if x in Live(l) {
      var k :| 0 <= k < |l| && l[k].used && Extent(l, k) == x;
      Increasing(l, Lower(i, k), Upper(i, k));
    }
  }

  /** Taking a fitting free block adds its payload to the live ones. */
  lemma TakeGrants(l: Layout, i: nat, size: nat)
    requires Tiled(l) && i < |l| && Fits(l, i, size)
    ensures var r := Take(l, i, size);
      && i < |r|
      && Extent(r, i) !in Live(l)
      && Live(r) == Live(l) + {Extent(r, i)}
      && size <= Extent(r, i).1 - (l[i].start + HDR) < size + HDR + MIN_SIZE
  {
    hide Tiled, Live;
    var r := Take(l, i, size);
    var br := if |r| > |l| then i + 2 else i + 1;
    ExtentIsNew(l, i, Extent(r, i));
    assert r[..i] == l[..i] && r[br..] == l[i + 1..];
    SpliceLive(l, r, i, i + 1, br);
    assert LiveIn(l, i, i + 1) == {};
    LiveInOne(r, i, br, i);
  }

  /** mem_malloc grants one payload of at least the rounded size in what was the lowest
      fitting free block, and takes nothing else; it grants none only if none fits. */
  lemma {:induction false} MallocGrants(l: Layout, size: nat)
    requires Wf(l) && size >= MIN_SIZE && size % MEM_ALIGNMENT == 0
    ensures Wf(Malloc(l, size))
    ensures var i := FirstFit(l, size);
      if i == |l| then Malloc(l, size) == l
      else
        && i < |Malloc(l, size)|
        && Extent(Malloc(l, size), i) !in Live(l)
        && Live(Malloc(l, size)) == Live(l) + {Extent(Malloc(l, size), i)}
        && size <= Extent(Malloc(l, size), i).1 - (l[i].start + HDR) < size + HDR + MIN_SIZE
  {
    var i := FirstFit(l, size);
    if i < |l| {
      TakeKeepsWf(l, i, size);
      TakeGrants(l, i, size);
    }
  }

  /** The stretch [a, b) of the arena touches no used block. */
  ghost predicate Untouched(l: Layout, a: nat, b: nat) {
    a < b <= MEM_SIZE && forall j :: 0 <= j < |l| && l[j].used ==> b <= l[j].start || Start(l, j + 1) <= a
  }

  /** Coalescing leaves no hidden room: any stretch of the arena that touches no used
      block lies inside a single free block. */
  lemma {:induction false} GapsAreBlocks(l: Layout, a: nat, b: nat, from: nat := 0) returns (i: nat)
    requires Wf(l) && from < |l| && l[from].start <= a && Untouched(l, a, b)
    ensures i < |l| && !l[i].used && l[i].start <= a && b <= Start(l, i + 1)
    decreases |l| - from
  {
    assert BlockOk(l, from);
    if a >= Start(l, from + 1) {
      i := GapsAreBlocks(l, a, b, from + 1);
    } else {
      i := from;
      if from + 1 < |l| {
        assert BlockOk(l, from + 1);
      }
    }
  }

  /** So a request is refused exactly when no untouched stretch could hold a header and
      the rounded size. */
  lemma RefusedOnlyWhenFull(l: Layout, size: nat)
    requires Wf(l)
    ensures FirstFit(l, size) < |l| <==> exists a: nat, b: nat :: Untouched(l, a, b) && a + HDR + size <= b
  {
    if a: nat, b: nat :| Untouched(l, a, b) && a + HDR + size <= b {
      var i := GapsAreBlocks(l, a, b);
      assert Fits(l, i, size);
    }
    if FirstFit(l, size) < |l| {
      var i := FirstFit(l, size);
      var a, b := l[i].start, Start(l, i + 1);
      if i + 1 < |l| { Increasing(l, i + 1, |l|); }
      forall j | 0 <= j < |l| && l[j].used
        ensures b <= l[j].start || Start(l, j + 1) <= a
      {
        if j < i {
          if j + 1 < i { Increasing(l, j + 1, i); }
        } else {
          if i + 1 < j { Increasing(l, i + 1, j); }
        }
      }
      assert Untouched(l, a, b);
    }
  }

  lemma {:induction false} FreeReturns(l: Layout, i: nat)
    requires Wf(l) && i < |l| && l[i].used
    ensures Wf(Free(l, i)) && Live(Free(l, i)) == Live(l) - {Extent(l, i)}
  {
    hide PairOk, Absorb, PlugForward, Extent, Live;
    FreeKeepsWf(l, i);
    var a := if i > 0 && !l[i - 1].used then i - 1 else i;
    var bl := if i + 1 < |l| && !l[i + 1].used then i + 2 else i + 1;
    var r := Free(l, i);
    FreeShape(l, i);
    assert r[..a] == l[..a] && r[a + 1..] == l[bl..];
    SpliceLive(l, r, a, bl, a + 1);
    LiveInOne(l, a, bl, i);
    assert LiveIn(r, a, a + 1) == {};
  }

  /** mem_trim cuts exactly the block it is given, down to what could not be a block of its
      own, or to the size itself if a free block above can take the rest. */
  lemma {:induction false} TrimShrinks(l: Layout, i: nat, size: nat)
    requires Wf(l) && i < |l| && l[i].used
    requires size >= MIN_SIZE && size % MEM_ALIGNMENT == 0
    ensures Wf(Trim(l, i, size))
    ensures Live(Trim(l, i, size)) == Live(l) - {Extent(l, i)} + {Extent(Trim(l, i, size), i)}
    ensures Extent(Trim(l, i, size), i).0 == Extent(l, i).0
    ensures size <= Room(l, i) ==> size <= Room(Trim(l, i, size), i) <= Room(l, i)
    ensures var left := Room(Trim(l, i, size), i) - size;
      size <= Room(l, i) ==> left < HDR + MIN_SIZE && (i + 1 < |l| && !l[i + 1].used ==> left == 0)
  {
    TrimKeepsWf(l, i, size);
    var r := Trim(l, i, size);
    assert BlockOk(l, i) && BlockOk(r, i);
    if r != l {
      var bl := if |r| == |l| then i + 2 else i + 1;
      SpliceLive(l, r, i, bl, i + 2);
      assert LiveIn(l, i, bl) == {Extent(l, i)};
      assert LiveIn(r, i, i + 2) == {Extent(r, i)};
    }
  }

  /** Merging two free neighbours keeps the tiling, the live payloads and `lfree`. */
  lemma AbsorbFree(l: Layout, i: nat)
    requires Tiled(l) && i + 1 < |l| && !l[i].used && !l[i + 1].used
    ensures Tiled(Absorb(l, i)) && Live(Absorb(l, i)) == Live(l)
    ensures Start(Absorb(l, i), LowestFree(Absorb(l, i))) == Start(l, LowestFree(l))
  {
    hide LowestFree, Live;
    AbsorbTiled(l, i);
    AbsorbLowest(l, i);
    var r := Absorb(l, i);
    SpliceLive(l, r, i, i + 2, i + 1);
    assert LiveIn(l, i, i + 2) == {} && LiveIn(r, i, i + 1) == {};
  }

  lemma AbsorbTiled(l: Layout, i: nat)
    requires Tiled(l) && i + 1 < |l|
    ensures Tiled(Absorb(l, i))
  {
    var r := Absorb(l, i);
    assert GapOk(l, i) && GapOk(l, i + 1);
    forall j {:trigger GapOk(r, j)} | 0 <= j < |r| ensures GapOk(r, j) {
      assert GapOk(l, if j <= i then j else j + 1);
    }
  }

  lemma AbsorbLowest(l: Layout, i: nat)
    requires i + 1 < |l| && !l[i].used
    ensures Start(Absorb(l, i), LowestFree(Absorb(l, i))) == Start(l, LowestFree(l))
  {
    var r := Absorb(l, i);
    var k := LowestFree(l);
    assert k <= i && r[k] == l[k];
    assert forall j :: 0 <= j < k ==> r[j] == l[j];
  }

  /** Freeing what mem_malloc has just returned restores the previous layout exactly
      (and with it `lfree`, which is a function of the layout). */
  lemma MallocThenFree(l: Layout, size: nat)
    requires Wf(l) && FirstFit(l, size) < |l|
    ensures var i := FirstFit(l, size);
      i < |Malloc(l, size)| && Malloc(l, size)[i].used && Free(Malloc(l, size), i) == l
  {
    var i := FirstFit(l, size);
    var r := Malloc(l, size);
    assert BlockOk(l, i);
    if i > 0 { assert BlockOk(l, i - 1); }
    assert Free(r, i) == l;
  }

  const InitLayout: Layout := [Block(0, false)]

  lemma UsedIsLive(l: Layout, i: nat)
    requires i < |l|
    ensures l[i].used ==> Extent(l, i) in Live(l)
  {
  }

  /** With nothing live, coalescing has put the heap back to what mem_init made. */
  lemma NothingLive(l: Layout)
    requires Wf(l) && Live(l) == {}
    ensures l == InitLayout
  {
    forall i | 0 <= i < |l| ensures !l[i].used {
      UsedIsLive(l, i);
    }
    assert BlockOk(l, 0);
  }

  // ---------------------------------------------------------------- runs

  datatype Op = OpMalloc(size: u16) | OpFree(p: int) | OpTrim(p: int, size: u16)

  /** The block whose payload starts at p, or |l|. */
  function BlockOf(l: Layout, p: int, from: nat := 0): (k: nat)
    requires from <= |l|
    ensures from <= k <= |l|
    ensures k < |l| ==> l[k].used && l[k].start + HDR == p
    ensures k == |l| ==> forall j :: from <= j < |l| && l[j].used ==> l[j].start + HDR != p
    decreases |l| - from
  {
    if from == |l| || (l[from].used && l[from].start + HDR == p) then from
    else BlockOf(l, p, from + 1)
  }

  /** What the interface demands of its callers: free and trim only what is held. */
  predicate Legal(l: Layout, op: Op) {
    match op
    case OpMalloc(_) => true
    case OpFree(p) => BlockOf(l, p) < |l|
    case OpTrim(p, _) => BlockOf(l, p) < |l|
  }

  /** mem_malloc refuses size 0 and what cannot fit the arena before it searches; mem_trim
      leaves a block alone that is not larger than asked. */
  function Apply(l: Layout, op: Op): Layout
    requires Legal(l, op)
  {
    match op
    case OpMalloc(size) => if size == 0 || Rounded(size) > MEM_SIZE then l else Malloc(l, Rounded(size))
    case OpFree(p) => Free(l, BlockOf(l, p))
    case OpTrim(p, size) => Trim(l, BlockOf(l, p), Rounded(size))
  }

  /** A request of any size but 0 is granted if and only if there is room for it. */
  lemma GrantedIffRoom(l: Layout, size: u16)
    requires Wf(l)
    ensures Apply(l, OpMalloc(size)) != l <==>
      size > 0 && exists a: nat, b: nat :: Untouched(l, a, b) && a + 8 + Rounded(size) <= b
  {
    hide Wf, Live, Extent, Rounded, Malloc;
    RoundedCoversRequest(size);
    RefusedOnlyWhenFull(l, Rounded(size));
    MallocGrants(l, Rounded(size));
  }

  /** The record a client keeps from the answers it gets: the granted extent entered,
      the freed one struck out, the trimmed one replaced. */
  ghost function Book(book: set<(int, int)>, l: Layout, op: Op): set<(int, int)>
    requires Legal(l, op)
  {
    var r := Apply(l, op);
    match op
    case OpMalloc(size) =>
      var i := FirstFit(l, Rounded(size));
      if size == 0 || Rounded(size) > MEM_SIZE || i == |l| || i >= |r| then book else book + {Extent(r, i)}
    case OpFree(p) => book - {Extent(l, BlockOf(l, p))}
    case OpTrim(p, size) =>
      var i := BlockOf(l, p);
      if i < |r| then book - {Extent(l, i)} + {Extent(r, i)} else book
  }

  ghost predicate LegalRun(l: Layout, ops: seq<Op>)
    decreases |ops|
  {
    |ops| == 0 || (Legal(l, ops[0]) && LegalRun(Apply(l, ops[0]), ops[1..]))
  }

  ghost function Run(l: Layout, ops: seq<Op>): Layout
    requires LegalRun(l, ops)
    decreases |ops|
  {
    if |ops| == 0 then l else Run(Apply(l, ops[0]), ops[1..])
  }

  ghost function BookRun(book: set<(int, int)>, l: Layout, ops: seq<Op>): set<(int, int)>
    requires LegalRun(l, ops)
    decreases |ops|
  {
    if |ops| == 0 then book else BookRun(Book(book, l, ops[0]), Apply(l, ops[0]), ops[1..])
  }

  /** One operation does to the live payloads what it does to the clients' record. */
  lemma StepKeepsHeap(l: Layout, op: Op)
    requires Wf(l) && Legal(l, op)
    ensures Wf(Apply(l, op)) && Live(Apply(l, op)) == Book(Live(l), l, op)
  {
    hide Wf, Live, Extent, Malloc, Free, Rounded;
    match op {
      case OpMalloc(size) =>
        RoundedCoversRequest(size);
        MallocGrants(l, Rounded(size));
      case OpFree(p) =>
        FreeReturns(l, BlockOf(l, p));
      case OpTrim(p, size) =>
        RoundedCoversRequest(size);
        TrimShrinks(l, BlockOf(l, p), Rounded(size));
    }
  }

  /** Over every run the heap stays a well-formed tiling and its used blocks are exactly
      the extents the clients' own record says they hold. */
  lemma {:induction false} RunKeepsHeap(l: Layout, ops: seq<Op>)
    requires Wf(l) && LegalRun(l, ops)
    ensures Wf(Run(l, ops)) && Live(Run(l, ops)) == BookRun(Live(l), l, ops)
    decreases |ops|
  {
    hide Wf, Live, Apply, Book, Legal;
    if |ops| > 0 {
      StepKeepsHeap(l, ops[0]);
      RunKeepsHeap(Apply(l, ops[0]), ops[1..]);
    }
  }

  ghost function Frees(ps: seq<int>): seq<Op> {
    seq(|ps|, i requires 0 <= i < |ps| => OpFree(ps[i]))
  }

  /** Someone holds the payload that starts at p. */
  ghost predicate Held(l: Layout, p: int) {
    exists e :: (p, e) in Live(l)
  }

  /** Freeing block i takes exactly its payload from those held. */
  lemma FreeTakesOne(l: Layout, i: nat, q: int)
    requires Wf(l) && i < |l| && l[i].used
    ensures Held(Free(l, i), q) <==> Held(l, q) && q != l[i].start + HDR
  {
    hide Wf, Live, Free;
    FreeReturns(l, i);
    UsedIsLive(l, i);
    if e :| (q, e) in Live(Free(l, i)) {
      if q == l[i].start + HDR { LivePayloadsDisjoint(l, (q, e), Extent(l, i)); }
    }
    if q != l[i].start + HDR {
      if e :| (q, e) in Live(l) {
        assert (q, e) in Live(Free(l, i));
      }
    }
  }

  lemma HeldHasBlock(l: Layout, p: int)
    requires Held(l, p)
    ensures BlockOf(l, p) < |l|
  {
    var e :| (p, e) in Live(l);
    var i :| 0 <= i < |l| && l[i].used && Extent(l, i) == (p, e);
  }

  lemma LiveIsHeld(l: Layout, x: (int, int))
    requires x in Live(l)
    ensures Held(l, x.0)
  {
    assert (x.0, x.1) in Live(l);
  }

  lemma NothingHeld(l: Layout)
    requires Wf(l) && forall p :: !Held(l, p)
    ensures l == InitLayout
  {
    hide Wf, Live;
    if x :| x in Live(l) {
      LiveIsHeld(l, x);
    } else {
      NothingLive(l);
    }
  }

  /** Freeing every live payload, in any order, is legal at each step and ends in the
      single free block made by mem_init. */
  lemma {:induction false} FreeAllInAnyOrder(l: Layout, ps: seq<int>)
    requires Wf(l)
    requires forall i, j :: 0 <= i < j < |ps| ==> ps[i] != ps[j]
    requires forall p :: p in ps <==> Held(l, p)
    ensures LegalRun(l, Frees(ps)) && Run(l, Frees(ps)) == InitLayout
    decreases |ps|
  {
    hide Wf, Held, Free;
    if |ps| == 0 {
      NothingHeld(l);
    } else {
      var p := ps[0];
      HeldHasBlock(l, p);
      var i := BlockOf(l, p);
      var r := Free(l, i);
      FreeKeepsWf(l, i);
      assert ps == [p] + ps[1..];
      forall q ensures q in ps[1..] <==> Held(r, q) {
        FreeTakesOne(l, i, q);
      }
      FreeAllInAnyOrder(r, ps[1..]);
      assert Frees(ps)[1..] == Frees(ps[1..]);
    }
  }
}
