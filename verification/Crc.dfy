/** The CRC32 of the firmware images (crc32/crc32.c, section 8 of RFC 1952): table-driven over
    the receive buffer, bit by bit in 64-byte chunks over the staged copy. */
module Crc {
  import opened Words

  // ---------------------------------------------------------------- the simple form

  /** Exclusive or, under a name that proofs can leave uninterpreted. */
  function Xor(a: bv32, b: bv32): bv32 { a ^ b }

  /** One bit: shift, and subtract the polynomial when a one falls out. */
  function Bit(c: bv32): bv32 { if c & 1 == 1 then (c >> 1) ^ 0xEDB8_8320 else c >> 1 }

  function Bits(c: bv32, n: nat): bv32 { if n == 0 then c else Bit(Bits(c, n - 1)) }

  function Bits8(c: bv32): bv32 { Bit(Bit(Bit(Bit(Bit(Bit(Bit(Bit(c)))))))) }

  /** One byte, taken in at the low end. */
  function Byte(c: bv32, b: bv8): bv32 { Bits8(Xor(c, b as bv32)) }

  function Update(c: bv32, d: seq<bv8>): bv32
    decreases |d|
  {
    if |d| == 0 then c else Update(Byte(c, d[0]), d[1..])
  }

  function Crc32(d: seq<bv8>): bv32 { Xor(Update(0xFFFF_FFFF, d), 0xFFFF_FFFF) }

  /** The checksum as a number. */
  function Value(d: seq<bv8>): u32 { Crc32(d) as int }

  // ---------------------------------------------------------------- the table

  /** Entry i of a row of sixteen. */
  function Pick(i: bv32, v0: bv32, v1: bv32, v2: bv32, v3: bv32, v4: bv32, v5: bv32, v6: bv32, v7: bv32,
                v8: bv32, v9: bv32, va: bv32, vb: bv32, vc: bv32, vd: bv32, ve: bv32, vf: bv32): bv32 {
    if i < 8 then
      (if i < 4 then (if i < 2 then (if i < 1 then v0 else v1) else if i < 3 then v2 else v3)
       else if i < 6 then (if i < 5 then v4 else v5) else if i < 7 then v6 else v7)
    else
      (if i < 12 then (if i < 10 then (if i < 9 then v8 else v9) else if i < 11 then va else vb)
       else if i < 14 then (if i < 13 then vc else vd) else if i < 15 then ve else vf)
  }

  /** crc32_table, sixteen entries a row. */
  function Table(i: bv32): bv32 {
    if i < 0x10 then Pick(i & 0xF,
      0x00000000, 0x77073096, 0xEE0E612C, 0x990951BA, 0x076DC419, 0x706AF48F, 0xE963A535, 0x9E6495A3,
      0x0EDB8832, 0x79DCB8A4, 0xE0D5E91E, 0x97D2D988, 0x09B64C2B, 0x7EB17CBD, 0xE7B82D07, 0x90BF1D91)
    else if i < 0x20 then Pick(i & 0xF,
      0x1DB71064, 0x6AB020F2, 0xF3B97148, 0x84BE41DE, 0x1ADAD47D, 0x6DDDE4EB, 0xF4D4B551, 0x83D385C7,
      0x136C9856, 0x646BA8C0, 0xFD62F97A, 0x8A65C9EC, 0x14015C4F, 0x63066CD9, 0xFA0F3D63, 0x8D080DF5)
    else if i < 0x30 then Pick(i & 0xF,
      0x3B6E20C8, 0x4C69105E, 0xD56041E4, 0xA2677172, 0x3C03E4D1, 0x4B04D447, 0xD20D85FD, 0xA50AB56B,
      0x35B5A8FA, 0x42B2986C, 0xDBBBC9D6, 0xACBCF940, 0x32D86CE3, 0x45DF5C75, 0xDCD60DCF, 0xABD13D59)
    else if i < 0x40 then Pick(i & 0xF,
      0x26D930AC, 0x51DE003A, 0xC8D75180, 0xBFD06116, 0x21B4F4B5, 0x56B3C423, 0xCFBA9599, 0xB8BDA50F,
      0x2802B89E, 0x5F058808, 0xC60CD9B2, 0xB10BE924, 0x2F6F7C87, 0x58684C11, 0xC1611DAB, 0xB6662D3D)
    else if i < 0x50 then Pick(i & 0xF,
      0x76DC4190, 0x01DB7106, 0x98D220BC, 0xEFD5102A, 0x71B18589, 0x06B6B51F, 0x9FBFE4A5, 0xE8B8D433,
      0x7807C9A2, 0x0F00F934, 0x9609A88E, 0xE10E9818, 0x7F6A0DBB, 0x086D3D2D, 0x91646C97, 0xE6635C01)
    else if i < 0x60 then Pick(i & 0xF,
      0x6B6B51F4, 0x1C6C6162, 0x856530D8, 0xF262004E, 0x6C0695ED, 0x1B01A57B, 0x8208F4C1, 0xF50FC457,
      0x65B0D9C6, 0x12B7E950, 0x8BBEB8EA, 0xFCB9887C, 0x62DD1DDF, 0x15DA2D49, 0x8CD37CF3, 0xFBD44C65)
    else if i < 0x70 then Pick(i & 0xF,
      0x4DB26158, 0x3AB551CE, 0xA3BC0074, 0xD4BB30E2, 0x4ADFA541, 0x3DD895D7, 0xA4D1C46D, 0xD3D6F4FB,
      0x4369E96A, 0x346ED9FC, 0xAD678846, 0xDA60B8D0, 0x44042D73, 0x33031DE5, 0xAA0A4C5F, 0xDD0D7CC9)
    else if i < 0x80 then Pick(i & 0xF,
      0x5005713C, 0x270241AA, 0xBE0B1010, 0xC90C2086, 0x5768B525, 0x206F85B3, 0xB966D409, 0xCE61E49F,
      0x5EDEF90E, 0x29D9C998, 0xB0D09822, 0xC7D7A8B4, 0x59B33D17, 0x2EB40D81, 0xB7BD5C3B, 0xC0BA6CAD)
    else if i < 0x90 then Pick(i & 0xF,
      0xEDB88320, 0x9ABFB3B6, 0x03B6E20C, 0x74B1D29A, 0xEAD54739, 0x9DD277AF, 0x04DB2615, 0x73DC1683,
      0xE3630B12, 0x94643B84, 0x0D6D6A3E, 0x7A6A5AA8, 0xE40ECF0B, 0x9309FF9D, 0x0A00AE27, 0x7D079EB1)
    else if i < 0xA0 then Pick(i & 0xF,
      0xF00F9344, 0x8708A3D2, 0x1E01F268, 0x6906C2FE, 0xF762575D, 0x806567CB, 0x196C3671, 0x6E6B06E7,
      0xFED41B76, 0x89D32BE0, 0x10DA7A5A, 0x67DD4ACC, 0xF9B9DF6F, 0x8EBEEFF9, 0x17B7BE43, 0x60B08ED5)
    else if i < 0xB0 then Pick(i & 0xF,
      0xD6D6A3E8, 0xA1D1937E, 0x38D8C2C4, 0x4FDFF252, 0xD1BB67F1, 0xA6BC5767, 0x3FB506DD, 0x48B2364B,
      0xD80D2BDA, 0xAF0A1B4C, 0x36034AF6, 0x41047A60, 0xDF60EFC3, 0xA867DF55, 0x316E8EEF, 0x4669BE79)
    else if i < 0xC0 then Pick(i & 0xF,
      0xCB61B38C, 0xBC66831A, 0x256FD2A0, 0x5268E236, 0xCC0C7795, 0xBB0B4703, 0x220216B9, 0x5505262F,
      0xC5BA3BBE, 0xB2BD0B28, 0x2BB45A92, 0x5CB36A04, 0xC2D7FFA7, 0xB5D0CF31, 0x2CD99E8B, 0x5BDEAE1D)
    else if i < 0xD0 then Pick(i & 0xF,
      0x9B64C2B0, 0xEC63F226, 0x756AA39C, 0x026D930A, 0x9C0906A9, 0xEB0E363F, 0x72076785, 0x05005713,
      0x95BF4A82, 0xE2B87A14, 0x7BB12BAE, 0x0CB61B38, 0x92D28E9B, 0xE5D5BE0D, 0x7CDCEFB7, 0x0BDBDF21)
    else if i < 0xE0 then Pick(i & 0xF,
      0x86D3D2D4, 0xF1D4E242, 0x68DDB3F8, 0x1FDA836E, 0x81BE16CD, 0xF6B9265B, 0x6FB077E1, 0x18B74777,
      0x88085AE6, 0xFF0F6A70, 0x66063BCA, 0x11010B5C, 0x8F659EFF, 0xF862AE69, 0x616BFFD3, 0x166CCF45)
    else if i < 0xF0 then Pick(i & 0xF,
      0xA00AE278, 0xD70DD2EE, 0x4E048354, 0x3903B3C2, 0xA7672661, 0xD06016F7, 0x4969474D, 0x3E6E77DB,
      0xAED16A4A, 0xD9D65ADC, 0x40DF0B66, 0x37D83BF0, 0xA9BCAE53, 0xDEBB9EC5, 0x47B2CF7F, 0x30B5FFE9)
    else Pick(i & 0xF,
      0xBDBDF21C, 0xCABAC28A, 0x53B39330, 0x24B4A3A6, 0xBAD03605, 0xCDD70693, 0x54DE5729, 0x23D967BF,
      0xB3667A2E, 0xC4614AB8, 0x5D681B02, 0x2A6F2B94, 0xB40BBE37, 0xC30C8EA1, 0x5A05DF1B, 0x2D02EF8D)
  }

  /** Every entry is eight bit steps of its index. */
  lemma TableIs(i: bv32)
    requires i < 0x100
    ensures Table(i) == Bits8(i)
  {
  }

  // ---------------------------------------------------------------- linearity

  lemma BitsEight(c: bv32)
    ensures Bits(c, 8) == Bits8(c)
  {
    hide Bit;
    assert Bits(c, 1) == Bit(c);
    assert Bits(c, 3) == Bit(Bit(Bits(c, 1)));
    assert Bits(c, 5) == Bit(Bit(Bits(c, 3)));
    assert Bits(c, 7) == Bit(Bit(Bits(c, 5)));
  }

  lemma BitXor(x: bv32, y: bv32)
    ensures Bit(Xor(x, y)) == Xor(Bit(x), Bit(y))
  {
    if x & 1 == 1 {
      if y & 1 == 1 { BitXorOdd(x, y); } else { BitXorSwapped(x, y); }
    } else {
      if y & 1 == 1 { BitXorMixed(x, y); } else { BitXorEven(x, y); }
    }
  }

  lemma BitXorEven(x: bv32, y: bv32)
    requires x & 1 != 1 && y & 1 != 1
    ensures Bit(Xor(x, y)) == Xor(Bit(x), Bit(y))
  {
  }

  lemma BitXorMixed(x: bv32, y: bv32)
    requires x & 1 != 1 && y & 1 == 1
    ensures Bit(Xor(x, y)) == Xor(Bit(x), Bit(y))
  {
  }

  lemma BitXorSwapped(x: bv32, y: bv32)
    requires x & 1 == 1 && y & 1 != 1
    ensures Bit(Xor(x, y)) == Xor(Bit(x), Bit(y))
  {
  }

  lemma BitXorOdd(x: bv32, y: bv32)
    requires x & 1 == 1 && y & 1 == 1
    ensures Bit(Xor(x, y)) == Xor(Bit(x), Bit(y))
  {
  }

  lemma XorComm(x: bv32, y: bv32)
    ensures Xor(x, y) == Xor(y, x)
  {
  }

  lemma XorAssoc(x: bv32, y: bv32, z: bv32)
    ensures Xor(x, Xor(y, z)) == Xor(Xor(x, y), z)
  {
  }

  lemma XorCancel(x: bv32, y: bv32)
    ensures Xor(Xor(x, y), y) == x
  {
  }

  /** The register is linear over exclusive or. */
  lemma Bits8Xor(x: bv32, y: bv32)
    ensures Bits8(Xor(x, y)) == Xor(Bits8(x), Bits8(y))
  {
    hide Bit, Xor;
    for i := 0 to 8
      invariant Bits(Xor(x, y), i) == Xor(Bits(x, i), Bits(y, i))
    {
      BitXor(Bits(x, i), Bits(y, i));
    }
    BitsEight(x);
    BitsEight(y);
    BitsEight(Xor(x, y));
  }

  function Up(y: bv32): bv32 { y << 8 }

  /** Three bytes wide. */
  predicate Small(y: bv32) { y < 0x100_0000 }

  lemma Bits8OfUp(y: bv32)
    requires Small(y)
    ensures Bits8(Up(y)) == y
  {
  }

  /** Whole bytes above the lowest only move down during eight steps. */
  lemma Bits8Up(x: bv32, y: bv32)
    requires Small(y)
    ensures Bits8(Xor(x, Up(y))) == Xor(Bits8(x), y)
  {
    hide Bits8, Xor, Up;
    Bits8Xor(x, Up(y));
    Bits8OfUp(y);
  }

  lemma Bits8Low(x: bv32)
    ensures Bits8(x) == Xor(Bits8(x & 0xFF), x >> 8)
  {
    hide Bits8, Xor, Up;
    Halves(x);
    Bits8Up(x & 0xFF, x >> 8);
  }

  lemma Halves(x: bv32)
    ensures x == Xor(x & 0xFF, Up(x >> 8)) && Small(x >> 8) && x & 0xFF < 0x100
  {
  }

  /** The loop body of CRC32_Calculate. */
  function TableByte(c: bv32, b: bv8): bv32 { Xor(Table(Xor(c, b as bv32) & 0xFF), c >> 8) }

  /** One look-up does the work of eight steps. */
  lemma TableStep(c: bv32, b: bv8)
    ensures TableByte(c, b) == Byte(c, b)
  {
    hide Table, Bits8, Xor;
    var x := Xor(c, b as bv32);
    LowByte(c, b);
    TableIs(x & 0xFF);
    Bits8Low(x);
  }

  lemma LowByte(c: bv32, b: bv8)
    ensures Xor(c, b as bv32) >> 8 == c >> 8 && Xor(c, b as bv32) & 0xFF < 0x100
  {
  }

  // ---------------------------------------------------------------- the two loops

  lemma {:induction false} UpdateConcat(c: bv32, a: seq<bv8>, b: seq<bv8>)
    ensures Update(c, a + b) == Update(Update(c, a), b)
    decreases |a|
  {
    hide Byte;
    if |a| == 0 {
      assert a + b == b;
    } else {
      assert (a + b)[1..] == a[1..] + b;
      UpdateConcat(Byte(c, a[0]), a[1..], b);
    }
  }

  lemma UpdateSnoc(c: bv32, d: seq<bv8>, i: nat)
    requires i < |d|
    ensures Update(c, d[..i + 1]) == Byte(Update(c, d[..i]), d[i])
  {
    hide Byte;
    assert d[..i + 1] == d[..i] + [d[i]];
    UpdateConcat(c, d[..i], [d[i]]);
    assert [d[i]][1..] == [];
  }

  lemma UpdateNone(c: bv32)
    ensures Update(c, []) == c
  {
  }

  /** CRC32_Calculate. */
  method Calculate(data: seq<bv8>) returns (r: bv32)
    ensures r == Crc32(data)
  {
    hide Byte, TableByte, Xor, Update;
    var crc: bv32 := 0xFFFF_FFFF;
    var p: nat, length: nat := 0, |data|;
    UpdateNone(crc);
    assert data[..0] == [];
    while length > 0
      invariant p + length == |data| && crc == Update(0xFFFF_FFFF, data[..p])
    {
      length := length - 1;
      TableStep(crc, data[p]);
      UpdateSnoc(0xFFFF_FFFF, data, p);
      crc := TableByte(crc, data[p]);
      p := p + 1;
    }
    assert data[..p] == data;
    r := Xor(crc, 0xFFFF_FFFF);
  }

  /** The bit step as the source writes it, with a mask for the branch. */
  method BitStep(crc: bv32) returns (r: bv32)
    ensures r == Bit(crc)
  {
    hide Bit;
    Masked(crc);
    r := (crc >> 1) ^ (0xEDB8_8320 & (0 - (crc & 1)));
  }

  lemma Masked(c: bv32)
    ensures Bit(c) == (c >> 1) ^ (0xEDB8_8320 & (0 - (c & 1)))
  {
    LowBit(c);
    MaskOf(c & 1);
  }

  lemma LowBit(c: bv32)
    ensures c & 1 == 0 || c & 1 == 1
  {
  }

  lemma MaskOf(b: bv32)
    requires b == 0 || b == 1
    ensures 0xEDB8_8320 & (0 - b) == if b == 1 then 0xEDB8_8320 else 0
  {
  }

  /** The inner loops of the read-back check over one chunk. */
  method UpdateChunk(crc0: bv32, tmp: seq<bv8>) returns (crc: bv32)
    ensures crc == Update(crc0, tmp)
  {
    hide Bit, Xor, Bits8;
    crc := crc0;
    for i := 0 to |tmp|
      invariant crc == Update(crc0, tmp[..i])
    {
      UpdateSnoc(crc0, tmp, i);
      crc := Xor(crc, tmp[i] as bv32);
      ghost var start := crc;
      for bit := 0 to 8
        invariant crc == Bits(start, bit)
      {
        crc := BitStep(crc);
      }
      BitsEight(start);
    }
    assert tmp[..|tmp|] == tmp;
  }

  /** The check value that catalogues give for this checksum: that of the digits 1 to 9. */
  lemma CheckValue()
    ensures Value([0x31, 0x32, 0x33, 0x34, 0x35, 0x36, 0x37, 0x38, 0x39]) == 0xCBF4_3926
  {
    hide Update;
    var d: seq<bv8> := [0x31, 0x32, 0x33, 0x34, 0x35, 0x36, 0x37, 0x38, 0x39];
    UpdateNone(0xFFFF_FFFF);
    assert d[..0] == [] && d[..9] == d;
    for i := 0 to 9
      invariant Update(0xFFFF_FFFF, d[..i]) ==
        [0xFFFF_FFFF, 0x7C23_1048, 0xB0AC_BB32, 0x77B7_9C2D, 0x641C_1F5C, 0x340A_C5E3, 0xF68D_2C9E, 0xAFFC_9660,
         0x651F_2550, 0x340B_C6D9][i]
    {
      UpdateSnoc(0xFFFF_FFFF, d, i);
    }
  }

  // ---------------------------------------------------------------- what it detects

  /** No two values step to the same one. */
  lemma Bits8Injective(x: bv32, y: bv32)
    requires Bits8(x) == Bits8(y)
    ensures x == y
  {
    hide Bit;
    BitsEight(x);
    BitsEight(y);
    BitsInjective(x, y, 8);
  }

  lemma {:induction false} BitsInjective(x: bv32, y: bv32, n: nat)
    requires Bits(x, n) == Bits(y, n)
    ensures x == y
  {
    hide Bit;
    if n > 0 {
      BitInjective(Bits(x, n - 1), Bits(y, n - 1));
      BitsInjective(x, y, n - 1);
    }
  }

  lemma BitInjective(x: bv32, y: bv32)
    ensures Bit(x) == Bit(y) ==> x == y
  {
  }

  /** Four bytes as the little-endian word the register takes them for. */
  function Word(b0: bv8, b1: bv8, b2: bv8, b3: bv8): bv32 {
    Xor(b0 as bv32, Up(Xor(b1 as bv32, Up(Xor(b2 as bv32, Up(b3 as bv32))))))
  }

  lemma WordBounds(b1: bv8, b2: bv8, b3: bv8)
    ensures Small(Xor(b1 as bv32, Up(Xor(b2 as bv32, Up(b3 as bv32)))))
    ensures Small(Xor(b2 as bv32, Up(b3 as bv32))) && Small(b3 as bv32)
  {
  }

  lemma WordInjective(a0: bv8, a1: bv8, a2: bv8, a3: bv8, b0: bv8, b1: bv8, b2: bv8, b3: bv8)
    requires Word(a0, a1, a2, a3) == Word(b0, b1, b2, b3)
    ensures a0 == b0 && a1 == b1 && a2 == b2 && a3 == b3
  {
  }

  /** Taking in four bytes is thirty-two steps from the register combined with their word. */
  lemma FourBytes(c: bv32, d: seq<bv8>)
    requires |d| == 4
    ensures Update(c, d) == Bits8(Bits8(Bits8(Bits8(Xor(c, Word(d[0], d[1], d[2], d[3]))))))
  {
    hide Byte, Xor, Up;
    UpdateFour(c, d);
    FourSteps(c, d[0], d[1], d[2], d[3]);
  }

  lemma FourSteps(c: bv32, b0: bv8, b1: bv8, b2: bv8, b3: bv8)
    ensures Byte(Byte(Byte(Byte(c, b0), b1), b2), b3) == Bits8(Bits8(Bits8(Bits8(Xor(c, Word(b0, b1, b2, b3))))))
  {
    hide Bits8, Xor, Up, Small;
    var x0, x1, x2, x3 := b0 as bv32, b1 as bv32, b2 as bv32, b3 as bv32;
    var y2 := Xor(x2, Up(x3));
    WordBounds(b1, b2, b3);
    TakeIn(c, x0, Xor(x1, Up(y2)));
    TakeIn(Bits8(Xor(c, x0)), x1, y2);
    TakeIn(Bits8(Xor(Bits8(Xor(c, x0)), x1)), x2, x3);
  }

  lemma TakeIn(c: bv32, b: bv32, y: bv32)
    requires Small(y)
    ensures Bits8(Xor(c, Xor(b, Up(y)))) == Xor(Bits8(Xor(c, b)), y)
  {
    hide Bits8, Xor, Up;
    XorAssoc(c, b, Up(y));
    Bits8Up(Xor(c, b), y);
  }

  lemma UpdateFour(c: bv32, d: seq<bv8>)
    requires |d| == 4
    ensures Update(c, d) == Byte(Byte(Byte(Byte(c, d[0]), d[1]), d[2]), d[3])
  {
    hide Byte;
    UpdateSnoc(c, d, 3);
    UpdateSnoc(c, d, 2);
    UpdateSnoc(c, d, 1);
    UpdateSnoc(c, d, 0);
    assert d[..4] == d && d[..0] == [];
  }

  lemma {:induction false} UpdateInjective(x: bv32, y: bv32, d: seq<bv8>)
    requires Update(x, d) == Update(y, d)
    ensures x == y
    decreases |d|
  {
    hide Bits8, Xor;
    if |d| > 0 {
      UpdateInjective(Byte(x, d[0]), Byte(y, d[0]), d[1..]);
      Bits8Injective(Xor(x, d[0] as bv32), Xor(y, d[0] as bv32));
      XorCancel(x, d[0] as bv32);
      XorCancel(y, d[0] as bv32);
    }
  }

  lemma FourInjective(c: bv32, d: seq<bv8>, e: seq<bv8>)
    requires |d| == |e| == 4 && Update(c, d) == Update(c, e)
    ensures d == e
  {
    hide Bits8, Xor, Word, Update;
    FourBytes(c, d);
    FourBytes(c, e);
    var x, y := Word(d[0], d[1], d[2], d[3]), Word(e[0], e[1], e[2], e[3]);
    var v, w := Xor(c, x), Xor(c, y);
    Bits8Injective(Bits8(Bits8(Bits8(v))), Bits8(Bits8(Bits8(w))));
    Bits8Injective(Bits8(Bits8(v)), Bits8(Bits8(w)));
    Bits8Injective(Bits8(v), Bits8(w));
    Bits8Injective(v, w);
    XorComm(c, x);
    XorComm(c, y);
    XorCancel(x, c);
    XorCancel(y, c);
    WordInjective(d[0], d[1], d[2], d[3], e[0], e[1], e[2], e[3]);
  }

  /** At most four different bytes at the same place never go unnoticed. */
  lemma WindowInjective(c: bv32, d: seq<bv8>, e: seq<bv8>)
    requires |d| == |e| <= 4 && Update(c, d) == Update(c, e)
    ensures d == e
  {
    hide Update;
    var pad := seq(4 - |d|, i => 0 as bv8);
    UpdateConcat(c, d, pad);
    UpdateConcat(c, e, pad);
    FourInjective(c, d + pad, e + pad);
    assert d == (d + pad)[..|d|] && e == (e + pad)[..|d|];
  }

  lemma UpdateParts(c: bv32, d: seq<bv8>, i: nat, j: nat)
    requires i <= j <= |d|
    ensures Update(c, d) == Update(Update(Update(c, d[..i]), d[i..j]), d[j..])
  {
    hide Update;
    Parts(d, i, j);
    UpdateConcat(c, d[..i], d[i..j]);
    UpdateConcat(c, d[..i] + d[i..j], d[j..]);
  }

  lemma Parts(d: seq<bv8>, i: nat, j: nat)
    requires i <= j <= |d|
    ensures d == d[..i] + d[i..j] + d[j..]
  {
  }

  /** Images of equal length that differ, but only within four consecutive bytes from i on,
      have different checksums. */
  lemma BurstDetected(a: seq<bv8>, b: seq<bv8>, i: nat)
    requires |a| == |b| && i <= |a| && a != b && a[..i] == b[..i]
    requires i + 4 <= |a| ==> a[i + 4..] == b[i + 4..]
    ensures Crc32(a) != Crc32(b)
  {
    hide Update, Xor;
    var j := if i + 4 <= |a| then i + 4 else |a|;
    var c := Update(0xFFFF_FFFF, a[..i]);
    UpdateParts(0xFFFF_FFFF, a, i, j);
    UpdateParts(0xFFFF_FFFF, b, i, j);
    assert a[j..] == b[j..];
    Parts(a, i, j);
    Parts(b, i, j);
    if Crc32(a) == Crc32(b) {
      XorCancel(Update(0xFFFF_FFFF, a), 0xFFFF_FFFF);
      XorCancel(Update(0xFFFF_FFFF, b), 0xFFFF_FFFF);
      UpdateInjective(Update(c, a[i..j]), Update(c, b[i..j]), a[j..]);
      WindowInjective(c, a[i..j], b[i..j]);
    }
  }

  lemma RoundTrip(x: bv32)
    ensures ((x as int) as bv32) == x
  {
  }

  lemma ValueInjective(a: seq<bv8>, b: seq<bv8>)
    requires Value(a) == Value(b)
    ensures Crc32(a) == Crc32(b)
  {
    hide Crc32;
    RoundTrip(Crc32(a));
    RoundTrip(Crc32(b));
  }
}
