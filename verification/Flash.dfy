/** A flash memory as its driver sees it: erasing sets bits, programming clears them, and
    any operation may fail or be cut short by a power loss. */
module Flash {
  /** How an operation ended.  After Cut nothing runs until the next power-up. */
  datatype Status = Ok | Err | Cut

  type Image = seq<bv8>

  // ---------------------------------------------------------------- bytes

  function And(x: bv8, y: bv8): bv8 { x & y }

  /** n is on the way from x to the cleared value t: no bit set that was clear, none cleared
      that t keeps. */
  predicate Mid(x: bv8, t: bv8, n: bv8) { And(x, n) == n && And(n, t) == t }

  lemma AndLaws(x: bv8, d: bv8)
    ensures And(0xFF, d) == d && Mid(x, And(x, d), x) && Mid(x, And(x, d), And(x, d)) && Mid(x, x, x)
  {
  }

  lemma MidAnd(x: bv8, d: bv8, n: bv8)
    ensures Mid(x, And(x, d), n) ==> And(n, d) == And(x, d)
  {
  }

  lemma MidTrans(x: bv8, t: bv8, n: bv8, o: bv8)
    ensures Mid(x, t, n) && Mid(n, t, o) ==> Mid(x, t, o)
  {
  }

  lemma MidFixed(x: bv8, n: bv8)
    ensures Mid(x, x, n) ==> n == x
  {
  }

  // ---------------------------------------------------------------- contents

  /** m with the bits of d cleared where d has them clear, from address a on. */
  function AndRange(m: Image, a: nat, d: Image): (r: Image)
    ensures |r| == |m|
  {
    seq(|m|, i requires 0 <= i < |m| => if a <= i < a + |d| then And(m[i], d[i - a]) else m[i])
  }

  /** What programming d at address a does to a memory that addresses inside units: bytes
      past the end of the unit come round to its start. */
  function Programmed(m: Image, unit: nat, a: nat, d: Image): (r: Image)
    requires unit > 0
    ensures |r| == |m|
  {
    seq(|m|, i requires 0 <= i < |m| =>
      var base := a - a % unit;
      var k := if i >= a then i - a else i - a + unit;
      if base <= i < base + unit && k < |d| then And(m[i], d[k]) else m[i])
  }

  /** Inside its unit nothing comes round. */
  lemma WithinUnit(m: Image, unit: nat, a: nat, d: Image)
    requires unit > 0 && a % unit + |d| <= unit
    ensures Programmed(m, unit, a, d) == AndRange(m, a, d)
  {
  }

  /** Every byte of n lies between those of m and of t. */
  predicate Toward(m: Image, t: Image, n: Image) {
    |m| == |t| == |n| && forall i {:trigger n[i]} :: 0 <= i < |m| ==> Mid(m[i], t[i], n[i])
  }

  function Filled(m: Image, a: nat, len: nat): (r: Image)
    ensures |r| == |m|
  {
    seq(|m|, i requires 0 <= i < |m| => if a <= i < a + len then 0xFF else m[i])
  }

  predicate SameOutside(m: Image, n: Image, a: nat, len: nat) {
    |m| == |n| && forall i {:trigger n[i]} :: 0 <= i < |m| && !(a <= i < a + len) ==> n[i] == m[i]
  }

  // ---------------------------------------------------------------- interrupted programming

  /** Programming the same data again finishes what an interrupted attempt began. */
  lemma RetryCompletes(m: Image, a: nat, d: Image, n: Image)
    requires Toward(m, AndRange(m, a, d), n)
    ensures AndRange(n, a, d) == AndRange(m, a, d)
  {
    var t := AndRange(m, a, d);
    forall i | 0 <= i < |m| ensures AndRange(n, a, d)[i] == t[i] {
      assert Mid(m[i], t[i], n[i]);
      if a <= i < a + |d| { MidAnd(m[i], d[i - a], n[i]); } else { MidFixed(m[i], n[i]); }
    }
  }

  lemma TowardSelf(m: Image, a: nat, d: Image)
    ensures Toward(m, AndRange(m, a, d), m) && Toward(m, AndRange(m, a, d), AndRange(m, a, d))
  {
    forall i | 0 <= i < |m| ensures Mid(m[i], AndRange(m, a, d)[i], m[i])
      && Mid(m[i], AndRange(m, a, d)[i], AndRange(m, a, d)[i]) {
      AndLaws(m[i], if a <= i < a + |d| then d[i - a] else 0);
    }
  }

  lemma TowardTrans(m: Image, t: Image, n: Image, o: Image)
    requires Toward(m, t, n) && Toward(n, t, o)
    ensures Toward(m, t, o)
  {
    forall i | 0 <= i < |m| ensures Mid(m[i], t[i], o[i]) {
      assert Mid(m[i], t[i], n[i]) && Mid(n[i], t[i], o[i]);
      MidTrans(m[i], t[i], n[i], o[i]);
    }
  }

  lemma TowardOutside(m: Image, a: nat, d: Image, n: Image)
    requires Toward(m, AndRange(m, a, d), n)
    ensures SameOutside(m, n, a, |d|)
  {
    forall i | 0 <= i < |m| && !(a <= i < a + |d|) ensures n[i] == m[i] {
      assert Mid(m[i], AndRange(m, a, d)[i], n[i]);
      MidFixed(m[i], n[i]);
    }
  }

  /** Erased bytes take the data as it is. */
  lemma ErasedTakes(m: Image, a: nat, d: Image)
    requires a + |d| <= |m| && forall i {:trigger m[i]} :: a <= i < a + |d| ==> m[i] == 0xFF
    ensures AndRange(m, a, d)[a..a + |d|] == d
  {
    forall k | 0 <= k < |d| ensures AndRange(m, a, d)[a + k] == d[k] {
      AndLaws(0xFF, d[k]);
    }
  }

  // ---------------------------------------------------------------- the device

  datatype Burst = Burst(addr: nat, len: nat)

  class Device {
    const unit: nat
    var mem: Image
    /** Every program operation issued, and how many operations of any kind failed or were
        cut short. */
    ghost var bursts: seq<Burst>
    ghost var faults: nat

    ghost predicate Valid()
      reads this
    {
      unit > 0
    }

    constructor (contents: Image, programUnit: nat)
      requires programUnit > 0
      ensures Valid() && mem == contents && unit == programUnit && bursts == []
    {
      unit, mem, bursts, faults := programUnit, contents, [], 0;
    }

    /** One program operation; failing, it leaves the bytes anywhere on their way.  An address
        past the end is refused, like that of any other operation: the controller is told
        the size of the memory. */
    method Program(a: nat, d: Image) returns (st: Status)
      requires Valid() && 1 <= |d| <= unit
      modifies this
      ensures Valid() && bursts == old(bursts) + [Burst(a, |d|)]
      ensures st == Ok ==> a < |mem| && mem == Programmed(old(mem), unit, a, d)
      ensures Toward(old(mem), Programmed(old(mem), unit, a, d), mem)
      ensures faults == old(faults) + (if st == Ok then 0 else 1)
    {
      bursts := bursts + [Burst(a, |d|)];
      var target := Programmed(mem, unit, a, d);
      TowardProgrammed(mem, unit, a, d);
      if a >= |mem| {
        st := Fails();
        return;
      }
      if * {
        mem := target;
        return Ok;
      }
      var n: Image := *;
      if Toward(mem, target, n) {
        mem := n;
      }
      st := Fails();
    }

    /** Erasing a range; failing, it leaves anything there. */
    method Erase(a: nat, len: nat) returns (st: Status)
      requires Valid()
      modifies `mem, `faults
      ensures st == Ok ==> a + len <= |mem| && mem == Filled(old(mem), a, len)
      ensures SameOutside(old(mem), mem, a, len)
      ensures faults == old(faults) + (if st == Ok then 0 else 1)
    {
      if a + len > |mem| {
        st := Fails();
        return;
      }
      if * {
        mem := Filled(mem, a, len);
        return Ok;
      }
      var n: Image := *;
      if SameOutside(mem, n, a, len) {
        mem := n;
      }
      st := Fails();
    }

    method Read(a: nat, len: nat) returns (st: Status, d: Image)
      modifies `faults
      ensures |d| == len && (st == Ok ==> a + len <= |mem| && d == mem[a..a + len])
      ensures faults == old(faults) + (if st == Ok then 0 else 1)
    {
      if a + len <= |mem| {
        if * { return Ok, mem[a..a + len]; }
      }
      d := seq(len, i => 0);
      st := Fails();
    }

    method Fails() returns (st: Status)
      modifies `faults
      ensures st != Ok && faults == old(faults) + 1
    {
      faults := faults + 1;
      if * { return Err; }
      return Cut;
    }
  }

  lemma TowardProgrammed(m: Image, unit: nat, a: nat, d: Image)
    requires unit > 0
    ensures var t := Programmed(m, unit, a, d); Toward(m, t, m) && Toward(m, t, t)
  {
    var t := Programmed(m, unit, a, d);
    forall i | 0 <= i < |m| ensures Mid(m[i], t[i], m[i]) && Mid(m[i], t[i], t[i]) {
      var k := if i >= a then i - a else i - a + unit;
      AndLaws(m[i], if 0 <= k < |d| then d[k] else 0);
    }
  }
}
