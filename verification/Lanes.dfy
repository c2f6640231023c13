/** 64-bit lanes, the 52-bit multiply-add primitives, and parallel carry normalisation. */
module Lanes {
  import opened Arith
  import opened Digits
  import opened Bits

  const W52: nat := 0x10_0000_0000_0000
  const W64: nat := 0x1_0000_0000_0000_0000
  const MASK52: nat := 0xF_FFFF_FFFF_FFFF

  type u64 = x: nat | x < 0x1_0000_0000_0000_0000

  /** `vpmadd52luq`: adds the low 52 bits of a 52x52-bit product, wrapping at 64 bits. */
  function Madd52Lo(a: u64, b: u64, c: u64): u64
  {
    (a + ((b % W52) * (c % W52)) % W52) % W64
  }

  /** `vpmadd52huq`: adds the high 52 bits of a 52x52-bit product, wrapping at 64 bits. */
  function Madd52Hi(a: u64, b: u64, c: u64): u64
  {
    (a + ((b % W52) * (c % W52)) / W52) % W64
  }

  /** Lane mask: which lanes exceed the digit mask. */
  function AboveMask(r: seq<nat>, mask: nat): (f: seq<bool>)
    ensures |f| == |r| && forall i :: 0 <= i < |r| ==> f[i] == (mask < r[i])
  {
    if r == [] then [] else [mask < r[0]] + AboveMask(r[1..], mask)
  }

  /** Lane mask: which lanes equal the digit mask. */
  function EqualMask(r: seq<nat>, mask: nat): (f: seq<bool>)
    ensures |f| == |r| && forall i :: 0 <= i < |r| ==> f[i] == (mask == r[i])
  {
    if r == [] then [] else [mask == r[0]] + EqualMask(r[1..], mask)
  }

  /** Moving every lane's excess over one digit one lane up keeps the value, up to the excess of the top lane. */
  lemma {:induction false} ExcessMovesUp(r: seq<nat>, x: seq<nat>, t: nat, base: nat)
    requires |r| == |x| > 0 && base > 0
    requires x[0] == r[0] % base + t
    requires forall j {:trigger x[j]} :: 0 < j < |r| ==> x[j] == r[j] % base + r[j - 1] / base
    ensures Val(x, base) + Pow(base, |r|) * (r[|r| - 1] / base) == Val(r, base) + t
  {
    var q := r[0] / base;
    assert r[0] == q * base + r[0] % base;
    if |r| == 1 {
      ValSingle(r, base);
      ValSingle(x, base);
      assert Pow(base, 1) == base;
    } else {
      ExcessMovesUp(r[1..], x[1..], q, base);
      var p, top := Pow(base, |r| - 1), r[|r| - 1] / base;
      assert Pow(base, |r|) * top == base * (p * top) by { Assoc(base, p, top); }
      MulAddEq(base, Val(x[1..], base), p * top, Val(r[1..], base), q);
    }
  }

  lemma MulAddEq(z: int, a: int, b: int, c: int, d: int)
    requires a + b == c + d
    ensures z * a + z * b == z * c + z * d
  {
    assert z * (a + b) == z * a + z * b && z * (c + d) == z * c + z * d;
  }

  function Bump(x: nat, c: bool): nat
  {
    if c then x + 1 else x
  }

  /** Adding one ripple-carry bit to each lane and dropping the overflow keeps the value, up to the last carry. */
  lemma {:induction false} CarriesKeepValue(x: seq<nat>, out: seq<nat>, gen: seq<bool>, prop: seq<bool>, cs: seq<bool>,
                                            c: bool, base: nat)
    returns (last: nat)
    requires |x| == |out| && base > 0
    requires gen == AboveMask(x, base - 1) && prop == EqualMask(x, base - 1) && cs == Carries(gen, prop, c)
    requires forall j :: 0 <= j < |x| ==> x[j] + 1 < 2 * base
    requires forall j {:trigger out[j]} :: 0 <= j < |x| ==> out[j] == Bump(x[j], cs[j]) % base
    ensures Bump(Val(x, base), c) == Val(out, base) + Pow(base, |x|) * last
  {
    if x == [] {
      last := if c then 1 else 0;
    } else {
      var c' := gen[0] || (prop[0] && c);
      last := CarriesKeepValue(x[1..], out[1..], gen[1..], prop[1..], cs[1..], c', base);
      LaneCarry(x[0], c, base);
      CarryChain(x[0], out[0], if c then 1 else 0, base, Val(x[1..], base), Val(out[1..], base),
                 Pow(base, |x| - 1), last, if c' then 1 else 0);
    }
  }

  lemma CarryChain(x0: nat, out0: nat, c: nat, base: nat, xs: nat, os: nat, p: nat, last: nat, c': nat)
    requires x0 + c == out0 + base * c' && xs + c' == os + p * last
    ensures x0 + base * xs + c == out0 + base * os + (base * p) * last
  {
    assert base * (xs + c') == base * xs + base * c';
    assert base * (os + p * last) == base * os + (base * p) * last by { Assoc(base, p, last); }
  }

  lemma LaneCarry(x: nat, c: bool, base: nat)
    requires base > 0 && x + 1 < 2 * base
    ensures Bump(x, c) == Bump(x, c) % base + base * (if base - 1 < x || (base - 1 == x && c) then 1 else 0)
  {
    var s := Bump(x, c);
    DivModUnique(s, base, if s < base then 0 else 1, if s < base then s else s - base);
  }

  /** No excess leaves the top lane of a value that fits, so the move keeps the value exactly. */
  lemma ExcessStays(r: seq<nat>, x: seq<nat>, base: nat)
    requires |r| == |x| > 0 && base > 0 && Val(r, base) < Pow(base, |r|)
    requires x[0] == r[0] % base
    requires forall j {:trigger x[j]} :: 0 < j < |r| ==> x[j] == r[j] % base + r[j - 1] / base
    ensures Val(x, base) == Val(r, base)
  {
    TopLaneFits(r, base);
    ExcessMovesUp(r, x, 0, base);
    DivModUnique(r[|r| - 1], base, 0, r[|r| - 1]);
  }

  lemma TopLaneFits(r: seq<nat>, base: nat)
    requires |r| > 0 && base > 0 && Val(r, base) < Pow(base, |r|)
    ensures r[|r| - 1] < base
  {
    var n := |r| - 1;
    ValPrefix(r, n, base);
    assert r[..n + 1] == r;
    TopBound(Val(r[..n], base), r[n], Pow(base, n), base);
  }

  lemma TopBound(low: nat, top: nat, p: nat, base: nat)
    requires p > 0 && low + p * top < base * p
    ensures top < base
  {
    MulCancelLt(top, base, p);
  }

  /** The mask arithmetic marks exactly the lanes that receive a ripple carry. */
  lemma MaskMarksCarries(gen: seq<bool>, prop: seq<bool>, width: nat, j: nat)
    requires |gen| == |prop| <= width && j < |gen|
    requires forall i :: 0 <= i < |gen| ==> !(gen[i] && prop[i])
    ensures Bit(Xor((MaskOf(prop) + 2 * MaskOf(gen)) % Pow(2, width), MaskOf(prop)), j)
         == Carries(gen, prop, false)[j]
  {
    var sum, l := MaskOf(prop) + 2 * MaskOf(gen), MaskOf(prop);
    MaskAdditionRipples(gen, prop, false, j);
    XorBit(sum % Pow(2, width), l, j);
    XorBit(sum, l, j);
    TruncBit(sum, width, j);
  }

  lemma LaneSum(a: nat, b: nat)
    requires a < W64 && b < W64
    ensures (a % W52 + b / W52) % W64 == a % W52 + b / W52
    ensures a % W52 + b / W52 + 1 < 2 * W52
  {
    assert b / W52 < 0x1000;
  }

  /** First half: shift the excess bits out of every lane and add them one lane up. */
  method MoveExcess(R: array<u64>)
    requires 0 < R.Length
    requires Val(R[..], W52) < Pow(W52, R.Length)
    modifies R
    ensures forall j :: 0 <= j < R.Length ==> R[j] + 1 < 2 * W52
    ensures Val(R[..], W52) == old(Val(R[..], W52))
  {
    var n := R.Length;
    var T := new u64[n];
    ghost var r: seq<nat> := R[..];
    forall j | 0 <= j < n { T[j] := R[j] / W52; }
    forall j | 0 <= j < n { R[j] := R[j] % W52; }
    forall j | 0 <= j < n { T[j] := if j == 0 then 0 else T[j - 1]; }
    forall j | 0 <= j < n { R[j] := (R[j] + T[j]) % W64; }
    ExcessResolved(r, R[..]);
  }

  function Below(r: seq<nat>, j: nat): nat
    requires j < |r|
  {
    if j == 0 then 0 else r[j - 1]
  }

  lemma ExcessResolved(r: seq<nat>, x: seq<nat>)
    requires |r| == |x| > 0 && Bounded(r, W64) && Val(r, W52) < Pow(W52, |r|)
    requires forall j {:trigger x[j]} :: 0 <= j < |r| ==> x[j] == (r[j] % W52 + Below(r, j) / W52) % W64
    ensures forall j :: 0 <= j < |x| ==> x[j] + 1 < 2 * W52
    ensures Val(x, W52) == Val(r, W52)
  {
    hide Val;
    forall j | 0 <= j < |r|
      ensures x[j] == r[j] % W52 + Below(r, j) / W52 && x[j] + 1 < 2 * W52
    {
      LaneSum(r[j], Below(r, j));
    }
    ExcessStays(r, x, W52);
  }

  /**
   * Resolves all carries at once. `width` is the width of the mask registers
   * (32 for 20 and 30 digits, 64 for 40).
   */
  method Normalize(R: array<u64>, width: nat)
    requires 0 < R.Length <= width
    requires Val(R[..], W52) < Pow(W52, R.Length)
    modifies R
    ensures Bounded(R[..], W52)
    ensures Val(R[..], W52) == old(Val(R[..], W52))
  {
    var n := R.Length;
    MoveExcess(R);
    ghost var x: seq<nat> := R[..];
    var gen, prop := AboveMask(R[..], MASK52), EqualMask(R[..], MASK52);
    var k, l := MaskOf(gen), MaskOf(prop);
    k := (l + 2 * k) % Pow(2, width);
    k := Xor(k, l);
    ghost var c := Carries(gen, prop, false);
    forall j | 0 <= j < n
      ensures Bit(k, j) == c[j]
    {
      MaskMarksCarries(gen, prop, width, j);
    }
    forall j | 0 <= j < n { R[j] := if Bit(k, j) then (R[j] + W64 - MASK52) % W64 else R[j]; }
    forall j | 0 <= j < n { R[j] := R[j] % W52; }
    forall j | 0 <= j < n
      ensures R[j] == Bump(x[j], c[j]) % W52
    {
      LaneIncrement(x[j], c[j]);
    }
    ghost var last := CarriesKeepValue(x, R[..], gen, prop, c, false, W52);
    HighPartZero(Val(R[..], W52), last, Pow(W52, n));
  }

  /** Subtracting the digit mask and masking adds one and drops bit 52. */
  lemma LaneIncrement(x: nat, c: bool)
    requires x + 1 < 2 * W52
    ensures (if c then (x + W64 - MASK52) % W64 else x) % W52 == Bump(x, c) % W52
  {
  }
}
