/** Bitwise operations on unbounded naturals, defined bit by bit. */
module Bits {
  import opened Arith

  function Bit(x: nat, j: nat): bool
    decreases j
  {
    if j == 0 then x % 2 == 1 else Bit(x / 2, j - 1)
  }

  function Xor(x: nat, y: nat): (r: nat)
    decreases x + y
  {
    if x == 0 && y == 0 then 0 else (x % 2 + y % 2) % 2 + 2 * Xor(x / 2, y / 2)
  }

  function Or(x: nat, y: nat): (r: nat)
    decreases x + y
  {
    if x == 0 && y == 0 then 0
    else (if x % 2 == 1 || y % 2 == 1 then 1 else 0) + 2 * Or(x / 2, y / 2)
  }

  lemma {:induction false} XorBit(x: nat, y: nat, j: nat)
    ensures Bit(Xor(x, y), j) == (Bit(x, j) != Bit(y, j))
    decreases j
  {
    if x == 0 && y == 0 {
      ZeroBit(j);
    } else {
      XorHalves(x, y);
      if j > 0 {
        XorBit(x / 2, y / 2, j - 1);
      }
    }
  }

  lemma XorHalves(x: nat, y: nat)
    ensures Xor(x, y) % 2 == (x % 2 + y % 2) % 2 && Xor(x, y) / 2 == Xor(x / 2, y / 2)
  {
  }

  lemma {:induction false} ZeroBit(j: nat)
    ensures !Bit(0, j)
    decreases j
  {
    if j == 0 {
    } else {
      ZeroBit(j - 1);
    }
  }

  /** The `n` low bits of 2^n - 1 are ones. */
  lemma {:induction false} AllOnes(n: nat, j: nat)
    ensures Bit(Pow(2, n) - 1, j) == (j < n)
    decreases j
  {
    if n == 0 {
      ZeroBit(j);
    } else {
      var p := Pow(2, n - 1);
      assert Pow(2, n) - 1 == 2 * (p - 1) + 1 && (Pow(2, n) - 1) / 2 == p - 1;
      if j > 0 {
        AllOnes(n - 1, j - 1);
      }
    }
  }

  /** Truncation to `width` bits keeps every bit below `width`. */
  lemma {:induction false} TruncBit(x: nat, width: nat, j: nat)
    requires j < width
    ensures Bit(x % Pow(2, width), j) == Bit(x, j)
    decreases j
  {
    var p := Pow(2, width - 1);
    var q, r := x / Pow(2, width), x % Pow(2, width);
    assert Pow(2, width) == 2 * p;
    assert x == 2 * (q * p) + r;
    if j == 0 {
    } else {
      assert x / 2 == q * p + r / 2;
      DivModUnique(x / 2, p, q, r / 2);
      TruncBit(x / 2, width - 1, j - 1);
    }
  }

  /** On operands that share no bit, exclusive or and or are addition. */
  lemma {:induction false} DisjointAdd(x: nat, h: nat, s: nat)
    requires x < Pow(2, s)
    ensures Xor(x, h * Pow(2, s)) == x + h * Pow(2, s)
    ensures Or(x, h * Pow(2, s)) == x + h * Pow(2, s)
    decreases s
  {
    if s == 0 {
      XorZero(h);
    } else {
      var y := h * Pow(2, s - 1);
      assert h * Pow(2, s) == 2 * y;
      DisjointAdd(x / 2, h, s - 1);
      XorDouble(x, y);
    }
  }

  lemma XorDouble(x: nat, y: nat)
    ensures Xor(x, 2 * y) == x % 2 + 2 * Xor(x / 2, y)
    ensures Or(x, 2 * y) == x % 2 + 2 * Or(x / 2, y)
  {
  }

  lemma {:induction false} XorZero(x: nat)
    ensures Xor(0, x) == x && Or(0, x) == x
  {
    if x == 0 {
    } else {
      XorZero(x / 2);
    }
  }

  /** The mask register whose bit j is flag j. */
  function MaskOf(flags: seq<bool>): nat
  {
    if flags == [] then 0 else (if flags[0] then 1 else 0) + 2 * MaskOf(flags[1..])
  }

  /** The low bits of a number as flags. */
  function FlagsOf(n: nat, width: nat): (f: seq<bool>)
    ensures |f| == width
    decreases n, width
  {
    if width == 0 then [] else [n % 2 == 1] + FlagsOf(n / 2, width - 1)
  }

  lemma {:induction false} MaskOfFlags(n: nat, width: nat)
    requires n < Pow(2, width)
    ensures MaskOf(FlagsOf(n, width)) == n
    decreases width
  {
    if width == 0 {
    } else {
      MaskOfFlags(n / 2, width - 1);
      assert FlagsOf(n, width)[1..] == FlagsOf(n / 2, width - 1);
    }
  }

  lemma {:induction false} FlagsOfMask(f: seq<bool>)
    ensures FlagsOf(MaskOf(f), |f|) == f
  {
    if f == [] {
    } else {
      FlagsOfMask(f[1..]);
      assert MaskOf(f) / 2 == MaskOf(f[1..]);
    }
  }

  lemma {:induction false} MaskOfBound(flags: seq<bool>)
    ensures MaskOf(flags) < Pow(2, |flags|)
  {
    if flags == [] {
    } else {
      MaskOfBound(flags[1..]);
    }
  }

  /** Ripple carry: lane 0 receives `c`; a lane passes a carry on when it generates or propagates one. */
  function Carries(gen: seq<bool>, prop: seq<bool>, c: bool): (r: seq<bool>)
    requires |gen| == |prop|
    ensures |r| == |gen|
  {
    if gen == [] then [] else [c] + Carries(gen[1..], prop[1..], gen[0] || (prop[0] && c))
  }

  /** One integer addition of the masks, xored with the propagate mask, is the whole ripple-carry chain. */
  lemma {:induction false} MaskAdditionRipples(gen: seq<bool>, prop: seq<bool>, c: bool, j: nat)
    requires |gen| == |prop| && j < |gen|
    requires forall i :: 0 <= i < |gen| ==> !(gen[i] && prop[i])
    ensures Bit(Xor(MaskOf(prop) + 2 * MaskOf(gen) + (if c then 1 else 0), MaskOf(prop)), j)
         == Carries(gen, prop, c)[j]
    decreases j
  {
    hide Xor;
    var l, k := MaskOf(prop), MaskOf(gen);
    var sum := l + 2 * k + (if c then 1 else 0);
    XorBit(sum, l, j);
    if j == 0 {
    } else {
      var c' := gen[0] || (prop[0] && c);
      var l', k' := MaskOf(prop[1..]), MaskOf(gen[1..]);
      assert sum / 2 == l' + 2 * k' + (if c' then 1 else 0);
      MaskAdditionRipples(gen[1..], prop[1..], c', j - 1);
      XorBit(sum / 2, l', j - 1);
      assert l / 2 == l';
    }
  }
}
