/** Powers, exact division and congruences: the integer facts every other module rests on. */
module Arith {

  function Pow(b: nat, e: nat): (r: nat)
    ensures b > 0 ==> r > 0
    decreases e
  {
    if e == 0 then 1 else b * Pow(b, e - 1)
  }

  lemma {:induction false} PowAdd(b: nat, x: nat, y: nat)
    ensures Pow(b, x + y) == Pow(b, x) * Pow(b, y)
    decreases x
  {
    if x == 0 {
    } else {
      PowAdd(b, x - 1, y);
      Assoc(b, Pow(b, x - 1), Pow(b, y));
    }
  }

  lemma PowSnoc(b: nat, e: nat)
    ensures Pow(b, e) * b == Pow(b, e + 1)
  {
  }

  lemma {:induction false} PowPow(b: nat, x: nat, y: nat)
    ensures Pow(Pow(b, x), y) == Pow(b, x * y)
    decreases y
  {
    if y == 0 {
    } else {
      PowPow(b, x, y - 1);
      PowAdd(b, x, x * (y - 1));
      assert x + x * (y - 1) == x * y;
    }
  }

  lemma {:induction false} PowMono(b: nat, x: nat, y: nat)
    requires b >= 1 && x <= y
    ensures Pow(b, x) <= Pow(b, y)
  {
    PowAdd(b, x, y - x);
    MulMono(1, Pow(b, y - x), Pow(b, x));
  }

  lemma Assoc(x: int, y: int, z: int)
    ensures x * (y * z) == (x * y) * z
  {
  }

  lemma Exchange(x: int, y: int, z: int)
    ensures x * (y * z) == y * (x * z)
  {
    Assoc(x, y, z);
    Assoc(y, x, z);
  }

  lemma MulMono(x: int, y: int, z: int)
    requires x <= y && 0 <= z
    ensures x * z <= y * z
  {
  }

  lemma MulCancelLe(x: int, y: int, z: int)
    requires 0 < z && x * z <= y * z
    ensures x <= y
  {
    if x > y {
      MulMono(y + 1, x, z);
    }
  }

  /** Cancels a positive factor from a strict inequality. */
  lemma MulCancelLt(x: int, y: int, z: int)
    requires 0 < z && x * z < y * z
    ensures x < y
  {
    if x >= y {
      MulMono(y, x, z);
    }
  }

  lemma MulCancelEq(x: int, y: int, z: int)
    requires 0 < z && x * z == y * z
    ensures x == y
  {
    MulCancelLe(x, y, z);
    MulCancelLe(y, x, z);
  }

  lemma DivModUnique(a: int, m: int, q: int, r: int)
    requires 0 < m && 0 <= r < m && a == q * m + r
    ensures a / m == q && a % m == r
  {
    var q', r' := a / m, a % m;
    assert a == q' * m + r';
    if q < q' {
      MulMono(q + 1, q', m);
    } else if q' < q {
      MulMono(q' + 1, q, m);
    }
  }

  /** The remainder by repeated subtraction, or repeated addition for negative numbers. */
  function Rem(x: int, m: int): (r: int)
    requires m > 0
    decreases if x < 0 then m - x else x
  {
    if x < 0 then Rem(x + m, m) else if x < m then x else Rem(x - m, m)
  }

  /** Two numbers leave the same remainder modulo `m`. */
  predicate Cong(x: int, y: int, m: int)
    requires m > 0
  {
    Rem(x, m) == Rem(y, m)
  }

  lemma {:induction false} RemIsMod(x: int, m: int)
    requires m > 0
    ensures Rem(x, m) == x % m
    decreases if x < 0 then m - x else x
  {
    var q := x / m;
    assert x == q * m + x % m;
    if x < 0 {
      RemIsMod(x + m, m);
      DivModUnique(x + m, m, q + 1, x % m);
    } else if x < m {
      DivModUnique(x, m, 0, x);
    } else {
      RemIsMod(x - m, m);
      DivModUnique(x - m, m, q - 1, x % m);
    }
  }

  lemma CongIsMod(x: int, y: int, m: int)
    requires m > 0
    ensures Cong(x, y, m) <==> x % m == y % m
  {
    RemIsMod(x, m);
    RemIsMod(y, m);
  }

  lemma CongIntro(x: int, y: int, q: int, m: int)
    requires m > 0 && x == y + q * m
    ensures Cong(x, y, m)
  {
    var d := y / m;
    assert y == d * m + y % m;
    assert x == (d + q) * m + y % m;
    DivModUnique(x, m, d + q, y % m);
    CongIsMod(x, y, m);
  }

  lemma CongElim(x: int, y: int, m: int) returns (q: int)
    requires m > 0 && Cong(x, y, m)
    ensures x == y + q * m
  {
    CongIsMod(x, y, m);
    q := x / m - y / m;
    assert x == (x / m) * m + x % m;
    assert y == (y / m) * m + y % m;
    assert q * m == (x / m) * m - (y / m) * m;
  }

  lemma CongMul(x: int, y: int, z: int, m: int)
    requires m > 0 && Cong(x, y, m)
    ensures Cong(x * z, y * z, m) && Cong(z * x, z * y, m)
  {
    var q := CongElim(x, y, m);
    assert x * z == y * z + (q * z) * m by {
      assert (y + q * m) * z == y * z + (q * m) * z;
      assert (q * m) * z == (q * z) * m;
    }
    CongIntro(x * z, y * z, q * z, m);
  }

  lemma CongMul2(x: int, y: int, x': int, y': int, m: int)
    requires m > 0 && Cong(x, y, m) && Cong(x', y', m)
    ensures Cong(x * x', y * y', m)
  {
    CongMul(x, y, x', m);
    CongMul(x', y', y, m);
  }

  lemma CongAdd(x: int, y: int, x': int, y': int, m: int)
    requires m > 0 && Cong(x, y, m) && Cong(x', y', m)
    ensures Cong(x + x', y + y', m) && Cong(x - x', y - y', m)
  {
    var q := CongElim(x, y, m);
    var q' := CongElim(x', y', m);
    assert (q + q') * m == q * m + q' * m && (q - q') * m == q * m - q' * m;
    CongIntro(x + x', y + y', q + q', m);
    CongIntro(x - x', y - y', q - q', m);
  }

  lemma CongSmall(x: int, y: int, m: int)
    requires m > 0 && Cong(x, y, m) && 0 <= x < m && 0 <= y < m
    ensures x == y
  {
  }

  lemma CongMod(x: int, m: int)
    requires m > 0
    ensures Cong(x % m, x, m)
  {
    CongIntro(x, x % m, x / m, m);
  }

  /** An odd modulus divides twice a number only if it divides the number. */
  lemma CancelTwo(x: int, y: int, m: int)
    requires m > 0 && m % 2 == 1 && Cong(2 * x, 2 * y, m)
    ensures Cong(x, y, m)
  {
    var q := CongElim(2 * x, 2 * y, m);
    OddTimes(q, m);
    var t := q / 2;
    assert q * m == 2 * (t * m) by { assert q == 2 * t; }
    CongIntro(x, y, t, m);
  }

  lemma OddTimes(q: int, m: int)
    requires m % 2 == 1
    ensures (q * m) % 2 == q % 2
  {
    var h := m / 2;
    assert q * m == 2 * (q * h) + q by { assert m == 2 * h + 1; }
  }

  /** A power of two may be cancelled modulo an odd number. */
  lemma {:induction false} CancelPow2(x: int, y: int, e: nat, m: int)
    requires m > 0 && m % 2 == 1 && Cong(x * Pow(2, e), y * Pow(2, e), m)
    ensures Cong(x, y, m)
    decreases e
  {
    if e == 0 {
    } else {
      var p := Pow(2, e - 1);
      Exchange(x, 2, p);
      Exchange(y, 2, p);
      CancelTwo(x * p, y * p, m);
      CancelPow2(x, y, e - 1, m);
    }
  }

  /** Montgomery representatives are unique: `r * 2^e = c (mod m)` has one solution below an odd `m`. */
  lemma MontUnique(r: nat, s: nat, c: int, e: nat, m: nat)
    requires m % 2 == 1 && r < m && s < m
    requires Cong(r * Pow(2, e), c, m) && Cong(s * Pow(2, e), c, m)
    ensures r == s
  {
    CancelPow2(r, s, e, m);
    CongSmall(r, s, m);
  }

  lemma {:induction false} CongPow(x: nat, y: nat, e: nat, m: nat)
    requires m > 0 && Cong(x, y, m)
    ensures Cong(Pow(x, e), Pow(y, e), m)
    decreases e
  {
    if e == 0 {
    } else {
      CongPow(x, y, e - 1, m);
      CongMul2(x, y, Pow(x, e - 1), Pow(y, e - 1), m);
    }
  }

  lemma Pow2Even(e: nat)
    requires e > 0
    ensures Pow(2, e) % 2 == 0
  {
  }

  lemma DivDiv(x: nat, a: nat, b: nat)
    requires a > 0 && b > 0
    ensures a * b > 0 && x / (a * b) == x / a / b
  {
    var q := x / a;
    var q2 := q / b;
    assert x == q * a + x % a && q == q2 * b + q % b;
    assert (q2 * b + q % b) * a == q2 * (a * b) + (q % b) * a;
    MulMono(q % b, b - 1, a);
    DivModUnique(x, a * b, q2, (q % b) * a + x % a);
  }

  /** Logical shift right by `bits`. */
  function Shr(v: nat, bits: nat): nat
    decreases bits
  {
    if bits == 0 then v else Shr(v / 2, bits - 1)
  }

  lemma {:induction false} ShrIsDiv(v: nat, bits: nat)
    ensures Shr(v, bits) == v / Pow(2, bits)
    decreases bits
  {
    if bits == 0 {
    } else {
      ShrIsDiv(v / 2, bits - 1);
      DivDiv(v, 2, Pow(2, bits - 1));
    }
  }

  lemma ShrExact(v: nat, bits: nat, q: nat, r: nat)
    requires r < Pow(2, bits) && v == r + Pow(2, bits) * q
    ensures Shr(v, bits) == q
  {
    ShrIsDiv(v, bits);
    DivModUnique(v, Pow(2, bits), q, r);
  }

  lemma {:induction false} ShrAdd(v: nat, x: nat, y: nat)
    ensures Shr(v, x + y) == Shr(Shr(v, x), y)
    decreases x
  {
    if x == 0 {
    } else {
      ShrAdd(v / 2, x - 1, y);
    }
  }
}
