/** Montgomery representatives and what an almost-Montgomery product does to them. */
module Montgomery {
  import opened Arith
  import opened Digits
  import opened Lanes
  import opened Amm

  /** The Montgomery radix of an n-digit modulus. */
  ghost function Radix(n: nat): (r: nat)
    ensures r > 0
  {
    Pow(W52, n)
  }

  /** `v` shifted up by `n` digits. */
  ghost function Form(v: nat, n: nat): nat
    decreases n
  {
    if n == 0 then v else W52 * Form(v, n - 1)
  }

  lemma {:induction false} FormIsProduct(v: nat, n: nat)
    ensures Form(v, n) == v * Radix(n)
    decreases n
  {
    if n == 0 {
    } else {
      FormIsProduct(v, n - 1);
      var p := Radix(n - 1);
      assert W52 * (v * p) == v * (W52 * p);
    }
  }

  /** `x` represents the residue `v` in the Montgomery domain: it is congruent to `v` times the radix. */
  ghost predicate Represents(x: nat, v: nat, m: nat, n: nat)
    requires m > 0
  {
    Cong(x, Form(v, n), m)
  }

  lemma Pow2Digit()
    ensures Pow(2, 52) == W52
  {
    assert Pow(2, 13) == 0x2000;
    PowAdd(2, 13, 13);
    PowAdd(2, 26, 26);
  }

  lemma RadixIsPow2(n: nat)
    ensures Radix(n) == Pow(2, 52 * n)
  {
    Pow2Digit();
    PowPow(2, 52, n);
  }

  lemma RadixCancel(x: int, y: int, n: nat, m: int)
    requires m > 0 && m % 2 == 1 && Cong(x * Radix(n), y * Radix(n), m)
    ensures Cong(x, y, m)
  {
    RadixIsPow2(n);
    CancelPow2(x, y, 52 * n, m);
  }

  /** A modulus with a Montgomery factor is odd. */
  lemma FactorMakesOdd(m: seq<nat>, k0: nat)
    requires |m| > 0 && Cong(k0 * m[0] + 1, 0, W52)
    ensures Val(m, W52) % 2 == 1
  {
    CongIsMod(k0 * m[0] + 1, 0, W52);
    EvenTotal(k0 * m[0] + 1);
    OddFactor(k0, m[0]);
    EvenTail(m[0], Val(m[1..], W52));
  }

  lemma EvenTotal(x: nat)
    requires x % W52 == 0
    ensures x % 2 == 0
  {
  }

  lemma EvenTail(d: nat, v: nat)
    ensures (d + W52 * v) % 2 == d % 2
  {
  }

  lemma OddFactor(k: nat, d: nat)
    requires (k * d + 1) % 2 == 0
    ensures d % 2 == 1
  {
    var h := d / 2;
    assert k * d == 2 * (k * h) + k * (d % 2) by {
      assert d == 2 * h + d % 2;
    }
  }

  /** The product of representatives represents the product. */
  lemma ProductRepresents(r: nat, a: nat, b: nat, va: nat, vb: nat, m: nat, n: nat, y: nat)
    requires m > 0 && m % 2 == 1 && AlmostProduct(r, a * b, m, n, y)
    requires Represents(a, va, m, n) && Represents(b, vb, m, n)
    ensures Represents(r, va * vb, m, n)
  {
    var R := Radix(n);
    FormIsProduct(va, n);
    FormIsProduct(vb, n);
    FormIsProduct(va * vb, n);
    ProductCong(r, a * b, m, n, y);
    CongMul2(a, va * R, b, vb * R, m);
    Regroup(va, vb, R);
    RadixCancel(r, va * vb * R, n, m);
  }

  lemma Regroup(x: nat, y: nat, R: nat)
    ensures (x * R) * (y * R) == x * y * R * R
  {
    assert (x * R) * (y * R) == x * (R * (y * R)) by { Assoc(x, R, y * R); }
    assert R * (y * R) == (y * R) * R;
    assert x * ((y * R) * R) == (x * (y * R)) * R by { Assoc(x, y * R, R); }
    assert x * (y * R) == (x * y) * R by { Assoc(x, y, R); }
  }

  lemma ProductCong(r: nat, ab: nat, m: nat, n: nat, y: nat)
    requires m > 0 && AlmostProduct(r, ab, m, n, y)
    ensures Cong(r * Radix(n), ab, m)
  {
    CongIntro(r * Radix(n), ab, y, m);
  }

  /** Multiplying by the square of the radix enters the Montgomery domain. */
  lemma EntryRepresents(r: nat, x: nat, c: nat, m: nat, n: nat, y: nat)
    requires m > 0 && m % 2 == 1 && AlmostProduct(r, x * c, m, n, y)
    requires Cong(c, Radix(n) * Radix(n), m)
    ensures Represents(r, x, m, n)
  {
    var R := Radix(n);
    FormIsProduct(x, n);
    ProductCong(r, x * c, m, n, y);
    CongMul(c, R * R, x, m);
    assert x * (R * R) == x * R * R by { Assoc(x, R, R); }
    RadixCancel(r, x * R, n, m);
  }

  /** Multiplying by one leaves the domain and ends at or below the modulus. */
  lemma ExitReduces(r: nat, a: nat, v: nat, m: nat, n: nat, y: nat)
    requires m > 0 && m % 2 == 1 && AlmostProduct(r, a, m, n, y) && a < 2 * m
    requires Represents(a, v, m, n) && m <= Radix(n)
    ensures Cong(r, v, m) && r <= m
  {
    var R := Radix(n);
    FormIsProduct(v, n);
    ProductCong(r, a, m, n, y);
    RadixCancel(r, v, n, m);
    ExitBound(r, a, m, R, y);
  }

  lemma ExitBound(r: nat, a: nat, m: nat, R: nat, y: nat)
    requires r * R == a + m * y && y < R && a < 2 * m && m <= R
    ensures r <= m
  {
    MulMono(y, R - 1, m);
    assert (R - 1) * m == R * m - m && (m + 1) * R == R * m + R;
    MulCancelLt(r, m + 1, R);
  }

  /** Operands below twice the modulus stay in range because two spare bits are kept above the modulus. */
  lemma OperandsFit(a: nat, b: nat, m: nat, n: nat)
    requires a < 2 * m && b < 2 * m && 4 * m <= Radix(n)
    ensures a * b < m * Radix(n) && b < Radix(n)
  {
    var R := Radix(n);
    MulMono(a, 2 * m - 1, b);
    MulMono(b, 2 * m - 1, 2 * m - 1);
    assert a * b <= (2 * m - 1) * (2 * m - 1);
    assert (2 * m - 1) * (2 * m - 1) < m * (4 * m);
    MulMono(4 * m, R, m);
  }

  /** Normalised digits below twice the modulus that represent `v`. */
  ghost predicate Rep(x: seq<nat>, v: nat, m: seq<nat>, n: nat)
  {
    && Val(m, W52) > 0
    && |x| == |m| && Bounded(x, W52) && Val(x, W52) < 2 * Val(m, W52)
    && Represents(Val(x, W52), v, Val(m, W52), n)
  }

  /** A modulus with the two spare bits exponentiation needs. */
  ghost predicate ExpModulus(m: seq<nat>, n: nat, k0: nat)
  {
    Modulus(m, n, k0) && 4 * Val(m, W52) <= Radix(n)
  }
}
