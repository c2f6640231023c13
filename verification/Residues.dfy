/** Residues scaled by a power of two: encoding into the Montgomery domain, decoding, and what arithmetic does to them. */
module Residues {
  import opened Arith

  lemma {:induction false} HalvesCancel(e: nat, m: nat)
    requires m % 2 == 1
    ensures Cong(Pow((m + 1) / 2, e) * Pow(2, e), 1, m)
    decreases e
  {
    if e == 0 {
    } else {
      var h := (m + 1) / 2;
      HalvesCancel(e - 1, m);
      CongIntro(h * 2, 1, 1, m);
      CongMul2(h * 2, 1, Pow(h, e - 1) * Pow(2, e - 1), 1, m);
      Interchange(h, 2, Pow(h, e - 1), Pow(2, e - 1));
    }
  }

  lemma Interchange(a: int, b: int, c: int, d: int)
    ensures (a * b) * (c * d) == (a * c) * (b * d)
  {
    Assoc(a, b, c * d);
    Assoc(b, c, d);
    Assoc(c, b, d);
    Assoc(a, c, b * d);
    assert b * c == c * b;
  }

  /** The residue `x * 2^-e mod m` of an odd modulus. */
  ghost function Unscaled(x: int, e: nat, m: nat): (v: nat)
    requires m > 0
    ensures v < m
  {
    x * Pow((m + 1) / 2, e) % m
  }

  /** It is the one residue that gives `x` when scaled back. */
  lemma UnscaledIs(r: nat, x: int, e: nat, m: nat)
    requires m % 2 == 1 && r < m
    ensures Cong(r * Pow(2, e), x, m) <==> r == Unscaled(x, e, m)
  {
    var u, h, p := Unscaled(x, e, m), Pow((m + 1) / 2, e), Pow(2, e);
    CongMod(x * h, m);
    CongMul(u, x * h, p, m);
    HalvesCancel(e, m);
    CongMul(h * p, 1, x, m);
    Assoc(x, h, p);
    assert Cong(u * p, x, m);
    if Cong(r * p, x, m) {
      MontUnique(r, u, x, e, m);
    }
  }

  /** `a * 2^e mod m`: the Montgomery form of `a`. */
  ghost function Scaled(a: int, e: nat, m: nat): (v: nat)
    requires m > 0
    ensures v < m
  {
    a * Pow(2, e) % m
  }

  /** Decoding undoes encoding up to reduction. */
  lemma DecodeEncode(a: int, e: nat, m: nat)
    requires m % 2 == 1 && m > 0
    ensures Unscaled(Scaled(a, e, m), e, m) == a % m
  {
    CongMod(a, m);
    CongMul(a % m, a, Pow(2, e), m);
    CongMod(a * Pow(2, e), m);
    UnscaledIs(a % m, Scaled(a, e, m), e, m);
  }

  /** Encoding undoes decoding of a reduced value. */
  lemma EncodeDecode(x: nat, e: nat, m: nat)
    requires m % 2 == 1 && x < m
    ensures Scaled(Unscaled(x, e, m), e, m) == x
  {
    var u := Unscaled(x, e, m);
    UnscaledIs(u, x, e, m);
    CongMod(u * Pow(2, e), m);
    CongSmall(Scaled(u, e, m), x, m);
  }

  /** The Montgomery product of encodings encodes the product. */
  lemma ProductOfEncodings(a: int, b: int, e: nat, m: nat)
    requires m % 2 == 1 && m > 0
    ensures Unscaled(Scaled(a, e, m) * Scaled(b, e, m), e, m) == Scaled(a * b, e, m)
  {
    var p, r := Pow(2, e), Scaled(a * b, e, m);
    CongMod(a * p, m);
    CongMod(b * p, m);
    CongMul2(Scaled(a, e, m), a * p, Scaled(b, e, m), b * p, m);
    CongMod(a * b * p, m);
    CongMul(r, a * b * p, p, m);
    Interchange(a, p, b, p);
    Assoc(a * b, p, p);
    UnscaledIs(r, Scaled(a, e, m) * Scaled(b, e, m), e, m);
  }

  /** So decoding the product of two encodings gives the product. */
  lemma DecodeProduct(a: int, b: int, e: nat, m: nat)
    requires m % 2 == 1 && m > 0
    ensures Unscaled(Unscaled(Scaled(a, e, m) * Scaled(b, e, m), e, m), e, m) == a * b % m
  {
    ProductOfEncodings(a, b, e, m);
    DecodeEncode(a * b, e, m);
  }

  /** Scaling back some number congruent to `u * 2^e` gives the residue of `u`. */
  lemma UnscaledOf(u: int, x: int, e: nat, m: nat)
    requires m % 2 == 1 && m > 0 && Cong(u * Pow(2, e), x, m)
    ensures Unscaled(x % m, e, m) == u % m
  {
    CongMod(u, m);
    CongMul(u % m, u, Pow(2, e), m);
    CongMod(x, m);
    UnscaledIs(u % m, x % m, e, m);
  }

  lemma Distribute(u: int, v: int, p: int)
    ensures (u + v) * p == u * p + v * p && (u - v) * p == u * p - v * p
  {
  }

  /** Decoding commutes with addition and subtraction modulo `m`. */
  lemma DecodeSum(x: int, y: int, e: nat, m: nat)
    requires m % 2 == 1 && m > 0
    ensures Unscaled((x + y) % m, e, m) == (Unscaled(x, e, m) + Unscaled(y, e, m)) % m
    ensures Unscaled((x - y) % m, e, m) == (Unscaled(x, e, m) - Unscaled(y, e, m)) % m
  {
    var u: int, v: int := Unscaled(x, e, m), Unscaled(y, e, m);
    UnscaledIs(Unscaled(x, e, m), x, e, m);
    UnscaledIs(Unscaled(y, e, m), y, e, m);
    var p := Pow(2, e);
    CongAdd(u * p, x, v * p, y, m);
    Distribute(u, v, p);
    UnscaledOf(u + v, x + y, e, m);
    UnscaledOf(u - v, x - y, e, m);
  }

  /** Decoding commutes with negation, tripling and halving. */
  lemma DecodeUnary(x: int, e: nat, m: nat)
    requires m % 2 == 1 && m > 0
    ensures Unscaled((0 - x) % m, e, m) == (0 - Unscaled(x, e, m)) % m
    ensures Unscaled(3 * x % m, e, m) == 3 * Unscaled(x, e, m) % m
    ensures Unscaled(Unscaled(x, 1, m), e, m) == Unscaled(Unscaled(x, e, m), 1, m)
  {
    var u: int, p := Unscaled(x, e, m), Pow(2, e);
    UnscaledIs(Unscaled(x, e, m), x, e, m);
    CongMul(u * p, x, 3, m);
    CongMul(u * p, x, -1, m);
    Assoc(3, u, p);
    Assoc(-1, u, p);
    UnscaledOf(3 * u, 3 * x, e, m);
    UnscaledOf(-1 * u, -1 * x, e, m);
    HalfCommutes(x, e, m);
  }

  lemma HalfCommutes(x: int, e: nat, m: nat)
    requires m % 2 == 1 && m > 0
    ensures Unscaled(Unscaled(x, 1, m), e, m) == Unscaled(Unscaled(x, e, m), 1, m)
  {
    var h, w := Unscaled(x, 1, m), Unscaled(Unscaled(x, 1, m), e, m);
    var u := Unscaled(x, e, m);
    UnscaledIs(h, x, 1, m);
    UnscaledIs(w, h, e, m);
    assert Pow(2, 1) == 2;
    CongMul(w * Pow(2, e), h, 2, m);
    assert w * Pow(2, e) * 2 == w * 2 * Pow(2, e) by { Assoc(w, Pow(2, e), 2); Assoc(w, 2, Pow(2, e)); }
    CongMod(w * 2, m);
    CongMul(w * 2 % m, w * 2, Pow(2, e), m);
    UnscaledIs(w * 2 % m, x, e, m);
    UnscaledIs(w, u, 1, m);
  }
}
