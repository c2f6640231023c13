/**
 * What the carry-less arithmetic of the hash computes: multiplication of polynomials modulo one of degree 128, up to a fixed power of the
 * indeterminate. It is therefore commutative and associative, and agrees with the product of section 6.3 of NIST SP 800-38D.
 */
module Field {
  import opened Polynomial
  import opened Ghash

  const DEGREE: nat := 2 * HALF

  /** x^128 + x^127 + x^126 + x^121 + 1: the field polynomial with its coefficients in reverse. */
  ghost function Modulus(): Poly
  {
    iset{0, 121, 126, 127, 128}
  }

  function Bits(w: Wide): (s: seq<bool>)
    ensures |s| == DEGREE
  {
    w.lo + w.hi
  }

  ghost function Value(w: Wide): Poly
  {
    Of(Bits(w))
  }

  lemma OfXor(s: seq<bool>, t: seq<bool>)
    requires |s| == |t|
    ensures Of(XorBits(s, t)) == Plus(Of(s), Of(t))
  {
  }

  lemma OfAppend(s: seq<bool>, t: seq<bool>)
    ensures Of(s + t) == Plus(Of(s), Raise(Of(t), |s|))
  {
  }

  lemma OfNone(n: nat)
    ensures Of(seq(n, _ => false)) == iset{}
  {
  }

  lemma BitsXor(x: Wide, y: Wide)
    ensures Bits(Xor(x, y)) == XorBits(Bits(x), Bits(y))
  {
  }

  lemma ValueXor(x: Wide, y: Wide)
    ensures Value(Xor(x, y)) == Plus(Value(x), Value(y))
  {
    BitsXor(x, y);
    OfXor(Bits(x), Bits(y));
  }

  lemma ValueIs(w: Wide)
    ensures Value(w) == Plus(Of(w.lo), Raise(Of(w.hi), HALF))
  {
    OfAppend(w.lo, w.hi);
  }

  lemma ValueInjective(x: Wide, y: Wide)
    requires Value(x) == Value(y)
    ensures x == y
  {
    forall i: nat | i < HALF
      ensures x.lo[i] == y.lo[i] && x.hi[i] == y.hi[i]
    {
      assert i in Value(x) <==> x.lo[i];
      assert i in Value(y) <==> y.lo[i];
      assert i + HALF in Value(x) <==> x.hi[i];
      assert i + HALF in Value(y) <==> y.hi[i];
    }
    assert x.lo == y.lo && x.hi == y.hi;
  }

  /** Shifts that lose nothing. */
  lemma OfLeft(a: Half, k: nat)
    requires k < HALF
    ensures Of(Left(Extend(a), k)) == Raise(Of(a), k)
  {
  }

  lemma {:induction false} ClmulBitsIs(a: Half, b: seq<bool>)
    requires |b| <= HALF
    ensures Of(ClmulBits(Extend(a), b)) == Times(b, Of(a))
    decreases |b|
  {
    OfNone(DEGREE);
    if b == [] {
    } else {
      var n := |b| - 1;
      ClmulBitsIs(a, b[..n]);
      OfLeft(a, n);
      var t := if b[n] then Left(Extend(a), n) else seq(DEGREE, _ => false);
      OfXor(t, ClmulBits(Extend(a), b[..n]));
      assert b == b[..n] + [b[n]];
      TimesAppend(b[..n], [b[n]], Of(a));
      TimesBit(b[n], Of(a));
      PlusLaws(Of(t), Times(b[..n], Of(a)), iset{});
      assert Raise(iset{}, n) == iset{};
    }
  }

  lemma TimesBit(b: bool, p: Poly)
    ensures Times([b], p) == If(b, p)
  {
    assert [b][1..] == [];
    assert Raise(iset{}, 1) == iset{};
    PlusLaws(If(b, p), iset{}, iset{});
  }

  /** `clmulepi64` is the product of polynomials. */
  lemma ClmulIs(a: Half, b: Half)
    ensures Value(Clmul(a, b)) == Times(b, Of(a))
  {
    ClmulBitsIs(a, b);
    assert Bits(Clmul(a, b)) == ClmulBits(Extend(a), b);
  }

  /** Four partial products. */
  lemma ProductParts(x: Wide, k: Wide)
    ensures Times(Bits(k), Value(x)) == Plus(Plus(Times(k.lo, Of(x.lo)), Raise(Times(k.lo, Of(x.hi)), HALF)),
                                             Plus(Raise(Times(k.hi, Of(x.lo)), HALF), Raise(Times(k.hi, Of(x.hi)), DEGREE)))
  {
    var l, h := Of(x.lo), Of(x.hi);
    ValueIs(x);
    TimesAppend(k.lo, k.hi, Value(x));
    TimesPlus(k.lo, l, Raise(h, HALF));
    TimesRaise(k.lo, h, HALF);
    TimesPlus(k.hi, l, Raise(h, HALF));
    TimesRaise(k.hi, h, HALF);
    RaisePlus(Times(k.hi, l), Raise(Times(k.hi, h), HALF), HALF);
    RaiseRaise(Times(k.hi, h), HALF, HALF);
  }

  /** The sum of the middle products, recovered from the product of the sums. */
  lemma MiddleIs(x: Wide, k: Wide)
    ensures var p := Multiply(x, k); Value(Xor(Xor(p.mid, p.high), p.low)) == Plus(Times(k.lo, Of(x.hi)), Times(k.hi, Of(x.lo)))
  {
    var p := Multiply(x, k);
    var l, h := Of(x.lo), Of(x.hi);
    ClmulIs(x.hi, k.hi);
    ClmulIs(x.lo, k.lo);
    ClmulIs(XorBits(x.hi, x.lo), XorBits(k.hi, k.lo));
    OfXor(x.hi, x.lo);
    TimesXor(k.hi, k.lo, Plus(h, l));
    TimesPlus(k.hi, h, l);
    TimesPlus(k.lo, h, l);
    ValueXor(Xor(p.mid, p.high), p.low);
    ValueXor(p.mid, p.high);
    FourTerms(Times(k.hi, h), Times(k.hi, l), Times(k.lo, h), Times(k.lo, l));
  }

  lemma FourTerms(a: Poly, b: Poly, c: Poly, d: Poly)
    ensures Plus(Plus(Plus(Plus(a, b), Plus(c, d)), a), d) == Plus(c, b)
  {
  }

  lemma {:induction false} SumIsXor(s: seq<bool>, t: seq<bool>)
    requires |s| == |t|
    ensures Polynomial.Sum(s, t) == XorBits(s, t)
  {
    if s == [] {
    } else {
      SumIsXor(s[1..], t[1..]);
    }
  }

  lemma TimesXor(s: seq<bool>, t: seq<bool>, p: Poly)
    requires |s| == |t|
    ensures Times(XorBits(s, t), p) == Plus(Times(s, p), Times(t, p))
  {
    SumIsXor(s, t);
    TimesSum(s, t, p);
  }

  /** Two halves of a double-length product. */
  ghost function Double(high: Wide, low: Wide): Poly
  {
    Plus(Value(low), Raise(Value(high), DEGREE))
  }

  /** The Karatsuba parts make up the product. */
  lemma PartsAreProduct(x: Wide, k: Wide)
    ensures Double(HighOf(Multiply(x, k)), LowOf(Multiply(x, k))) == Times(Bits(k), Value(x))
  {
    var p := Multiply(x, k);
    var m := Xor(Xor(p.mid, p.high), p.low);
    ClmulIs(x.hi, k.hi);
    ClmulIs(x.lo, k.lo);
    MiddleIs(x, k);
    ProductParts(x, k);
    HalfPlaced(p.high, p.low, m);
    RaisePlus(Times(k.lo, Of(x.hi)), Times(k.hi, Of(x.lo)), HALF);
    Regrouped(Value(p.low), Raise(Times(k.lo, Of(x.hi)), HALF), Raise(Times(k.hi, Of(x.lo)), HALF), Raise(Value(p.high), DEGREE));
  }

  lemma Regrouped(a: Poly, b: Poly, c: Poly, d: Poly)
    ensures Plus(Plus(a, Plus(b, c)), d) == Plus(Plus(a, b), Plus(c, d))
  {
  }

  /** The middle part straddles the two halves. */
  lemma HalfPlaced(high: Wide, low: Wide, m: Wide)
    ensures Double(Xor(high, Wide(None(), m.hi)), Xor(low, Wide(m.lo, None()))) ==
            Plus(Plus(Value(low), Raise(Value(m), HALF)), Raise(Value(high), DEGREE))
  {
    var u, v := Wide(None(), m.hi), Wide(m.lo, None());
    ValueXor(high, u);
    ValueXor(low, v);
    OfNone(HALF);
    ValueIs(u);
    ValueIs(v);
    ValueIs(m);
    assert Raise(iset{}, HALF) == iset{};
    assert Value(u) == Of(m.hi);
    assert Value(v) == Raise(Of(m.lo), HALF);
    RaisePlus(Of(m.lo), Raise(Of(m.hi), HALF), HALF);
    RaiseRaise(Of(m.hi), HALF, HALF);
    RaisePlus(Value(high), Of(m.hi), DEGREE);
    Placed(Value(low), Raise(Of(m.lo), HALF), Raise(Value(high), DEGREE), Raise(Of(m.hi), DEGREE));
  }

  lemma Placed(a: Poly, b: Poly, c: Poly, d: Poly)
    ensures Plus(Plus(a, b), Plus(c, d)) == Plus(Plus(a, Plus(b, d)), c)
  {
  }

  /** A coefficient, zero outside the string. */
  function Coef(s: seq<bool>, j: int): bool
  {
    0 <= j < |s| && s[j]
  }

  lemma Phase1Coef(v: Half, i: int)
    requires i < HALF
    ensures Coef(Phase1(v), i) == ((Coef(v, i - 63) != Coef(v, i - 62)) != Coef(v, i - 57))
  {
  }

  lemma Phase2Coef(v: Half, i: nat)
    ensures Coef(Phase2(v), i) == ((Coef(v, i + 7) != Coef(v, i + 2)) != Coef(v, i + 1))
  {
  }

  /** Coefficient `j` of a string times the modulus. */
  function Spread(q: seq<bool>, j: int): bool
  {
    (((Coef(q, j) != Coef(q, j - 121)) != Coef(q, j - 126)) != Coef(q, j - 127)) != Coef(q, j - 128)
  }

  lemma TimesModulus(q: seq<bool>, j: nat)
    ensures j in Times(q, Modulus()) <==> Spread(q, j)
  {
    var one: Poly := iset{0};
    var a, b, c, d := Raise(one, 121), Raise(one, 126), Raise(one, 127), Raise(one, 128);
    assert Modulus() == Plus(Plus(Plus(Plus(one, a), b), c), d);
    TimesPlus(q, Plus(Plus(Plus(one, a), b), c), d);
    TimesPlus(q, Plus(Plus(one, a), b), c);
    TimesPlus(q, Plus(one, a), b);
    TimesPlus(q, one, a);
    TermCoef(q, 0, j);
    TermCoef(q, 121, j);
    TermCoef(q, 126, j);
    TermCoef(q, 127, j);
    TermCoef(q, 128, j);
    assert Raise(one, 0) == one;
  }

  lemma TermCoef(q: seq<bool>, k: nat, j: nat)
    ensures j in Times(q, Raise(iset{0}, k)) <==> Coef(q, j - k)
  {
    TimesRaise(q, iset{0}, k);
    TimesOne(q);
  }

  /** The low half after the first phase: the multiple of the modulus that clears it. */
  function Quotient(low: Wide): Wide
  {
    Xor(low, Wide(Phase1(low.lo), None()))
  }

  /** Bits the first phase leaves alone. */
  lemma QuotientCoef(low: Wide, i: int)
    requires i < HALF + 57
    ensures Coef(Bits(Quotient(low)), i) == Coef(Bits(low), i)
  {
    if i >= HALF {
      Phase1Coef(low.lo, i - HALF);
    }
  }

  /** A bit of the low word after both phases. */
  lemma LowWordBit(high: Wide, low: Wide, i: nat)
    requires i < HALF
    ensures var l := Quotient(low).lo;
            Coef(Reduction(high, low).lo, i) == ((Coef(l, i) != Coef(Phase2(l), i)) != (Coef(high.lo, i) != Coef(Phase1(low.hi), i)))
  {
    hide Phase1, Phase2;
  }

  lemma LowWordCoef(high: Wide, low: Wide, i: nat)
    requires i < HALF
    ensures Spread(Bits(Quotient(low)), i + DEGREE) == (Coef(high.lo, i) != Coef(Reduction(high, low).lo, i))
  {
    hide Phase1, Phase2, Reduction;
    var l := Quotient(low);
    LowWordBit(high, low, i);
    Phase1Coef(low.hi, i);
    Phase2Coef(l.lo, i);
    CrossLane(low, i, 7);
    CrossLane(low, i, 2);
    CrossLane(low, i, 1);
    assert Coef(Bits(l), i) == Coef(l.lo, i);
  }

  /** A bit of the word shifted right comes from the same lane or from the low bits of the lane above. */
  lemma CrossLane(low: Wide, i: nat, k: nat)
    requires i < HALF && 0 < k <= 7
    ensures Coef(Bits(Quotient(low)), i + k) == (Coef(Quotient(low).lo, i + k) != Coef(low.hi, i + k - HALF))
  {
    if i + k >= HALF {
      QuotientCoef(low, i + k);
    }
  }

  /** The multiple clears the low half. */
  lemma LowHalfCoef(low: Wide, j: nat)
    requires j < DEGREE
    ensures Spread(Bits(Quotient(low)), j) == Coef(Bits(low), j)
  {
    if j >= HALF {
      Phase1Coef(low.lo, j - HALF);
      QuotientCoef(low, j - 121);
      QuotientCoef(low, j - 126);
      QuotientCoef(low, j - 127);
    }
  }

  lemma HighWordCoef(high: Wide, low: Wide, i: nat)
    requires i < HALF
    ensures Spread(Bits(Quotient(low)), i + HALF + DEGREE) == (Coef(high.hi, i) != Coef(Reduction(high, low).hi, i))
  {
    Phase2Coef(Quotient(low).hi, i);
  }

  /** Both phases, coefficient by coefficient. */
  lemma ReductionCoef(high: Wide, low: Wide, j: nat)
    ensures Spread(Bits(Quotient(low)), j) ==
            ((Coef(Bits(low), j) != Coef(Bits(high), j - DEGREE)) != Coef(Bits(Reduction(high, low)), j - DEGREE))
  {
    if j < DEGREE {
      LowHalfCoef(low, j);
    } else if j < DEGREE + HALF {
      LowWordCoef(high, low, j - DEGREE);
    } else if j < 2 * DEGREE {
      HighWordCoef(high, low, j - DEGREE - HALF);
    }
  }

  /** `reduction` divides by x^128 modulo the field polynomial. */
  lemma ReductionIs(high: Wide, low: Wide)
    ensures Cong(Raise(Value(Reduction(high, low)), DEGREE), Double(high, low), Modulus())
  {
    var q := Bits(Quotient(low));
    var r := Reduction(high, low);
    var difference := Plus(Raise(Value(r), DEGREE), Double(high, low));
    forall j: nat
      ensures j in difference <==> j in Times(q, Modulus())
    {
      TimesModulus(q, j);
      ReductionCoef(high, low, j);
      assert j in Value(low) <==> Coef(Bits(low), j);
      assert j in Raise(Value(high), DEGREE) <==> Coef(Bits(high), j - DEGREE);
      assert j in Raise(Value(r), DEGREE) <==> Coef(Bits(r), j - DEGREE);
    }
    assert difference == Times(q, Modulus());
  }

  /** The word that is a product up to x^128. */
  ghost predicate IsProduct(w: Wide, x: Wide, k: Wide)
  {
    Cong(Raise(Value(w), DEGREE), Times(Bits(k), Value(x)), Modulus())
  }

  /** `avx2_clmul_gcm` computes that product. */
  lemma DotIsProduct(x: Wide, k: Wide)
    ensures IsProduct(Dot(x, k), x, k)
  {
    PartsAreProduct(x, k);
    ReductionIs(HighOf(Multiply(x, k)), LowOf(Multiply(x, k)));
  }

  lemma Below(w: Wide)
    ensures forall j :: j in Value(w) ==> j < DEGREE
  {
  }

  /** Words congruent up to a power of the indeterminate are the same. */
  lemma WordUnique(v: Wide, w: Wide, n: nat)
    requires Cong(Raise(Value(v), n), Raise(Value(w), n), Modulus())
    ensures v == w
  {
    CongCancel(Value(v), Value(w), n, Modulus());
    Below(v);
    Below(w);
    CongUnique(Value(v), Value(w), Modulus(), DEGREE);
    ValueInjective(v, w);
  }

  lemma ProductUnique(w: Wide, x: Wide, k: Wide)
    requires IsProduct(w, x, k)
    ensures w == Dot(x, k)
  {
    DotIsProduct(x, k);
    var p := Times(Bits(k), Value(x));
    CongSwap(Raise(Value(Dot(x, k)), DEGREE), p, Modulus());
    CongTrans(Raise(Value(w), DEGREE), p, Raise(Value(Dot(x, k)), DEGREE), Modulus());
    WordUnique(w, Dot(x, k), DEGREE);
  }

  lemma DotCommutes(x: Wide, y: Wide)
    ensures Dot(x, y) == Dot(y, x)
  {
    DotIsProduct(x, y);
    Commute(Bits(x), Bits(y));
    ProductUnique(Dot(x, y), y, x);
  }

  /** A product of three, in one order. */
  lemma TripleIs(a: Wide, b: Wide, c: Wide)
    ensures Cong(Raise(Value(Dot(Dot(a, b), c)), 2 * DEGREE), Times(Bits(c), Times(Bits(b), Value(a))), Modulus())
  {
    var m := Modulus();
    var p := Dot(a, b);
    DotIsProduct(a, b);
    DotIsProduct(p, c);
    CongRaise(Raise(Value(Dot(p, c)), DEGREE), Times(Bits(c), Value(p)), DEGREE, m);
    RaiseRaise(Value(Dot(p, c)), DEGREE, DEGREE);
    TimesRaise(Bits(c), Value(p), DEGREE);
    CongTimes(Bits(c), Raise(Value(p), DEGREE), Times(Bits(b), Value(a)), m);
    CongTrans(Raise(Value(Dot(p, c)), 2 * DEGREE), Raise(Times(Bits(c), Value(p)), DEGREE), Times(Bits(c), Times(Bits(b), Value(a))), m);
  }

  /** Reduced products are associative, so powers of the key may be multiplied in any order. */
  lemma DotAssociates(a: Wide, b: Wide, c: Wide)
    ensures Dot(Dot(a, b), c) == Dot(a, Dot(b, c))
  {
    var m := Modulus();
    TripleIs(a, b, c);
    TripleIs(c, b, a);
    Commute(Bits(a), Bits(b));
    Commute(Bits(b), Bits(c));
    TimesTimes(Bits(c), Bits(a), Value(b));
    var p := Times(Bits(c), Times(Bits(b), Value(a)));
    assert p == Times(Bits(a), Times(Bits(b), Value(c)));
    var u, v := Dot(Dot(a, b), c), Dot(Dot(c, b), a);
    CongSwap(Raise(Value(v), 2 * DEGREE), p, m);
    CongTrans(Raise(Value(u), 2 * DEGREE), p, Raise(Value(v), 2 * DEGREE), m);
    WordUnique(u, v, 2 * DEGREE);
    DotCommutes(c, b);
    DotCommutes(Dot(b, c), a);
  }
}
