/**
 * The powers of the hash key as they are precomputed, and what multiplying by them means: the product of NIST SP 800-38D, with the words
 * held bit-reversed and the key doubled.
 */
module HashKeys {
  import opened Polynomial
  import opened Ghash
  import opened Field
  import StandardHash

  function Reverse(s: seq<bool>): (r: seq<bool>)
    ensures |r| == |s|
    ensures forall i :: 0 <= i < |s| ==> r[i] == s[|s| - 1 - i]
  {
    if s == [] then [] else Reverse(s[1..]) + [s[0]]
  }

  /** A string of the standard as it stands in a register. */
  function Register(u: seq<bool>): Wide
    requires |u| == DEGREE
  {
    Wide(Reverse(u)[HALF..], Reverse(u)[..HALF])
  }

  /** A register as a string of the standard. */
  function Display(w: Wide): (u: seq<bool>)
    ensures |u| == DEGREE
  {
    Reverse(Bits(w))
  }

  lemma {:induction false} ReverseReverse(s: seq<bool>)
    ensures Reverse(Reverse(s)) == s
  {
    var r := Reverse(Reverse(s));
    assert |r| == |s| && forall i :: 0 <= i < |s| ==> r[i] == s[i];
  }

  lemma DisplayRegister(u: seq<bool>)
    requires |u| == DEGREE
    ensures Display(Register(u)) == u && Bits(Register(u)) == Reverse(u)
  {
    assert Bits(Register(u)) == Reverse(u);
    ReverseReverse(u);
  }

  lemma {:induction false} ReverseXor(s: seq<bool>, t: seq<bool>)
    requires |s| == |t|
    ensures Reverse(XorBits(s, t)) == XorBits(Reverse(s), Reverse(t))
  {
    var x, y := Reverse(XorBits(s, t)), XorBits(Reverse(s), Reverse(t));
    assert |x| == |y| && forall i :: 0 <= i < |x| ==> x[i] == y[i];
  }

  ghost function Poly(u: seq<bool>): Polynomial.Poly
  {
    Of(Reverse(u))
  }

  lemma PolyXor(s: seq<bool>, t: seq<bool>)
    requires |s| == |t|
    ensures Poly(XorBits(s, t)) == Plus(Poly(s), Poly(t))
  {
    ReverseXor(s, t);
    OfXor(Reverse(s), Reverse(t));
  }

  /** One turn divides by the indeterminate. */
  lemma TurnedIs(v: seq<bool>)
    requires |v| == DEGREE
    ensures Cong(Poly(v), Raise(Poly(StandardHash.Turned(v)), 1), Modulus())
  {
    var w := StandardHash.Turned(v);
    var m := If(v[DEGREE - 1], Modulus());
    var difference := Plus(Poly(v), Raise(Poly(w), 1));
    forall j: nat
      ensures j in difference <==> j in m
    {
      assert j in Poly(v) <==> j < DEGREE && v[DEGREE - 1 - j];
      assert j in Raise(Poly(w), 1) <==> 0 < j <= DEGREE && w[DEGREE - j];
    }
    assert difference == m;
    ModulusMultiple(v[DEGREE - 1]);
  }

  lemma ModulusMultiple(b: bool)
    ensures Multiple(If(b, Modulus()), Modulus())
  {
    TimesBit(b, Modulus());
  }

  /** All turns together multiply, up to x^127. */
  lemma {:induction false} TurnsAre(x: seq<bool>, v: seq<bool>, z: seq<bool>)
    requires |x| <= DEGREE == |v| == |z|
    ensures Cong(Raise(Poly(StandardHash.Turns(x, v, z)), DEGREE - 1),
                 Plus(Raise(Poly(z), DEGREE - 1), Raise(Times(Reverse(x), Poly(v)), DEGREE - |x|)), Modulus())
    decreases |x|
  {
    var m := Modulus();
    if x == [] {
      assert Raise(iset{}, DEGREE) == iset{};
      PlusLaws(Raise(Poly(z), DEGREE - 1), iset{}, iset{});
      CongSame(Raise(Poly(z), DEGREE - 1), m);
    } else {
      var v', z' := StandardHash.Turned(v), if x[0] then XorBits(z, v) else z;
      var rest, n := Reverse(x[1..]), DEGREE - |x|;
      var r := Raise(Poly(StandardHash.Turns(x[1..], v', z')), DEGREE - 1);
      var p := Plus(Raise(Poly(z'), DEGREE - 1), Raise(Times(rest, Poly(v')), n + 1));
      var q := Plus(Raise(Poly(z), DEGREE - 1), Raise(Times(rest + [x[0]], Poly(v)), n));
      assert Cong(r, p, m) by { TurnsAre(x[1..], v', z'); }
      assert Cong(p, q, m) by { TurnStep(x, rest, v, z, v', z', n); }
      CongTrans(r, p, q, m);
    }
  }

  /** The last bit met adds one shifted copy of V. */
  lemma LastBit(rest: seq<bool>, b: bool, p: Polynomial.Poly, n: nat)
    ensures Raise(Times(rest + [b], p), n) == Plus(Raise(Times(rest, p), n), Raise(If(b, p), |rest| + n))
  {
    TimesAppend(rest, [b], p);
    TimesBit(b, p);
    RaisePlus(Times(rest, p), Raise(If(b, p), |rest|), n);
    RaiseRaise(If(b, p), |rest|, n);
  }

  lemma AddedIf(b: bool, z: seq<bool>, v: seq<bool>, n: nat)
    requires |z| == |v|
    ensures Raise(Poly(if b then XorBits(z, v) else z), n) == Plus(Raise(Poly(z), n), Raise(If(b, Poly(v)), n))
  {
    PolyXor(z, v);
    PlusLaws(Poly(z), iset{}, iset{});
    RaisePlus(Poly(z), If(b, Poly(v)), n);
  }

  /** A turn of V against a shift of what remains. */
  lemma RestTurns(rest: seq<bool>, v: seq<bool>, n: nat)
    requires |v| == DEGREE
    ensures Cong(Raise(Times(rest, Poly(StandardHash.Turned(v))), n + 1), Raise(Times(rest, Poly(v)), n), Modulus())
  {
    var m, w := Modulus(), Poly(StandardHash.Turned(v));
    TurnedIs(v);
    CongTimes(rest, Poly(v), Raise(w, 1), m);
    TimesRaise(rest, w, 1);
    CongRaise(Times(rest, Poly(v)), Raise(Times(rest, w), 1), n, m);
    RaiseRaise(Times(rest, w), 1, n);
    CongSwap(Raise(Times(rest, Poly(v)), n), Raise(Times(rest, w), n + 1), m);
  }

  lemma TurnStep(x: seq<bool>, rest: seq<bool>, v: seq<bool>, z: seq<bool>, v': seq<bool>, z': seq<bool>, n: nat)
    requires x != [] && |rest| + n == DEGREE - 1 && |v| == |z| == DEGREE
    requires v' == StandardHash.Turned(v) && z' == if x[0] then XorBits(z, v) else z
    ensures Cong(Plus(Raise(Poly(z'), DEGREE - 1), Raise(Times(rest, Poly(v')), n + 1)),
                 Plus(Raise(Poly(z), DEGREE - 1), Raise(Times(rest + [x[0]], Poly(v)), n)), Modulus())
  {
    AddedIf(x[0], z, v, DEGREE - 1);
    RestTurns(rest, v, n);
    Exchange(rest, x[0], Poly(v), Times(rest, Poly(v')), Poly(z), Poly(z'), n, DEGREE - 1, Modulus());
  }

  /** What one turn adds to Z it takes from the bits that remain. */
  lemma Exchange(rest: seq<bool>, bit: bool, v: Polynomial.Poly, turned: Polynomial.Poly, z: Polynomial.Poly, z': Polynomial.Poly,
                 n: nat, d: nat, m: Polynomial.Poly)
    requires |rest| + n == d && Raise(z', d) == Plus(Raise(z, d), Raise(If(bit, v), d))
    requires Cong(Raise(turned, n + 1), Raise(Times(rest, v), n), m)
    ensures Cong(Plus(Raise(z', d), Raise(turned, n + 1)), Plus(Raise(z, d), Raise(Times(rest + [bit], v), n)), m)
  {
    var a, b, right := Raise(z, d), Raise(If(bit, v), d), Raise(Times(rest, v), n);
    LastBit(rest, bit, v, n);
    CongSame(Plus(a, b), m);
    CongPlus(Plus(a, b), Plus(a, b), Raise(turned, n + 1), right, m);
    Rotate(a, b, right);
  }

  lemma Rotate(a: Polynomial.Poly, b: Polynomial.Poly, c: Polynomial.Poly)
    ensures Plus(Plus(a, b), c) == Plus(a, Plus(c, b))
  {
  }

  /** The product of the standard, up to x^127. */
  lemma StandardProductIs(x: seq<bool>, y: seq<bool>)
    requires |x| == |y| == DEGREE
    ensures Cong(Raise(Poly(StandardHash.Product(x, y)), DEGREE - 1), Times(Reverse(x), Poly(y)), Modulus())
  {
    var z := seq(|y|, _ => false);
    TurnsAre(x, y, z);
    assert Poly(z) == iset{};
    assert Raise(iset{}, DEGREE - 1) == iset{};
    var p := Times(Reverse(x), Poly(y));
    assert Raise(p, 0) == p;
    PlusLaws(p, iset{}, iset{});
  }

  function OrBits(x: seq<bool>, y: seq<bool>): (z: seq<bool>)
    requires |x| == |y|
    ensures |z| == |x| && forall i :: 0 <= i < |x| ==> z[i] == (x[i] || y[i])
  {
    seq(|x|, i requires 0 <= i < |x| => x[i] || y[i])
  }

  /** The reduction constant 0xC2 ... 01, by lanes. */
  function ConstantHigh(): (z: Half)
    ensures forall i :: 0 <= i < HALF ==> z[i] == (i == 57 || i == 62 || i == 63)
  {
    seq(HALF, i => i == 57 || i == 62 || i == 63)
  }

  function ConstantLow(): (z: Half)
    ensures forall i :: 0 <= i < HALF ==> z[i] == (i == 0)
  {
    seq(HALF, i => i == 0)
  }

  /** The first key of `AesGcmPrecompute_avx2_vaes`: shifted left across both lanes, and reduced if a bit was shifted out. */
  function Doubled(h: Wide): Wide
  {
    var carry := h.hi[HALF - 1];
    var shifted := Wide(OrBits(Left(h.hi, 1), Right(h.lo, 63)), Left(h.lo, 1));
    if carry then Xor(shifted, Wide(ConstantHigh(), ConstantLow())) else shifted
  }

  lemma DoubledCoef(h: Wide, j: nat)
    ensures Coef(Bits(Doubled(h)), j) ==
            ((j < DEGREE && Coef(Bits(h), j - 1)) != (h.hi[HALF - 1] && (j == 0 || j == 121 || j == 126 || j == 127)))
  {
    var d := Doubled(h);
    if j < HALF {
      assert Bits(d)[j] == d.lo[j];
    } else if j < DEGREE {
      var i := j - HALF;
      assert Bits(d)[j] == d.hi[i];
      assert Right(h.lo, 63)[i] == (i == 0 && h.lo[63]);
      assert Left(h.hi, 1)[i] == (i > 0 && h.hi[i - 1]);
    }
  }

  lemma DoubledIs(h: Wide)
    ensures Cong(Value(Doubled(h)), Raise(Value(h), 1), Modulus())
  {
    var carry := h.hi[HALF - 1];
    var d, m := Doubled(h), If(carry, Modulus());
    var difference := Plus(Value(d), Raise(Value(h), 1));
    forall j: nat
      ensures j in difference <==> j in m
    {
      DoubledCoef(h, j);
      assert j in Raise(Value(h), 1) <==> Coef(Bits(h), j - 1);
      assert j in Value(d) <==> Coef(Bits(d), j);
      assert carry == Coef(Bits(h), DEGREE - 1);
    }
    assert difference == m;
    ModulusMultiple(carry);
  }

  /** A reduced product with the doubled key is the product of the standard with the key itself. */
  lemma DotIsStandard(x: Wide, h: Wide)
    ensures Display(Dot(x, Doubled(h))) == StandardHash.Product(Display(x), Display(h))
  {
    var m, k, z := Modulus(), Doubled(h), StandardHash.Product(Display(x), Display(h));
    var r, p := Raise(Value(Dot(x, k)), DEGREE), Times(Bits(x), Value(h));
    // the word computed
    DotIsProduct(x, k);
    Commute(Bits(k), Bits(x));
    DoubledIs(h);
    CongTimes(Bits(x), Value(k), Raise(Value(h), 1), m);
    TimesRaise(Bits(x), Value(h), 1);
    CongTrans(r, Times(Bits(x), Value(k)), Raise(p, 1), m);
    // the word defined
    StandardProductIs(Display(x), Display(h));
    ReverseReverse(Bits(x));
    ReverseReverse(Bits(h));
    DisplayRegister(z);
    CongRaise(Raise(Poly(z), DEGREE - 1), p, 1, m);
    RaiseRaise(Poly(z), DEGREE - 1, 1);
    CongSwap(Raise(Poly(z), DEGREE), Raise(p, 1), m);
    CongTrans(r, Raise(p, 1), Raise(Poly(z), DEGREE), m);
    WordUnique(Dot(x, k), Register(z), DEGREE);
  }

  function Displays(x: seq<Wide>): (u: seq<seq<bool>>)
    ensures |u| == |x| && forall i :: 0 <= i < |x| ==> u[i] == Display(x[i]) && |u[i]| == DEGREE
  {
    seq(|x|, i requires 0 <= i < |x| => Display(x[i]))
  }

  lemma HornerStep(k: Wide, y: Wide, x: seq<Wide>)
    requires x != []
    ensures Galois().Horner(k, y, x) == Galois().Horner(k, Dot(Xor(y, x[0]), k), x[1..])
  {
  }

  lemma StandardStep(h: Wide, y: Wide, x: seq<Wide>)
    requires x != []
    ensures StandardHash.Hash(Display(h), Display(y), Displays(x)) ==
            StandardHash.Hash(Display(h), StandardHash.Product(XorBits(Display(y), Display(x[0])), Display(h)), Displays(x[1..]))
  {
    assert Displays(x)[1..] == Displays(x[1..]);
  }

  /** Horner steps with the doubled key are the hash of the standard. */
  lemma {:induction false} HornerIsStandard(h: Wide, y: Wide, x: seq<Wide>)
    ensures Display(Galois().Horner(Doubled(h), y, x)) == StandardHash.Hash(Display(h), Display(y), Displays(x))
    decreases |x|
  {
    if x == [] {
    } else {
      var s, k := Xor(y, x[0]), Doubled(h);
      BitsXor(y, x[0]);
      ReverseXor(Bits(y), Bits(x[0]));
      DotIsStandard(s, h);
      HornerIsStandard(h, Dot(s, k), x[1..]);
      HornerStep(k, y, x);
      StandardStep(h, y, x);
    }
  }

  lemma GaloisAssociative()
    ensures Galois().Associative()
  {
    forall a: Wide, b: Wide, c: Wide
      ensures Galois().Associates(a, b, c)
    {
      DotAssociates(a, b, c);
      DotCommutes(a, b);
    }
  }

  /** `AesGcmPrecompute_avx2_vaes`: sixteen keys. */
  method Precompute(h: Wide) returns (keys: seq<Wide>)
    ensures |keys| == 16 && keys[0] == Doubled(h) && Galois().KeyPowers(keys)
  {
    GaloisAssociative();
    keys := Aggregate.Powers(Galois(), Doubled(h), 16);
  }
}
