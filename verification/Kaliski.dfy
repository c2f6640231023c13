/** Almost Montgomery inversion as a run over numbers: what every step keeps, how long it runs, and what it ends with. */
module Kaliski {
  import opened Arith

  datatype State = State(u: nat, v: nat, s: nat, t: nat, k: nat)

  function Initial(a: nat, m: nat): State
  {
    State(m, a, 1, 0, 0)
  }

  /** One turn of the loop. */
  function Next(x: State): State
  {
    if x.u % 2 == 0 then State(x.u / 2, x.v, 2 * x.s, x.t, x.k + 1)
    else if x.v % 2 == 0 then State(x.u, x.v / 2, x.s, 2 * x.t, x.k + 1)
    else if x.u > x.v then State((x.u - x.v) / 2, x.v, 2 * x.s, x.t + x.s, x.k + 1)
    else State(x.u, (x.v - x.u) / 2, x.s + x.t, 2 * x.t, x.k + 1)
  }

  /** The state in which `v` has become zero. */
  function Run(x: State): State
    decreases x.u + x.v
  {
    if x.u == 0 || x.v == 0 then x else Run(Next(x))
  }

  /** The sum that ties the four numbers to the modulus, which also bounds the cofactors. */
  ghost predicate Tied(x: State, m: nat)
  {
    && x.u > 0 && x.s > 0 && TieOf(x.u, x.v, x.s, x.t, m)
    && x.s <= m && x.t < (if x.v > 0 then m else 2 * m)
  }

  ghost predicate Congruent(x: State, a: nat, m: nat)
    requires m > 0
  {
    var u: int := x.u;
    Multiple(a, x.s, x.v, Pow(2, x.k), m) && Multiple(a, x.t, -u, Pow(2, x.k), m)
  }

  /** How far the run has got: two products that bracket the number of turns. */
  ghost predicate Paced(x: State, a: nat, m: nat)
  {
    PaceOf(Pow(2, x.k), x.u, x.v, x.k > 0, m * a, m + a)
  }

  ghost predicate Good(x: State, a: nat, m: nat)
  {
    m > 0 && Tied(x, m) && Congruent(x, a, m) && Paced(x, a, m)
  }

  lemma CofactorBound(u: nat, s: nat, v: nat, t: nat, m: nat)
    requires TieOf(u, v, s, t, m)
    ensures u > 0 ==> s <= m
    ensures u > 0 && s > 0 && v > 0 ==> t < m
  {
    if u > 0 {
      MulMono(1, u, s);
      if s > 0 {
        Positive(u, s);
      }
    }
    if v > 0 {
      MulMono(1, v, t);
    }
  }

  ghost predicate TieOf(u: nat, v: nat, s: nat, t: nat, m: nat)
  {
    m == u * s + v * t
  }

  lemma TieHalvesU(u: nat, v: nat, s: nat, t: nat, m: nat, u': nat, s': nat)
    requires TieOf(u, v, s, t, m) && u == 2 * u' && s' == 2 * s
    ensures TieOf(u', v, s', t, m)
  {
    assert u * s == u' * s';
  }

  lemma TieSubtractsV(u: nat, v: nat, s: nat, t: nat, m: nat, u': nat, s': nat, t': nat)
    requires TieOf(u, v, s, t, m) && u == 2 * u' + v && s' == 2 * s && t' == t + s
    ensures TieOf(u', v, s', t', m)
  {
    assert u * s == (2 * u') * s + v * s;
    assert (2 * u') * s == u' * s';
    assert v * t' == v * t + v * s;
  }

  /** One of the two numbers of a turn, with its cofactor, seen from either side: halved, or the other taken off and halved. */
  ghost predicate Turn(u: nat, v: nat, s: nat, t: nat, u': nat, v': nat, s': nat, t': nat)
  {
    v' == v && s' == 2 * s && ((u == 2 * u' && t' == t) || (u == 2 * u' + v && t' == t + s))
  }

  lemma NextTurns(x: State)
    requires x.u > 0 && x.v > 0
    ensures var y := Next(x); y.k == x.k + 1 && y.u > 0
    ensures var y := Next(x); Turn(x.u, x.v, x.s, x.t, y.u, y.v, y.s, y.t) || Turn(x.v, x.u, x.t, x.s, y.v, y.u, y.t, y.s)
  {
  }

  lemma TieTurns(u: nat, v: nat, s: nat, t: nat, m: nat, u': nat, v': nat, s': nat, t': nat)
    requires TieOf(u, v, s, t, m) && Turn(u, v, s, t, u', v', s', t')
    ensures TieOf(u', v', s', t', m)
  {
    if u == 2 * u' && t' == t {
      TieHalvesU(u, v, s, t, m, u', s');
    } else {
      TieSubtractsV(u, v, s, t, m, u', s', t');
    }
  }

  lemma KeepsTied(x: State, m: nat)
    requires Tied(x, m) && x.v > 0
    ensures Tied(Next(x), m)
  {
    var y := Next(x);
    NextTurns(x);
    if Turn(x.u, x.v, x.s, x.t, y.u, y.v, y.s, y.t) {
      TieTurns(x.u, x.v, x.s, x.t, m, y.u, y.v, y.s, y.t);
    } else {
      TieTurns(x.v, x.u, x.t, x.s, m, y.v, y.u, y.t, y.s);
    }
    CofactorBound(y.u, y.s, y.v, y.t, m);
  }

  /** `x` is `c` times the power and the inverse. */
  ghost predicate Multiple(a: int, x: int, c: int, p: int, m: int)
    requires m > 0
  {
    Cong(a * x, c * p, m)
  }

  lemma Doubled(a: int, x: int, c: int, p: int, m: int, x': int, p': int)
    requires m > 0 && Multiple(a, x, c, p, m) && x' == 2 * x && p' == 2 * p
    ensures Multiple(a, x', c, p', m)
  {
    CongMul(a * x, c * p, 2, m);
    assert 2 * (a * x) == a * x' && 2 * (c * p) == c * p';
  }

  lemma Summed(a: int, x: int, c: int, y: int, d: int, p: int, m: int, z: int, e: int, p': int)
    requires m > 0 && Multiple(a, x, c, p, m) && Multiple(a, y, d, p, m)
    requires z == x + y && c + d == 2 * e && p' == 2 * p
    ensures Multiple(a, z, e, p', m)
  {
    CongAdd(a * x, c * p, a * y, d * p, m);
    assert a * x + a * y == a * z;
    assert c * p + d * p == (c + d) * p && (2 * e) * p == e * p';
  }

  lemma SameMultiple(a: int, x: int, c: int, p: int, m: int, c': int, p': int)
    requires m > 0 && Multiple(a, x, c, p, m) && c == 2 * c' && p' == 2 * p
    ensures Multiple(a, x, c', p', m)
  {
    assert c * p == c' * p';
  }

  lemma MultiplesTurn(a: int, m: int, p: int, u: nat, v: nat, s: nat, t: nat, u': nat, v': nat, s': nat, t': nat,
                      cv: int, cu: int, cu': int, p': int)
    requires m > 0 && Turn(u, v, s, t, u', v', s', t') && p' == 2 * p
    requires (cv == v && cu == -(u as int) && cu' == -(u' as int)) || (cv == -(v as int) && cu == u && cu' == u')
    requires Multiple(a, s, cv, p, m) && Multiple(a, t, cu, p, m)
    ensures Multiple(a, s', cv, p', m) && Multiple(a, t', cu', p', m)
  {
    Doubled(a, s, cv, p, m, s', p');
    if u == 2 * u' && t' == t {
      SameMultiple(a, t, cu, p, m, cu', p');
    } else {
      Summed(a, t, cu, s, cv, p, m, t', cu', p');
    }
  }

  lemma KeepsCongruent(x: State, a: nat, m: nat)
    requires m > 0 && x.u > 0 && Congruent(x, a, m) && x.v > 0
    ensures Congruent(Next(x), a, m)
  {
    var p, q, y := Pow(2, x.k), Pow(2, x.k + 1), Next(x);
    var u: int, u': int := x.u, y.u;
    NextTurns(x);
    if Turn(x.u, x.v, x.s, x.t, y.u, y.v, y.s, y.t) {
      MultiplesTurn(a, m, p, x.u, x.v, x.s, x.t, y.u, y.v, y.s, y.t, x.v, -u, -u', q);
    } else {
      MultiplesTurn(a, m, p, x.v, x.u, x.t, x.s, y.v, y.u, y.t, y.s, -u, x.v, y.v, q);
    }
  }

  /** A halved factor makes up for the doubled power. */
  lemma ProductShrinks(p: nat, w: nat, h: nat, c: nat, bound: nat)
    requires 2 * h <= w && p * (w * c) <= bound
    ensures 2 * p * (h * c) <= bound
  {
    MulMono(2 * h, w, c);
    assert 2 * p * (h * c) == p * ((2 * h) * c) by {
      Assoc(2, h, c);
      assert p * (2 * (h * c)) == 2 * p * (h * c);
    }
    MulMono((2 * h) * c, w * c, p);
  }

  lemma SumGrows(p: nat, w: nat, w': nat, bound: nat)
    requires w <= 2 * w' && bound <= p * w
    ensures bound <= 2 * p * w'
  {
    MulMono(w, 2 * w', p);
    assert 2 * p * w' == p * (2 * w');
  }

  /** While `v` is left, the product has at least halved; when it has gone, both numbers were equal and odd. */
  lemma KeepsProduct(p: nat, u: nat, v: nat, u': nat, v': nat, bound: nat)
    requires p * (u * v) <= bound && ((2 * u' <= u && v' == v) || (u' == u && 2 * v' <= v))
    ensures 2 * p * (u' * v') <= bound
  {
    if 2 * u' <= u && v' == v {
      ProductShrinks(p, u, u', v, bound);
    } else {
      assert u * v == v * u && v' * u' == u' * v';
      ProductShrinks(p, v, v', u, bound);
    }
  }

  lemma LastProduct(p: nat, u: nat, v: nat, bound: nat)
    requires p * (u * v) <= bound && u > 0 && v > 0
    ensures 2 * p <= 2 * bound
  {
    Positive(u, v);
    MulMono(1, u * v, p);
  }

  lemma NextShape(x: State)
    requires x.u > 0 && x.v > 0
    ensures var y := Next(x); (2 * y.u <= x.u && y.v == x.v) || (y.u == x.u && 2 * y.v <= x.v)
    ensures x.u + x.v <= 2 * (Next(x).u + Next(x).v) && Next(x).u > 0 && Next(x).u + Next(x).v < x.u + x.v
  {
  }

  ghost predicate PaceOf(p: nat, u: nat, v: nat, started: bool, bound: int, low: nat)
  {
    && (v > 0 ==> p * (u * v) <= bound)
    && (v == 0 && started ==> p <= 2 * bound)
    && low <= p * (u + v)
  }

  lemma PaceStep(p: nat, u: nat, v: nat, u': nat, v': nat, started: bool, bound: nat, low: nat)
    requires PaceOf(p, u, v, started, bound, low) && u > 0 && v > 0
    requires ((2 * u' <= u && v' == v) || (u' == u && 2 * v' <= v)) && u + v <= 2 * (u' + v')
    ensures PaceOf(2 * p, u', v', true, bound, low)
  {
    SumGrows(p, u + v, u' + v', low);
    KeepsProduct(p, u, v, u', v', bound);
    LastProduct(p, u, v, bound);
  }

  lemma KeepsPaced(x: State, a: nat, m: nat)
    requires Paced(x, a, m) && x.u > 0 && x.v > 0
    ensures Paced(Next(x), a, m)
  {
    var p, y, bound := Pow(2, x.k), Next(x), m * a;
    NextShape(x);
    assert PaceOf(p, x.u, x.v, x.k > 0, bound, m + a);
    PaceStep(p, x.u, x.v, y.u, y.v, x.k > 0, bound, m + a);
  }

  lemma Positive(u: nat, v: nat)
    requires u > 0 && v > 0
    ensures u * v >= 1
  {
    MulMono(1, u, v);
  }

  /** Every turn keeps the relation to the modulus, the congruences and the pace. */
  lemma KeepsGood(x: State, a: nat, m: nat)
    requires Good(x, a, m) && x.v > 0
    ensures Good(Next(x), a, m) && Next(x).u + Next(x).v < x.u + x.v
  {
    NextShape(x);
    KeepsTied(x, m);
    KeepsCongruent(x, a, m);
    KeepsPaced(x, a, m);
  }

  lemma InitialGood(a: nat, m: nat)
    requires a < m
    ensures Good(Initial(a, m), a, m)
  {
    var c: int := m;
    CongIntro(a * 0, -c * 1, 1, m);
  }

  lemma {:induction false} RunGood(x: State, a: nat, m: nat)
    requires Good(x, a, m)
    ensures Good(Run(x), a, m) && Run(x).v == 0
    decreases x.u + x.v
  {
    if x.v > 0 {
      KeepsGood(x, a, m);
      RunGood(Next(x), a, m);
    }
  }

  ghost predicate Divides(d: nat, x: nat)
  {
    d > 0 && x % d == 0
  }

  /** No common divisor but one. */
  ghost predicate Coprime(a: nat, m: nat)
  {
    forall d :: Divides(d, a) && Divides(d, m) ==> d == 1
  }

  /** The state an inversion ends in. */
  function Final(a: nat, m: nat): State
  {
    Run(Initial(a, m))
  }

  lemma FinalGood(a: nat, m: nat)
    requires a < m
    ensures Good(Final(a, m), a, m) && Final(a, m).v == 0
  {
    InitialGood(a, m);
    RunGood(Initial(a, m), a, m);
  }

  lemma MultipleMod(x: int, d: nat, c: int)
    requires d > 0 && x % d == 0
    ensures Cong(c * x, 0, d)
  {
    CongIsMod(x, 0, d);
    CongMul(x, 0, c, d);
  }

  /** A power of two is invertible modulo an odd number, so only one divides it to zero. */
  lemma PowerNotZero(e: nat, d: nat)
    requires d % 2 == 1 && Cong(0, Pow(2, e), d)
    ensures d == 1
  {
    var p := Pow(2, e);
    assert 0 * p == 0 && 1 * p == p;
    CancelPow2(0, 1, e, d);
    if d > 1 {
      CongSmall(0, 1, d);
    }
  }

  lemma OddDivisor(d: nat, m: nat)
    requires Divides(d, m) && m % 2 == 1
    ensures d % 2 == 1
  {
    var q, h := m / d, d / 2;
    assert m == q * d;
    assert q * d == 2 * (q * h) + q * (d % 2) by { assert d == 2 * h + d % 2; }
  }

  lemma CongReduce(x: int, y: int, m: nat, d: nat)
    requires m > 0 && Divides(d, m) && Cong(x, y, m)
    ensures Cong(x, y, d)
  {
    var q := CongElim(x, y, m);
    var e := m / d;
    assert m == e * d;
    Assoc(q, e, d);
    CongIntro(x, y, q * e, d);
  }

  lemma Negate(x: int, p: int, m: nat)
    requires m > 0 && Cong(x, -p, m)
    ensures Cong(-x, p, m)
  {
    CongAdd(0, 0, x, -p, m);
  }

  /** In a run that ends with one, the cofactor times the number is the negated power of two. */
  lemma FinalCong(x: State, a: nat, m: nat)
    requires Good(x, a, m) && x.u == 1
    ensures Cong(-(a * x.t as int), Pow(2, x.k), m)
  {
    Negate(a * x.t, Pow(2, x.k), m);
  }

  /** Then every common divisor divides a power of two. */
  lemma FoundIsCoprime(a: nat, t: nat, k: nat, m: nat, d: nat)
    requires m % 2 == 1 && Cong(-(a * t as int), Pow(2, k), m) && Divides(d, a) && Divides(d, m)
    ensures d == 1
  {
    var z: int := -(a * t as int);
    OddDivisor(d, m);
    CongReduce(z, Pow(2, k), m, d);
    MultipleMod(a, d, t);
    assert t * a == a * t;
    CongAdd(0, 0, a * t, 0, d);
    PowerNotZero(k, d);
  }

  /** When it ends with another number, that number divides both. */
  lemma NotFoundDivides(x: State, a: nat, m: nat)
    requires Good(x, a, m) && x.v == 0
    ensures Divides(x.u, a) && Divides(x.u, m)
  {
    assert m == x.u * x.s;
    DivModUnique(m, x.u, x.s, 0);
    assert Cong(a * x.s, 0, m);
    var q := CongElim(a * x.s, 0, m);
    assert q * (x.u * x.s) == (q * x.u) * x.s by { Assoc(q, x.u, x.s); }
    MulCancelEq(a, q * x.u, x.s);
    DivModUnique(a, x.u, q, 0);
  }

  lemma NotZero(a: nat, t: nat, k: nat, m: nat)
    requires m % 2 == 1 && m > 1 && Cong(-(a * t as int), Pow(2, k), m)
    ensures t % m != 0
  {
    if t % m == 0 {
      MultipleMod(t, m, a);
      CongAdd(0, 0, a * t, 0, m);
      PowerNotZero(k, m);
    }
  }

  lemma NegatedInverse(a: nat, t: nat, p: int, m: nat)
    requires m > 0 && Cong(-(a * t as int), p, m)
    ensures Cong(a * (m - t % m), p, m)
  {
    CongMod(t, m);
    CongIntro(m, 0, 1, m);
    CongAdd(m, 0, t % m, t, m);
    var nt: int := 0 - t;
    CongMul(m - t % m, nt, a, m);
    assert a * nt == -(a * t as int);
  }

  lemma TurnsPositive(x: State, a: nat, m: nat)
    requires Good(x, a, m) && m > 1 && x.u == 1 && x.v == 0
    ensures x.k > 0 && m + a <= Pow(2, x.k)
  {
    assert Pow(2, x.k) * (x.u + x.v) == Pow(2, x.k);
  }

  /**
   * What a run ends with: one exactly when `a` and the modulus are coprime, and then the negated cofactor is almost the inverse.
   */
  lemma AlmostInverse(a: nat, m: nat)
    requires m % 2 == 1 && a < m && m > 1
    ensures var x := Final(a, m); x.u == 1 <==> Coprime(a, m)
    ensures var x := Final(a, m); x.u == 1 ==> 0 < m - Rem(x.t, m) < m && Cong(a * (m - Rem(x.t, m)), Pow(2, x.k), m)
    ensures var x := Final(a, m); (x.u == 1 ==> x.k > 0) && x.t < 2 * m
  {
    var x := Final(a, m);
    FinalGood(a, m);
    NotFoundDivides(x, a, m);
    if x.u == 1 {
      FinalCong(x, a, m);
      forall d | Divides(d, a) && Divides(d, m)
        ensures d == 1
      {
        FoundIsCoprime(a, x.t, x.k, m, d);
      }
      NotZero(a, x.t, x.k, m);
      NegatedInverse(a, x.t, Pow(2, x.k), m);
      RemIsMod(x.t, m);
      TurnsPositive(x, a, m);
    }
  }

  lemma PowLess(x: nat, y: nat)
    requires Pow(2, x) < Pow(2, y)
    ensures x < y
  {
    if x >= y {
      PowMono(2, y, x);
    }
  }

  /** The number of turns lies between one and two times the size of the modulus. */
  lemma TurnsBounded(a: nat, m: nat, L: nat)
    requires m % 2 == 1 && a < m && m > 1 && m < Pow(2, L)
    ensures Final(a, m).k <= 2 * L
    ensures Final(a, m).u == 1 && L > 0 && Pow(2, L - 1) <= m ==> L <= Final(a, m).k
  {
    var x := Final(a, m);
    FinalGood(a, m);
    if x.k > 0 {
      SquareBound(m, a, Pow(2, L));
      PowAdd(2, L, L);
      assert Pow(2, 2 * L + 1) == 2 * Pow(2, 2 * L);
      PowLess(x.k, 2 * L + 1);
    }
    if x.u == 1 && L > 0 && Pow(2, L - 1) <= m {
      TurnsPositive(x, a, m);
      PowLess(L - 1, x.k);
    }
  }

  lemma SquareBound(m: nat, a: nat, p: nat)
    requires a < m < p
    ensures m * a < p * p
  {
    MulMono(m, p, a);
    MulMono(a, p - 1, p);
    assert (p - 1) * p == p * p - p;
  }

  /** A run that is not over has taken fewer turns than twice the size. */
  lemma NotYetOver(x: State, a: nat, m: nat, L: nat)
    requires Good(x, a, m) && x.v > 0 && a < m < Pow(2, L)
    ensures x.k < 2 * L
  {
    Positive(x.u, x.v);
    MulMono(1, x.u * x.v, Pow(2, x.k));
    SquareBound(m, a, Pow(2, L));
    PowAdd(2, L, L);
    PowLess(x.k, 2 * L);
  }
}
