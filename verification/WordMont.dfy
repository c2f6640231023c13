/** Word-level Montgomery arithmetic: the factor, the interleaved product, and the reduction of a double-length product in place. */
module WordMont {
  import opened Arith
  import opened Digits
  import opened Words
  import opened Bnu

  lemma ModMod(p: nat, x: nat, q: nat)
    requires x > 0 && q > 0
    ensures x * q > 0 && p % (x * q) % x == p % x
  {
    var d, r := p / (x * q), p % (x * q);
    assert p == d * (x * q) + r;
    assert d * (x * q) == (d * q) * x by { Assoc(d, q, x); assert q * x == x * q; }
    CongIntro(p, r, d * q, x);
    CongIsMod(p, r, x);
  }

  lemma EvenTimes(q: int, x: int)
    requires q % 2 == 0
    ensures q * x == q / 2 * (2 * x)
  {
    assert q == 2 * (q / 2);
    assert (2 * (q / 2)) * x == (q / 2) * (2 * x);
  }

  /** The odd case of `FactorStep`: the next bit joins the inverse. */
  lemma NextBit(m0: nat, y: nat, x: nat, q: int)
    requires m0 % 2 == 1 && q % 2 == 1 && x > 0 && m0 * y == 1 + q * x
    ensures Cong(m0 * (y + x), 1, 2 * x)
  {
    hide Cong;
    assert m0 * (y + x) == 1 + q * x + m0 * x;
    assert (q + m0) * x == q * x + m0 * x;
    EvenTimes(q + m0, x);
    CongIntro(m0 * (y + x), 1, (q + m0) / 2, 2 * x);
  }

  /** One doubling of the modulus: the low bits of `m0 * y` are one, or one with the next bit set. */
  lemma FactorStep(m0: nat, y: nat, x: nat)
    requires m0 % 2 == 1 && x >= 2 && Cong(m0 * y, 1, x)
    ensures var r := m0 * y % (2 * x); Cong(m0 * (if x < r then y + x else y), 1, 2 * x)
  {
    hide Cong;
    var p := m0 * y;
    var q := CongElim(p, 1, x);
    if q % 2 == 0 {
      EvenTimes(q, x);
      DivModUnique(p, 2 * x, q / 2, 1);
      CongIntro(p, 1, q / 2, 2 * x);
    } else {
      EvenTimes(q - 1, x);
      assert (q - 1) * x == q * x - x;
      DivModUnique(p, 2 * x, (q - 1) / 2, 1 + x);
      NextBit(m0, y, x, q);
    }
  }

  /** Masking a word with `mask == 2^i - 1` keeps its `i` low bits. */
  function LowBits(w: nat, mask: nat): nat
  {
    w % (mask + 1)
  }

  lemma FactorRound(m0: nat, y: nat, i: nat)
    requires m0 % 2 == 1 && 2 <= i <= CHUNK_BITS && Cong(m0 * y, 1, Pow(2, i - 1))
    ensures Pow(2, i - 1) >= 2 && Pow(2, i) == 2 * Pow(2, i - 1) && B > 0
    ensures var x := Pow(2, i - 1); Cong(m0 * (if x < m0 * y % B % Pow(2, i) then y + x else y), 1, Pow(2, i))
  {
    var x := Pow(2, i - 1);
    PowMono(2, 1, i - 1);
    PowAdd(2, i, CHUNK_BITS - i);
    ModMod(m0 * y, Pow(2, i), Pow(2, CHUNK_BITS - i));
    FactorStep(m0, y, x);
  }

  /** `gsMontFactor`: the negated inverse of an odd word, one bit a turn. The shift in the last turn wraps to zero. */
  method Factor(m0: word) returns (k0: word)
    requires m0 % 2 == 1
    ensures Cong(k0 * m0 + 1, 0, B)
  {
    PowMono(2, 2, CHUNK_BITS);
    var y: nat, x: nat, mask: nat := 1, 2, 3;
    assert m0 == 1 + m0 / 2 * 2;
    CongIntro(m0, 1, m0 / 2, 2);
    var i: nat := 2;
    while i <= CHUNK_BITS
      invariant 2 <= i <= CHUNK_BITS + 1 && y < Pow(2, i - 1)
      invariant i <= CHUNK_BITS ==> x == Pow(2, i - 1) && mask == Pow(2, i) - 1
      invariant Cong(m0 * y, 1, Pow(2, i - 1))
    {
      FactorRound(m0, y, i);
      PowMono(2, i, CHUNK_BITS);
      var rL := m0 * y % B;
      if x < LowBits(rL, mask) {
        y := y + x;
      }
      i := i + 1;
      x := if 2 * x < B then 2 * x else 2 * x - B;
      mask := if 2 * mask + 1 < B then 2 * mask + 1 else 2 * mask + 1 - B;
      if i <= CHUNK_BITS {
        PowMono(2, i, CHUNK_BITS);
      }
    }
    assert y < B && Cong(m0 * y, 1, B);
    NegatedInverse(m0, y, B);
    k0 := SubWrap(0, y);
  }

  lemma NegatedInverse(m0: nat, y: nat, base: nat)
    requires base >= 2 && y < base && Cong(m0 * y, 1, base)
    ensures y > 0 && Cong((base - y) * m0 + 1, 0, base)
  {
    if y == 0 {
      CongSmall(0, 1, base);
    }
    var q := CongElim(m0 * y, 1, base);
    assert (base - y) * m0 == base * m0 - m0 * y;
    assert base * m0 - q * base == (m0 - q) * base;
    CongIntro((base - y) * m0 + 1, 0, m0 - q, base);
  }

  lemma QuotientCancels(t: int, m0: int, k0: int)
    ensures m0 * (t * k0) + t == (k0 * m0 + 1) * t
  {
    assert m0 * (t * k0) == (k0 * m0) * t by {
      assert t * k0 == k0 * t;
      Assoc(m0, k0, t);
      assert m0 * k0 == k0 * m0;
    }
    assert (k0 * m0 + 1) * t == (k0 * m0) * t + t;
  }

  /** The quotient word makes the sum a multiple of the base. */
  lemma QuotientDivides(t: int, m0: int, k0: int, u: int, base: int)
    requires base > 0 && Cong(k0 * m0 + 1, 0, base) && Cong(u, t * k0, base)
    ensures Cong(m0 * u + t, 0, base)
  {
    CongMul(u, t * k0, m0, base);
    CongAdd(m0 * u, m0 * (t * k0), t, t, base);
    CongMul(k0 * m0 + 1, 0, t, base);
    QuotientCancels(t, m0, k0);
  }

  /** The quotient word clears the low word. */
  lemma LowCleared(t: nat, m0: nat, k0: nat, u: nat, low: nat, high: nat, base: nat)
    requires base > 1 && Cong(k0 * m0 + 1, 0, base) && Cong(u, t * k0, base) && low < base
    requires high * base + low == m0 * u + t
    ensures low == 0
  {
    QuotientDivides(t, m0, k0, u, base);
    CongIntro(m0 * u + t, low, high, base);
    CongSmall(low, 0, base);
  }

  /** The low word of a product. */
  method MulLow(t: word, k0: word) returns (u: word)
    ensures Cong(u, t * k0, B)
  {
    DoubleWord(t, k0, B);
    CongMod(t * k0, B);
    u := t * k0 % B;
  }

  lemma ReduceStep(shifted: nat, ex: nat, p: nat, o: nat, ms: nat, u: nat, mj: nat, pj: nat, h: nat, l: nat, base: nat,
                   o': nat, ms': nat, shifted': nat)
    requires base * shifted + ex * (base * p) == o + ms * u
    requires h * base + l == mj * u + pj + ex
    requires o' == o + (base * p) * pj && ms' == ms + (base * p) * mj && shifted' == shifted + p * l
    ensures base * shifted' + h * (base * (base * p)) == o' + ms' * u
  {
    var q := base * p;
    Spread(q, mj * u, pj, ex);
    Spread(q, h * base, l, 0);
    MoveFactor(h, base, q);
    ScaleSum(base, shifted, p, l);
    SpreadRight(ms, q, mj, u);
  }

  lemma Spread(q: int, a: int, b: int, c: int)
    ensures q * (a + b + c) == q * a + q * b + q * c
  {
  }

  lemma MoveFactor(h: int, base: nat, q: nat)
    ensures q * (h * base) == h * (base * q)
  {
    Assoc(h, base, q);
  }

  lemma ScaleSum(base: nat, s: nat, p: nat, l: nat)
    ensures base * (s + p * l) == base * s + (base * p) * l
  {
    Assoc(base, p, l);
  }

  lemma SpreadRight(m: nat, q: nat, d: nat, u: nat)
    ensures (m + q * d) * u == m * u + q * (d * u)
  {
    Assoc(q, d, u);
  }

  /** `MUL_AB`, then two `ADD_AB`, both carries accumulated into the high word. */
  method MulAddInTurn(m: word, u: word, p: word, ex: word) returns (high: word, low: word)
    ensures high * B + low == m * u + p + ex
  {
    var muH, muL := MulAB(m, u);
    var e, t := AddAB(p, ex);
    var c, r := AddAB(t, muL);
    assert (e + muH + c) * B == e * B + muH * B + c * B;
    MacFits(m, u, p, ex, e + muH + c, r, B);
    high, low := e + muH + c, r;
  }

  lemma RowEnd(shifted: nat, ex: nat, q: nat, o: nat, mu: int, top: nat, carry: nat, w: nat, carry': nat, base: nat, p: nat,
               o': nat, shifted': nat)
    requires q == base * p && base * shifted + ex * q == o + mu && carry' * base + w == top + ex + carry
    requires o' == o + q * top && shifted' == shifted + p * w
    ensures base * shifted' + carry' * (base * q) == o' + carry * q + mu
  {
    Spread(q, top, ex, carry);
    Spread(q, carry' * base, w, 0);
    MoveFactor(carry', base, q);
    ScaleSum(base, shifted, p, w);
  }

  /** The words after the first: each sum moves down one place. */
  method RedMiddle(x: Ptr, m: Ptr, n: nat, u: word, start: word) returns (ex: word)
    requires 0 < n && x.Has(n + 1) && m.Has(n) && Apart(x, n + 1, m, n)
    requires start * B == Num(x, 1) + Num(m, 1) * u
    modifies x.a
    ensures B * Num(x.At(1), n - 1) + ex * Pow(B, n) == old(Num(x, n)) + Num(m, n) * u
    ensures x.a[x.o + n] == old(x.a[x.o + n]) && Only(x, n)
  {
    hide Val;
    NumNone(x.At(1));
    ex := start;
    for j: nat := 1 to n
      invariant forall i :: x.o + j <= i < x.o + n + 1 ==> x.a[i] == old(x.a[i])
      invariant B * Num(x.At(1), j - 1) + ex * Pow(B, j) == old(Num(x, j)) + Num(m, j) * u
      invariant Only(x, n)
    {
      OldSnoc(x, j);
      NumSnoc(m, j);
      var mj, xj := m.a[m.o + j], x.a[x.o + j];
      ghost var o, ms, shifted, c := old(Num(x, j)), Num(m, j), Num(x.At(1), j - 1), ex;
      var l;
      ex, l := MulAddInTurn(mj, u, xj, ex);
      Put(x.At(1), j - 1, l);
      ReduceStep(shifted, c, Pow(B, j - 1), o, ms, u, mj, xj, ex, l, B, old(Num(x, j + 1)), Num(m, j + 1), Num(x.At(1), j));
    }
  }

  /** The quotient word, and the carry out of the low word it clears. */
  method RedStart(x: Ptr, m: Ptr, k0: word) returns (u: word, start: word)
    requires x.Has(1) && m.Has(1) && Cong(k0 * Num(m, 1) + 1, 0, B)
    ensures start * B == Num(x, 1) + Num(m, 1) * u
  {
    Pow2Even(CHUNK_BITS);
    NumOne(x);
    NumOne(m);
    u := MulLow(x.a[x.o], k0);
    var t;
    start, t := MulAddAdd(m.a[m.o], u, x.a[x.o], 0);
    LowCleared(x.a[x.o], m.a[m.o], k0, u, t, start, B);
  }

  /** One quotient word added in place; the number shifts down one word, leaving a stale word at the bottom. */
  method RedRow(x: Ptr, m: Ptr, n: nat, k0: word, carry: nat) returns (carry': nat, u: word)
    requires 0 < n && x.Has(n + 1) && m.Has(n) && Apart(x, n + 1, m, n) && carry <= 1
    requires Cong(k0 * Num(m, 1) + 1, 0, B)
    modifies x.a
    ensures carry' <= 1 && Only(x, n + 1)
    ensures B * Num(x.At(1), n) + carry' * (B * Pow(B, n)) == old(Num(x, n + 1)) + carry * Pow(B, n) + Num(m, n) * u
  {
    hide Val;
    var start;
    u, start := RedStart(x, m, k0);
    var ex := RedMiddle(x, m, n, u, start);
    OldSnoc(x, n);
    var top := x.a[x.o + n];
    ghost var shifted := Num(x.At(1), n - 1);
    var w;
    carry', w := AddABC(top, ex, carry);
    CarryAtMostOne(top, ex, carry, carry', w, B);
    Put(x.At(1), n - 1, w);
    RowEnd(shifted, ex, Pow(B, n), old(Num(x, n)), Num(m, n) * u, top, carry, w, carry', B, Pow(B, n - 1),
           old(Num(x, n + 1)), Num(x.At(1), n));
  }

  lemma CarryAtMostOne(a: nat, b: nat, c: nat, c': nat, w: nat, base: nat)
    requires a < base && b < base && c <= 1 && c' * base + w == a + b + c
    ensures c' <= 1
  {
    if c' >= 2 {
      MulMono(2, c', base);
    }
  }

  /** What a run of rows has computed: `v` words shifted down by `p`, from `x` plus `y` multiples of the modulus. */
  ghost predicate Reducing(v: int, p: nat, x: int, m: nat, y: nat)
  {
    v * p == x + m * y && y < p
  }

  lemma ReducingStep(v: int, v': int, p: nat, x: int, a: int, m: nat, y: nat, u: nat, base: nat)
    requires Reducing(v, p, x, m, y) && u < base
    requires base * v' == v + a + m * u
    ensures Reducing(v', base * p, x + p * a, m, y + p * u)
  {
    Spread(p, v, a, m * u);
    MoveFactor(v', base, p);
    assert p * (base * v') == v' * (base * p);
    assert p * (m * u) == m * (p * u) by { Assoc(p, m, u); Assoc(m, p, u); assert p * m == m * p; }
    Spread(m, y, p * u, 0);
    MulMono(u + 1, base, p);
  }

  /** A reduced value is below twice the modulus, and congruent to the input after scaling. */
  lemma ReducedBound(v: int, p: nat, x: int, m: nat, y: nat)
    requires Reducing(v, p, x, m, y) && m > 0 && x < m * p
    ensures v < 2 * m && Cong(v * p, x, m)
  {
    CongIntro(v * p, x, y, m);
    MulMono(y, p, m);
    assert v * p < (2 * m) * p;
    MulCancelLt(v, 2 * m, p);
  }

  /** The number still to be reduced: everything from word `i` on, and the carry at word `i + n`. */
  lemma RowOfDouble(low: nat, low': nat, high: nat, c: nat, c': nat, mu: int, pn: nat, base: nat)
    requires base * low' + c' * (base * pn) == low + c * pn + mu
    ensures base * (low' + pn * high + c' * pn) == (low + (base * pn) * high) + c * pn + mu
  {
    Spread(base, low', pn * high, c' * pn);
    Assoc(base, pn, high);
    Assoc(base, c', pn);
    Assoc(c', base, pn);
  }

  /** One reduction row on the whole number: everything from the current word on, with the carry, becomes everything from the next. */
  lemma RowReduces(low: nat, low': nat, high: nat, c: nat, c': nat, pn: nat, base: nat, p: nat, x: int, m: nat, y: nat, u: nat,
                   whole: nat, whole': nat)
    returns (y': nat)
    requires whole == low + (base * pn) * high && whole' == low' + pn * high && u < base
    requires base * low' + c' * (base * pn) == low + c * pn + m * u && Reducing(whole + c * pn, p, x, m, y)
    ensures Reducing(whole' + c' * pn, base * p, x, m, y')
  {
    RowOfDouble(low, low', high, c, c', m * u, pn, base);
    ReducingStep(whole + c * pn, whole' + c' * pn, p, x, 0, m, y, u, base);
    y' := y + p * u;
  }

  /** A value below twice the modulus after at most one subtraction. */
  ghost predicate Once(r: nat, v: int, m: nat)
  {
    r < m && (r == v || r + m == v)
  }

  lemma SubtractDecides(low: nat, carry: nat, p: nat, m: nat, d: nat, borrow: nat)
    requires low < p && d < p && m <= p && carry <= 1 && borrow <= 1 && low + carry * p < 2 * m
    requires d - borrow * p == low - m
    ensures Once(if carry != borrow then low else d, low + carry * p, m)
  {
  }

  /** Final subtraction: carry less borrow decides under a mask which of the two values is kept. */
  method SubtractInto(r: Ptr, t: Ptr, m: Ptr, n: nat, carry: nat)
    requires r.Has(n) && t.Has(n) && m.Has(n) && Apart(r, n, t, n) && Apart(r, n, m, n)
    requires carry <= 1 && Num(t, n) + carry * Pow(B, n) < 2 * Num(m, n)
    modifies r.a
    ensures Once(Num(r, n), old(Num(t, n)) + carry * Pow(B, n), old(Num(m, n))) && Only(r, n)
  {
    hide Val;
    NumBound(t, n);
    NumBound(m, n);
    ghost var tv, mv := Num(t, n), Num(m, n);
    var borrow := Sub(r, t, m, n);
    NumBound(r, n);
    SubtractDecides(tv, carry, Pow(B, n), mv, Num(r, n), borrow);
    Replace(r, t, n, carry != borrow);
  }

  /** The rows of `gs_mont_red`: the reduced number ends in the upper half, with a carry above it. */
  method RedRows(x: Ptr, m: Ptr, n: nat, k0: word) returns (carry: nat, ghost y: nat)
    requires 0 < n && x.Has(2 * n) && m.Has(n) && Apart(x, 2 * n, m, n) && Cong(k0 * Num(m, 1) + 1, 0, B)
    modifies x.a
    ensures carry <= 1 && Only(x, 2 * n)
    ensures Reducing(Num(x.At(n), n) + carry * Pow(B, n), Pow(B, n), old(Num(x, 2 * n)), old(Num(m, n)), y)
  {
    hide Val;
    carry, y := 0, 0;
    ghost var X, M, P := Num(x, 2 * n), Num(m, n), Pow(B, n);
    ghost var p: nat := 1;
    assert x.At(0) == x;
    for i: nat := 0 to n
      invariant carry <= 1 && Only(x, 2 * n) && Num(m, n) == M && Num(m, 1) == old(Num(m, 1))
      invariant p == Pow(B, i) && Reducing(Num(x.At(i), 2 * n - i) + carry * P, p, X, M, y)
    {
      carry, y := RedOne(x.At(i), 2 * n - i, m, n, k0, carry, X, M, p, y);
      p := B * p;
    }
  }

  /** One row, seen from the whole number. */
  method RedOne(x: Ptr, len: nat, m: Ptr, n: nat, k0: word, carry: nat, ghost X: nat, ghost M: nat, ghost p: nat, ghost y: nat)
    returns (carry': nat, ghost y': nat)
    requires 0 < n < len && x.Has(len) && m.Has(n) && Apart(x, len, m, n) && Cong(k0 * Num(m, 1) + 1, 0, B) && carry <= 1
    requires M == Num(m, n) && Reducing(Num(x, len) + carry * Pow(B, n), p, X, M, y)
    modifies x.a
    ensures carry' <= 1 && Only(x, len)
    ensures Reducing(Num(x.At(1), len - 1) + carry' * Pow(B, n), B * p, X, M, y')
  {
    hide Val, Reducing;
    NumSplit(x, n + 1, len);
    ghost var whole, low, high := Num(x, len), Num(x, n + 1), Num(x.At(n + 1), len - n - 1);
    var u;
    carry', u := RedRow(x, m, n, k0, carry);
    NumSplit(x.At(1), n, len - 1);
    y' := RowReduces(low, Num(x.At(1), n), high, carry, carry', Pow(B, n), B, p, X, M, y, u, whole, Num(x.At(1), len - 1));
  }

  /** `gs_mont_red`: a double-length product below `m * B^n` reduced in place, the result fully reduced. */
  method Red(r: Ptr, x: Ptr, m: Ptr, n: nat, k0: word)
    requires 0 < n && x.Has(2 * n) && m.Has(n) && r.Has(n) && Apart(x, 2 * n, m, n) && Cong(k0 * Num(m, 1) + 1, 0, B)
    requires Apart(r, n, m, n) && Apart(r, n, x, 2 * n) && 0 < Num(m, n)
    requires Num(x, 2 * n) < Num(m, n) * Pow(B, n)
    modifies r.a, x.a
    ensures Num(r, n) < old(Num(m, n)) && Cong(Num(r, n) * Pow(B, n), old(Num(x, 2 * n)), old(Num(m, n)))
    ensures OnlyTwo(r, n, x, 2 * n)
  {
    hide Val;
    ghost var X, M, P := Num(x, 2 * n), Num(m, n), Pow(B, n);
    var carry, y := RedRows(x, m, n, k0);
    ghost var v := Num(x.At(n), n) + carry * P;
    ReducedBound(v, P, X, M, y);
    SubtractInto(r, x.At(n), m, n, carry);
    OnceCong(Num(r, n), v, M, P, X);
  }

  lemma OnceCong(r: nat, v: int, m: nat, p: nat, x: int)
    requires Once(r, v, m) && Cong(v * p, x, m)
    ensures Cong(r * p, x, m)
  {
    CongIntro(v, r, if r == v then 0 else 1, m);
    CongMul(v, r, p, m);
  }

  /** Two word products in place `q`: what they carry and what they leave. */
  lemma TwoProducts(ea: int, em: int, ea': int, em': int, x: int, y: int, tj: int, l: int, l': int, base: nat, q: nat)
    requires ea' * base + l == x + tj + ea && em' * base + l' == y + l + em
    ensures (ea' + em') * (base * q) + q * l' == q * x + q * y + q * tj + (ea + em) * q
  {
    var h := ea' + em';
    assert h * base == ea' * base + em' * base;
    Spread(q, h * base, l', 0);
    Spread(q, x + y, tj, ea + em);
    Spread(q, x, y, 0);
    MoveFactor(h, base, q);
    Commute(q, ea + em);
  }

  lemma InterleaveStep(shifted: nat, ea: nat, em: nat, p: nat, o: int, sa: nat, sm: nat, b: nat, u: nat,
                       aj: nat, mj: nat, tj: nat, ea': nat, l: nat, em': nat, l': nat, base: nat,
                       o': int, sa': int, sm': int, shifted': int)
    requires base * shifted + (ea + em) * (base * p) == o + sa * b + sm * u
    requires ea' * base + l == aj * b + tj + ea && em' * base + l' == mj * u + l + em
    requires o' == o + (base * p) * tj && sa' == sa + (base * p) * aj && sm' == sm + (base * p) * mj && shifted' == shifted + p * l'
    ensures base * shifted' + (ea' + em') * (base * (base * p)) == o' + sa' * b + sm' * u
  {
    var q := base * p;
    TwoProducts(ea, em, ea', em', aj * b, mj * u, tj, l, l', base, q);
    ScaleSum(base, shifted, p, l');
    SpreadRight(sa, q, aj, b);
    SpreadRight(sm, q, mj, u);
  }

  /** One word: both products added, the sum stored one place down. */
  method MulWord(t: Ptr, j: nat, aj: word, mj: word, b: word, u: word, ea: word, em: word,
                 ghost o: nat, ghost sa: nat, ghost sm: nat) returns (ea': word, em': word)
    requires 0 < j && t.Has(j + 1) && B * Num(t, j - 1) + (ea + em) * Pow(B, j) == o + sa * b + sm * u
    modifies t.a
    ensures B * Num(t, j) + (ea' + em') * Pow(B, j + 1)
         == (o + Pow(B, j) * old(t.a[t.o + j])) + (sa + Pow(B, j) * aj) * b + (sm + Pow(B, j) * mj) * u
    ensures Only(t.At(j - 1), 1)
  {
    hide Val;
    var tj := t.a[t.o + j];
    ghost var shifted := Num(t, j - 1);
    var l, l';
    ea', l := MulAddAdd(aj, b, tj, ea);
    em', l' := MulAddAdd(mj, u, l, em);
    Put(t, j - 1, l');
    InterleaveStep(shifted, ea, em, Pow(B, j - 1), o, sa, sm, b, u, aj, mj, tj, ea', l, em', l', B,
                   o + Pow(B, j) * tj, sa + Pow(B, j) * aj, sm + Pow(B, j) * mj, Num(t, j));
  }

  /** The words after the first: both products added, the sum moved down one place. */
  method MulMiddle(t: Ptr, a: Ptr, m: Ptr, n: nat, b: word, u: word, ab: word, mu: word) returns (ea: word, em: word)
    requires 0 < n && t.Has(n) && a.Has(n) && m.Has(n) && Apart(t, n, a, n) && Apart(t, n, m, n)
    requires (ab + mu) * B == Num(t, 1) + Num(a, 1) * b + Num(m, 1) * u
    modifies t.a
    ensures B * Num(t, n - 1) + (ea + em) * Pow(B, n) == old(Num(t, n)) + Num(a, n) * b + Num(m, n) * u
    ensures Only(t, n)
  {
    hide Val;
    NumNone(t);
    ea, em := ab, mu;
    for j: nat := 1 to n
      invariant forall i :: t.o + j <= i < t.o + n ==> t.a[i] == old(t.a[i])
      invariant B * Num(t, j - 1) + (ea + em) * Pow(B, j) == old(Num(t, j)) + Num(a, j) * b + Num(m, j) * u
      invariant Only(t, n)
    {
      OldSnoc(t, j);
      NumSnoc(a, j);
      NumSnoc(m, j);
      ea, em := MulWord(t, j, a.a[a.o + j], m.a[m.o + j], b, u, ea, em, old(Num(t, j)), Num(a, j), Num(m, j));
    }
  }

  /** The low word: the quotient word is chosen so that it becomes zero and can be dropped. */
  method MulStart(t: Ptr, a: Ptr, m: Ptr, b: word, k0: word) returns (u: word, ea: word, em: word)
    requires t.Has(1) && a.Has(1) && m.Has(1) && Cong(k0 * Num(m, 1) + 1, 0, B)
    ensures (ea + em) * B == Num(t, 1) + Num(a, 1) * b + Num(m, 1) * u
  {
    Pow2Even(CHUNK_BITS);
    NumOne(t);
    NumOne(a);
    NumOne(m);
    var l, l';
    ea, l := MulAddAdd(a.a[a.o], b, t.a[t.o], 0);
    u := MulLow(l, k0);
    em, l' := MulAddAdd(m.a[m.o], u, l, 0);
    LowCleared(l, m.a[m.o], k0, u, l', em, B);
    Spread(B, ea, em, 0);
  }

  lemma MulRowEnd(shifted: nat, q: nat, sum: int, ea: nat, em: nat, carry: nat, w: nat, carry': nat, base: nat, p: nat,
                  shifted': nat)
    requires q == base * p && base * shifted + (ea + em) * q == sum && carry' * base + w == ea + em + carry
    requires shifted' == shifted + p * w
    ensures base * (shifted' + carry' * q) == sum + carry * q
  {
    Spread(q, ea + em, carry, 0);
    Spread(q, carry' * base, w, 0);
    MoveFactor(carry', base, q);
    ScaleSum(base, shifted, p, w);
    Spread(base, shifted', carry' * q, 0);
    Assoc(base, carry', q);
    Assoc(carry', base, q);
  }

  /** One word of the second operand: `(t + a * b + m * u) / B`, with a single carry word above the buffer. */
  method MulRow(t: Ptr, a: Ptr, m: Ptr, n: nat, b: word, k0: word, carry: nat) returns (carry': nat, u: word)
    requires 0 < n && t.Has(n) && a.Has(n) && m.Has(n) && Apart(t, n, a, n) && Apart(t, n, m, n) && carry <= 1
    requires Cong(k0 * Num(m, 1) + 1, 0, B)
    modifies t.a
    ensures carry' <= 1 && Only(t, n)
    ensures B * (Num(t, n) + carry' * Pow(B, n)) == old(Num(t, n)) + Num(a, n) * b + Num(m, n) * u + carry * Pow(B, n)
  {
    hide Val;
    var ea, em;
    u, ea, em := MulStart(t, a, m, b, k0);
    ghost var sum := Num(t, n) + Num(a, n) * b + Num(m, n) * u;
    ea, em := MulMiddle(t, a, m, n, b, u, ea, em);
    ghost var shifted := Num(t, n - 1);
    var w;
    carry', w := AddABC(ea, em, carry);
    CarryAtMostOne(ea, em, carry, carry', w, B);
    Put(t, n - 1, w);
    MulRowEnd(shifted, Pow(B, n), sum, ea, em, carry, w, carry', B, Pow(B, n - 1), Num(t, n));
  }

  lemma MulReduces(v: int, v': int, p: nat, A: nat, bp: nat, bi: nat, m: nat, y: nat, u: nat, base: nat, bp': nat)
    returns (y': nat)
    requires Reducing(v, p, A * bp, m, y) && u < base && bp' == bp + p * bi
    requires base * v' == v + A * bi + m * u
    ensures Reducing(v', base * p, A * bp', m, y')
  {
    ReducingStep(v, v', p, A * bp, A * bi, m, y, u, base);
    assert A * bp' == A * bp + p * (A * bi) by {
      Spread(A, bp, p * bi, 0);
      Assoc(A, p, bi);
      Assoc(p, A, bi);
    }
    y' := y + p * u;
  }

  /** The rows of the interleaved product: after each, the buffer and its carry word hold an exactly shifted partial product. */
  method MulRows(t: Ptr, a: Ptr, b: Ptr, m: Ptr, n: nat, k0: word) returns (carry: nat, ghost y: nat)
    requires 0 < n && t.Has(n) && a.Has(n) && b.Has(n) && m.Has(n)
    requires Apart(t, n, a, n) && Apart(t, n, b, n) && Apart(t, n, m, n) && Cong(k0 * Num(m, 1) + 1, 0, B)
    modifies t.a
    ensures carry <= 1 && Only(t, n)
    ensures Reducing(Num(t, n) + carry * Pow(B, n), Pow(B, n), old(Num(a, n)) * old(Num(b, n)), old(Num(m, n)), y)
  {
    hide Val;
    ghost var A, Bv, M, P := Num(a, n), Num(b, n), Num(m, n), Pow(B, n);
    SetWord(t, n, 0);
    NumNone(b);
    carry, y := 0, 0;
    ghost var v, p: nat, bp: nat := 0, 1, 0;
    for i: nat := 0 to n
      invariant carry <= 1 && Only(t, n)
      invariant Num(a, n) == A && Num(b, n) == Bv && Num(m, n) == M && Num(m, 1) == old(Num(m, 1))
      invariant v == Num(t, n) + carry * P && p == Pow(B, i) && bp == Num(b, i)
      invariant Reducing(v, p, A * bp, M, y)
    {
      carry, v, y, bp := MulOne(t, a, b, m, n, k0, carry, i, A, M, v, p, y, bp);
      p := B * p;
    }
  }

  /** One row of the interleaved product, seen from the whole product. */
  method MulOne(t: Ptr, a: Ptr, b: Ptr, m: Ptr, n: nat, k0: word, carry: nat, i: nat,
                ghost A: nat, ghost M: nat, ghost v: int, ghost p: nat, ghost y: nat, ghost bp: nat)
    returns (carry': nat, ghost v': int, ghost y': nat, ghost bp': nat)
    requires i < n && t.Has(n) && a.Has(n) && b.Has(n) && m.Has(n) && carry <= 1
    requires Apart(t, n, a, n) && Apart(t, n, b, n) && Apart(t, n, m, n) && Cong(k0 * Num(m, 1) + 1, 0, B)
    requires A == Num(a, n) && M == Num(m, n) && bp == Num(b, i) && p == Pow(B, i)
    requires v == Num(t, n) + carry * Pow(B, n) && Reducing(v, p, A * bp, M, y)
    modifies t.a
    ensures carry' <= 1 && Only(t, n) && bp' == Num(b, i + 1)
    ensures v' == Num(t, n) + carry' * Pow(B, n) && Reducing(v', B * p, A * bp', M, y')
  {
    NumSnoc(b, i);
    var bi := b.a[b.o + i];
    var u;
    carry', u := MulRow(t, a, m, n, bi, k0, carry);
    v' := Num(t, n) + carry' * Pow(B, n);
    bp' := Num(b, i + 1);
    y' := MulReduces(v, v', p, A, bp, bi, M, y, u, B, bp');
  }

  /**
   * `gs_mont_mul`, interleaved form: `a * b * B^-n` fully reduced whenever `a * b < m * B^n`, so only one operand need be reduced.
   * The result may overwrite an operand.
   */
  method Mul(r: Ptr, a: Ptr, b: Ptr, t: Ptr, m: Ptr, n: nat, k0: word)
    requires 0 < n && t.Has(n) && a.Has(n) && b.Has(n) && m.Has(n) && r.Has(n) && 0 < Num(m, n)
    requires Apart(t, n, a, n) && Apart(t, n, b, n) && Apart(t, n, m, n) && Cong(k0 * Num(m, 1) + 1, 0, B)
    requires Apart(r, n, m, n) && Apart(r, n, t, n)
    requires Num(a, n) * Num(b, n) < Num(m, n) * Pow(B, n)
    modifies r.a, t.a
    ensures Num(r, n) < old(Num(m, n))
    ensures Cong(Num(r, n) * Pow(B, n), old(Num(a, n)) * old(Num(b, n)), old(Num(m, n)))
    ensures OnlyTwo(r, n, t, n)
  {
    ghost var X: int, M, P := Num(a, n) * Num(b, n), Num(m, n), Pow(B, n);
    var carry, y := MulRows(t, a, b, m, n, k0);
    ghost var v := Num(t, n) + carry * P;
    ReducedBound(v, P, X, M, y);
    SubtractInto(r, t, m, n, carry);
    OnceCong(Num(r, n), v, M, P, X);
  }

  lemma SchoolStep(r: nat, x: nat, a: nat, b: nat, p: nat, c: nat, w: nat, xj: nat, aj: nat, c': nat, base: nat,
                    x': nat, a': nat, r': nat)
    requires r + c * p == x + a * b && c' * base + w == aj * b + xj + c && x' == x + p * xj && a' == a + p * aj && r' == r + p * w
    ensures r' + c' * (base * p) == x' + a' * b
  {
    Spread(p, aj * b, xj, c);
    Spread(p, c' * base, w, 0);
    MoveFactor(c', base, p);
    SpreadRight(a, p, aj, b);
  }

  /** The multiply-accumulate chain of one row of the schoolbook product. */
  method SchoolChain(x: Ptr, a: Ptr, n: nat, b: word) returns (ext: word)
    requires x.Has(n) && a.Has(n) && Apart(x, n, a, n)
    modifies x.a
    ensures Num(x, n) + ext * Pow(B, n) == old(Num(x, n)) + Num(a, n) * b && Only(x, n)
  {
    ext := 0;
    for j: nat := 0 to n
      invariant forall i :: x.o + j <= i < x.o + n ==> x.a[i] == old(x.a[i])
      invariant Num(x, j) + ext * Pow(B, j) == old(Num(x, j)) + Num(a, j) * b
      invariant Only(x, n)
    {
      OldSnoc(x, j);
      NumSnoc(a, j);
      var aj, xj := a.a[a.o + j], x.a[x.o + j];
      ghost var r, o, s, c := Num(x, j), old(Num(x, j)), Num(a, j), ext;
      var w;
      ext, w := MulAddAdd(aj, b, xj, ext);
      Put(x, j, w);
      SchoolStep(r, o, s, b, Pow(B, j), c, w, xj, aj, ext, B, old(Num(x, j + 1)), Num(a, j + 1), Num(x, j + 1));
    }
  }

  lemma Commute(x: int, y: int)
    ensures x * y == y * x
  {
  }

  /** One row of the schoolbook product: `x + a * b` with the extension word stored above. */
  method SchoolRow(x: Ptr, a: Ptr, n: nat, b: word)
    requires x.Has(n + 1) && a.Has(n) && Apart(x, n + 1, a, n)
    modifies x.a
    ensures Num(x, n + 1) == old(Num(x, n)) + old(Num(a, n)) * b && Only(x, n + 1)
  {
    ghost var row: int := Num(x, n) + Num(a, n) * b;
    var ext := SchoolChain(x, a, n, b);
    Commute(ext, Pow(B, n));
    Put(x, n, ext);
  }

  lemma PartialProduct(low: nat, mid: nat, row: int, p: nat, A: nat, bp: nat, bi: nat, bp': nat, total: nat)
    requires low + p * mid == A * bp && row == mid + A * bi && bp' == bp + p * bi && total == low + p * row
    ensures total == A * bp'
  {
    Spread(p, mid, A * bi, 0);
    Spread(A, bp, p * bi, 0);
    Assoc(A, p, bi);
    Assoc(p, A, bi);
  }

  method SchoolOne(x: Ptr, a: Ptr, b: Ptr, n: nat, i: nat, ghost A: nat, ghost bp: nat)
    requires i < n && x.Has(2 * n) && a.Has(n) && b.Has(n) && Apart(x, 2 * n, a, n) && Apart(x, 2 * n, b, n)
    requires A == Num(a, n) && bp == Num(b, i) && Num(x, n + i) == A * bp
    modifies x.a
    ensures Num(x, n + i + 1) == A * Num(b, i + 1) && Only(x, 2 * n)
  {
    var row := x.At(i);
    var bi := b.a[b.o + i];
    NumSnoc(b, i);
    NumSplit(x, i, n + i);
    ghost var low, mid, bp' := Num(x, i), Num(row, n), Num(b, i + 1);
    SchoolRow(row, a, n, bi);
    NumSplit(x, i, n + i + 1);
    PartialProduct(low, mid, Num(row, n + 1), Pow(B, i), A, bp, bi, bp', Num(x, n + i + 1));
  }

  /** `cpMulAdc_BNU_school`: the full product, row by row. */
  method School(x: Ptr, a: Ptr, b: Ptr, n: nat)
    requires 0 < n && x.Has(2 * n) && a.Has(n) && b.Has(n) && Apart(x, 2 * n, a, n) && Apart(x, 2 * n, b, n)
    modifies x.a
    ensures Num(x, 2 * n) == old(Num(a, n)) * old(Num(b, n)) && Only(x, 2 * n)
  {
    hide Val;
    ghost var A := Num(a, n);
    SetWord(x, 2 * n, 0);
    NumSplit(x, n, 2 * n);
    ZeroParts(Num(x, n), Pow(B, n), Num(x.At(n), n));
    NumNone(b);
    for i: nat := 0 to n
      invariant Num(x, n + i) == A * Num(b, i) && Only(x, 2 * n) && Num(a, n) == A
    {
      SchoolOne(x, a, b, n, i, A, Num(b, i));
    }
  }

  /** `gs_mont_mul`, second form: the schoolbook product, then its reduction in place. */
  method MulThenRed(r: Ptr, a: Ptr, b: Ptr, x: Ptr, m: Ptr, n: nat, k0: word)
    requires 0 < n && x.Has(2 * n) && a.Has(n) && b.Has(n) && m.Has(n) && r.Has(n) && 0 < Num(m, n)
    requires Apart(x, 2 * n, a, n) && Apart(x, 2 * n, b, n) && Apart(x, 2 * n, m, n) && Cong(k0 * Num(m, 1) + 1, 0, B)
    requires Apart(r, n, m, n) && Apart(r, n, x, 2 * n)
    requires Num(a, n) * Num(b, n) < Num(m, n) * Pow(B, n)
    modifies r.a, x.a
    ensures Num(r, n) < old(Num(m, n))
    ensures Cong(Num(r, n) * Pow(B, n), old(Num(a, n)) * old(Num(b, n)), old(Num(m, n)))
    ensures OnlyTwo(r, n, x, 2 * n)
  {
    ghost var X: int, M := Num(a, n) * Num(b, n), Num(m, n);
    School(x, a, b, n);
    assert Num(x, 2 * n) == X && Num(m, n) == M;
    Red(r, x, m, n, k0);
  }

  lemma BelowProduct(x: nat, m: nat, p: nat)
    requires x < p && m > 0
    ensures x < m * p
  {
    MulMono(1, m, p);
  }

  /** `gs_mont_decode`: the operand extended by zeros to double length and reduced. */
  method ExtendThenRed(r: Ptr, a: Ptr, x: Ptr, m: Ptr, n: nat, k0: word)
    requires 0 < n && x.Has(2 * n) && a.Has(n) && m.Has(n) && r.Has(n) && 0 < Num(m, n)
    requires Apart(x, 2 * n, a, n) && Apart(x, 2 * n, m, n) && Cong(k0 * Num(m, 1) + 1, 0, B)
    requires Apart(r, n, m, n) && Apart(r, n, x, 2 * n)
    modifies r.a, x.a
    ensures Num(r, n) < old(Num(m, n)) && Cong(Num(r, n) * Pow(B, n), old(Num(a, n)), old(Num(m, n)))
    ensures OnlyTwo(r, n, x, 2 * n)
  {
    ghost var v, M := Num(a, n), Num(m, n);
    NumBound(a, n);
    BelowProduct(v, M, Pow(B, n));
    Extend(x, a, n, 2 * n);
    Red(r, x, m, n, k0);
  }
}
