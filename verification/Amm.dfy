/** Almost-Montgomery multiplication in radix 2^52 with redundant vector lanes. */
module Amm {
  import opened Arith
  import opened Digits
  import opened Bits
  import opened Lanes

  /** What the accumulator stands for: lane 0 is stale, the scalar `acc0` replaces it. */
  ghost function AccVal(acc0: nat, r: seq<nat>, base: nat): nat
    requires |r| > 0
  {
    acc0 + base * Val(r[1..], base)
  }

  /** The new lane j after one round: shifted low parts plus unshifted high parts. */
  ghost predicate RoundLanes(r: seq<nat>, r': seq<nat>, a: seq<nat>, m: seq<nat>, b: nat, y: nat, base: nat)
    requires base > 0
  {
    && |r| == |r'| == |a| == |m|
    && forall j {:trigger r'[j]} :: 0 <= j < |r| ==>
      r'[j] == LowPart(r, a, m, b, y, j + 1, base) + (b * a[j]) / base + (y * m[j]) / base
  }

  /** Lane j once the low parts have been added; the lane shifted in above the top is zero. */
  ghost function LowPart(r: seq<nat>, a: seq<nat>, m: seq<nat>, b: nat, y: nat, j: nat, base: nat): nat
    requires |r| == |a| == |m| && base > 0
  {
    if j < |r| then r[j] + (b * a[j]) % base + (y * m[j]) % base else 0
  }

  lemma {:induction false} RoundSuffix(r: seq<nat>, r': seq<nat>, a: seq<nat>, m: seq<nat>, b: nat, y: nat, j: nat, base: nat)
    requires base > 0 && RoundLanes(r, r', a, m, b, y, base) && j <= |r|
    ensures Val(r[j..], base) + b * Val(a[j..], base) + y * Val(m[j..], base)
         == LowPart(r, a, m, b, y, j, base) + base * Val(r'[j..], base)
    decreases |r| - j
  {
    if j < |r| {
      RoundSuffix(r, r', a, m, b, y, j + 1, base);
      assert r[j..][1..] == r[j + 1..] && a[j..][1..] == a[j + 1..];
      assert m[j..][1..] == m[j + 1..] && r'[j..][1..] == r'[j + 1..];
      RoundDigit(r[j], a[j], m[j], b, y, Val(r[j + 1..], base), Val(a[j + 1..], base), Val(m[j + 1..], base),
                 LowPart(r, a, m, b, y, j + 1, base), Val(r'[j + 1..], base), base);
    }
  }

  lemma RoundDigit(rj: nat, aj: nat, mj: nat, b: nat, y: nat, vr: nat, va: nat, vm: nat, low: nat, vr': nat, base: nat)
    requires base > 0 && vr + b * va + y * vm == low + base * vr'
    ensures (rj + base * vr) + b * (aj + base * va) + y * (mj + base * vm)
         == (rj + (b * aj) % base + (y * mj) % base)
            + base * ((low + (b * aj) / base + (y * mj) / base) + base * vr')
  {
    var h, g := (b * aj) / base, (y * mj) / base;
    SplitProduct(b, aj, va, base);
    SplitProduct(y, mj, vm, base);
    Distribute(base, vr, b * va, y * vm, 0);
    Distribute(base, low, h, g, base * vr');
    Distribute(base, low, base * vr', 0, 0);
  }

  lemma SplitProduct(b: nat, aj: nat, va: nat, base: nat)
    requires base > 0
    ensures b * (aj + base * va) == (b * aj) % base + base * ((b * aj) / base) + base * (b * va)
  {
    assert b * (base * va) == base * (b * va) by { Assoc(b, base, va); Assoc(base, b, va); }
  }

  lemma Distribute(z: int, a: int, b: int, c: int, d: int)
    ensures z * (a + b + c + d) == z * a + z * b + z * c + z * d
  {
  }

  /** One round multiplies the accumulator's weight by the base and adds `b * a + y * m`. */
  lemma RoundValue(r: seq<nat>, r': seq<nat>, a: seq<nat>, m: seq<nat>, b: nat, y: nat,
                   acc0: nat, shr: nat, acc0': nat, base: nat)
    requires base > 0 && RoundLanes(r, r', a, m, b, y, base) && |r| > 0
    requires acc0 + b * a[0] + y * m[0] == base * shr
    requires acc0' == shr + LowPart(r, a, m, b, y, 1, base)
    ensures base * AccVal(acc0', r', base)
         == AccVal(acc0, r, base) + b * Val(a, base) + y * Val(m, base)
  {
    RoundSuffix(r, r', a, m, b, y, 1, base);
    RoundTotal(Val(r[1..], base), Val(a[1..], base), Val(m[1..], base), Val(r'[1..], base), a[0], m[0], b, y,
               acc0, shr, LowPart(r, a, m, b, y, 1, base), base);
  }

  lemma RoundTotal(vr: nat, va: nat, vm: nat, vr': nat, a0: nat, m0: nat, b: nat, y: nat,
                   acc0: nat, shr: nat, low: nat, base: nat)
    requires vr + b * va + y * vm == low + base * vr'
    requires acc0 + b * a0 + y * m0 == base * shr
    ensures base * (shr + low + base * vr') == acc0 + base * vr + b * (a0 + base * va) + y * (m0 + base * vm)
  {
    Distribute(base, vr, b * va, y * vm, 0);
    Distribute(base, shr, low, base * vr', 0);
    Distribute(base, low, base * vr', 0, 0);
    assert b * (a0 + base * va) == b * a0 + base * (b * va) by { Assoc(b, base, va); Assoc(base, b, va); }
    assert y * (m0 + base * vm) == y * m0 + base * (y * vm) by { Assoc(y, base, vm); Assoc(base, y, vm); }
  }

  /** `ADD104`: adds (ih:il) to (rh:rl), detecting the carry by comparing the wrapped low word. */
  function Add104(rh: u64, rl: u64, ih: u64, il: u64): (u64, u64)
  {
    var rl' := (rl + il) % W64;
    var rh' := (rh + ih) % W64;
    ((rh' + if rl' < il then 1 else 0) % W64, rl')
  }

  lemma Add104Exact(rh: u64, rl: u64, ih: u64, il: u64)
    requires rh + ih + 1 < W64
    ensures Add104(rh, rl, ih, il).0 * W64 + Add104(rh, rl, ih, il).1 == (rh + ih) * W64 + rl + il
  {
  }

  /** `SHRD52`: the double word shifted right by 52 bits, truncated to 64. */
  function Shrd52(rh: u64, rl: u64): nat
  {
    Or(rl / W52, (rh * 0x1000) % W64)
  }

  lemma Shrd52Exact(rh: u64, rl: u64)
    requires rh < W52
    ensures Shrd52(rh, rl) == (rh * W64 + rl) / W52
  {
    assert (rh * 0x1000) % W64 == rh * 0x1000;
    OrTwelve(rl / W52, rh);
    DivModUnique(rh * W64 + rl, W52, rh * 0x1000 + rl / W52, rl % W52);
  }

  lemma OrTwelve(x: nat, h: nat)
    requires x < 0x1000
    ensures Or(x, h * 0x1000) == x + h * 0x1000
  {
    assert Pow(2, 12) == 0x1000;
    DisjointAdd(x, h, 12);
  }

  /** The reduction digit makes the low digit of the accumulator vanish. */
  lemma QuotientDigit(total: nat, rl: nat, k0: nat, m0: nat, base: nat, word: nat, f: nat)
    requires base > 1 && word == base * f && f > 0
    requires rl == total % word && Cong(k0 * m0 + 1, 0, base)
    ensures (total + (((rl * k0) % word) % base) * m0) % base == 0
  {
    var y := ((rl * k0) % word) % base;
    ModOfMultiple(rl * k0, base, f);
    ModOfMultiple(total, base, f);
    CongMod((rl * k0) % word, base);
    QuotientCong(total, rl, y, k0, m0, base);
    CongIsMod(total + y * m0, 0, base);
    DivModUnique(0, base, 0, 0);
  }

  lemma QuotientCong(total: int, rl: int, y: int, k0: int, m0: int, base: nat)
    requires base > 1 && Cong(rl, total, base) && Cong(y, rl * k0, base) && Cong(k0 * m0 + 1, 0, base)
    ensures Cong(total + y * m0, 0, base)
  {
    CongMul(rl, total, k0, base);
    CongMul(y, total * k0, m0, base);
    Assoc(total, k0, m0);
    CancelsOut(total, k0 * m0, y * m0, base);
  }

  lemma CancelsOut(total: int, z: int, x: int, base: nat)
    requires base > 1 && Cong(z + 1, 0, base) && Cong(x, total * z, base)
    ensures Cong(total + x, 0, base)
  {
    CongMul(z + 1, 0, total, base);
    assert total * (z + 1) == total * z + total;
    CongAdd(total, total, x, total * z, base);
  }

  lemma ModOfMultiple(x: nat, base: nat, f: nat)
    requires base > 0 && f > 0
    ensures base * f > 0 && Cong(x % (base * f), x, base)
  {
    var q := x / (base * f);
    assert x == q * (base * f) + x % (base * f);
    assert q * (base * f) == (q * f) * base;
    CongIntro(x, x % (base * f), q * f, base);
  }

  lemma ProductBound(x: nat, y: nat, n: nat)
    requires x < n && y < n
    ensures x * y <= (n - 1) * (n - 1)
  {
    MulMono(x, n - 1, y);
    MulMono(y, n - 1, n - 1);
  }

  /** `_mulx_u64`: the high and low words of a product. */
  function Mulx(x: u64, y: u64): (r: (u64, u64))
    ensures r.0 * W64 + r.1 == x * y
  {
    ProductBound(x, y, W64);
    assert x * y == ((x * y) / W64) * W64 + (x * y) % W64;
    MulCancelLt((x * y) / W64, W64, W64);
    ((x * y) / W64, (x * y) % W64)
  }

  lemma MulxSmall(x: u64, y: u64)
    requires x < W52 && y < W52
    ensures Mulx(x, y).0 < 0x100_0000_0000
  {
    ProductBound(x, y, W52);
  }

  /** The scalar half of a round: the reduction digit and the carried low accumulator. */
  method LowDigit(acc0: u64, a0: u64, bi: u64, m0: u64, k0: u64) returns (yi: u64, shr: u64)
    requires a0 < W52 && bi < W52 && m0 < W52
    requires Cong(k0 * m0 + 1, 0, W52)
    ensures yi < W52
    ensures acc0 + a0 * bi + m0 * yi == W52 * shr
    ensures shr <= 2 * W52 + 0x1000
  {
    var (t2, t0) := Mulx(a0, bi);
    MulxSmall(a0, bi);
    var (h, l) := Add104(t2, acc0, 0, t0);
    Add104Exact(t2, acc0, 0, t0);
    yi := ((l * k0) % W64) % W52;
    ghost var total := h * W64 + l;
    DivModUnique(total, W64, h, l);
    QuotientDigit(total, l, k0, m0, W52, W64, 0x1000);

    var (t1, u0) := Mulx(m0, yi);
    MulxSmall(m0, yi);
    var (h', l') := Add104(h, l, t1, u0);
    Add104Exact(h, l, t1, u0);
    ghost var sum := h' * W64 + l';
    assert sum == total + yi * m0;
    Shrd52Exact(h', l');
    ExactQuotient(sum, W52);
    shr := Shrd52(h', l');
    assert shr == sum / W52;
  }

  lemma ExactQuotient(x: nat, d: nat)
    requires d > 0 && x % d == 0
    ensures x == d * (x / d)
  {
  }

  lemma MaddExact(r: u64, b: u64, c: u64)
    requires r + W52 <= W64 && b < W52 && c < W52
    ensures (b * c) / W52 < W52
    ensures Madd52Lo(r, b, c) == r + (b * c) % W52
    ensures Madd52Hi(r, b, c) == r + (b * c) / W52
  {
    ProductBound(b, c, W52);
    assert b % W52 == b && c % W52 == c;
  }

  /** Adds the low halves of `b * a` to every lane. */
  method AddLow(R: array<u64>, b: u64, a: array<u64>, ghost lim: nat)
    requires R != a && R.Length == a.Length && b < W52 && Bounded(a[..], W52) && lim + W52 <= W64
    requires forall j :: 0 <= j < R.Length ==> R[j] <= lim
    modifies R
    ensures forall j :: 0 <= j < R.Length ==> R[j] == old(R[j]) + (b * a[j]) % W52 <= lim + W52
  {
    forall j | 0 <= j < R.Length
      ensures Madd52Lo(R[j], b, a[j]) == R[j] + (b * a[j]) % W52
    {
      assert a[j] == a[..][j];
      MaddExact(R[j], b, a[j]);
    }
    forall j | 0 <= j < R.Length { R[j] := Madd52Lo(R[j], b, a[j]); }
  }

  /** Adds the high halves of `b * a` to every lane. */
  method AddHigh(R: array<u64>, b: u64, a: array<u64>, ghost lim: nat)
    requires R != a && R.Length == a.Length && b < W52 && Bounded(a[..], W52) && lim + W52 <= W64
    requires forall j :: 0 <= j < R.Length ==> R[j] <= lim
    modifies R
    ensures forall j :: 0 <= j < R.Length ==> R[j] == old(R[j]) + (b * a[j]) / W52 <= lim + W52
  {
    forall j | 0 <= j < R.Length
      ensures Madd52Hi(R[j], b, a[j]) == R[j] + (b * a[j]) / W52 <= R[j] + W52
    {
      assert a[j] == a[..][j];
      MaddExact(R[j], b, a[j]);
    }
    forall j | 0 <= j < R.Length { R[j] := Madd52Hi(R[j], b, a[j]); }
  }

  /** The vector half of a round: low parts, one-lane shift, high parts. Returns lane 0 as it was after the shift. */
  method VectorRound(R: array<u64>, a: array<u64>, m: array<u64>, bi: u64, yi: u64, ghost lim: nat)
    returns (t0: u64)
    requires 0 < R.Length == a.Length == m.Length && R != a && R != m
    requires Bounded(a[..], W52) && Bounded(m[..], W52) && bi < W52 && yi < W52
    requires lim + 4 * W52 <= W64
    requires forall j :: 0 <= j < R.Length ==> R[j] <= lim
    modifies R
    ensures forall j :: 0 <= j < R.Length ==> R[j] <= lim + 4 * W52
    ensures RoundLanes(old(R[..]), R[..], a[..], m[..], bi, yi, W52)
    ensures t0 == LowPart(old(R[..]), a[..], m[..], bi, yi, 1, W52) <= lim + 2 * W52
  {
    var n := R.Length;
    ghost var r: seq<nat> := R[..];
    AddLow(R, bi, a, lim);
    AddLow(R, yi, m, lim + W52);
    forall j | 0 <= j < n
      ensures R[j] == LowPart(r, a[..], m[..], bi, yi, j, W52)
    {
    }
    forall j | 0 <= j < n { R[j] := if j + 1 < n then R[j + 1] else 0; }
    ghost var low: seq<nat> := R[..];
    t0 := R[0];
    AddHigh(R, bi, a, lim + 2 * W52);
    AddHigh(R, yi, m, lim + 3 * W52);
    forall j | 0 <= j < n
      ensures R[j] == LowPart(r, a[..], m[..], bi, yi, j + 1, W52) + (bi * a[j]) / W52 + (yi * m[j]) / W52
    {
      assert R[j] == low[j] + (bi * a[j]) / W52 + (yi * m[j]) / W52;
    }
  }

  /** One iteration of the multiplication loop; no lane and no scalar exceeds 64 bits. */
  method Round(R: array<u64>, acc0: u64, a: array<u64>, m: array<u64>, bi: u64, k0: u64, ghost lim: nat)
    returns (acc0': u64, ghost y: nat)
    requires 0 < R.Length == a.Length == m.Length && R != a && R != m
    requires Bounded(a[..], W52) && Bounded(m[..], W52) && bi < W52
    requires Cong(k0 * m[0] + 1, 0, W52)
    requires lim + 4 * W52 + 0x1000 < W64
    requires forall j :: 0 <= j < R.Length ==> R[j] <= lim
    modifies R
    ensures y < W52
    ensures forall j :: 0 <= j < R.Length ==> R[j] <= lim + 4 * W52
    ensures W52 * AccVal(acc0', R[..], W52)
         == old(AccVal(acc0, R[..], W52)) + bi * Val(a[..], W52) + y * Val(m[..], W52)
  {
    assert a[0] == a[..][0] && m[0] == m[..][0];
    var yi, shr := LowDigit(acc0, a[0], bi, m[0], k0);
    y := yi;
    ghost var r: seq<nat> := R[..];
    var t0 := VectorRound(R, a, m, bi, yi, lim);
    acc0' := shr + t0;
    RoundValue(r, R[..], a[..], m[..], bi, y, acc0, shr, acc0', W52);
  }

  /** What the multiplication needs of its modulus, digit count and factor; every shipped size satisfies it. */
  ghost predicate Modulus(m: seq<nat>, n: nat, k0: nat)
  {
    && 0 < n <= |m| && n <= 1023
    && Bounded(m, W52) && Val(m, W52) > 0
    && 2 * Val(m, W52) <= Pow(W52, n)
    && Cong(k0 * m[0] + 1, 0, W52)
  }

  /** `r` is an almost-Montgomery product: `a * b` made divisible by adding `y` multiples of the modulus. */
  ghost predicate AlmostProduct(r: nat, ab: nat, m: nat, n: nat, y: nat)
  {
    r * Pow(W52, n) == ab + m * y && y < Pow(W52, n)
  }

  /** The arithmetic of one more multiplier digit. */
  lemma AccStep(p: nat, acc: nat, acc': nat, a: nat, bs: nat, b: nat, m: nat, ys: nat, y: nat, base: nat)
    requires base > 0 && y < base && ys < p
    requires p * acc == a * bs + m * ys
    requires base * acc' == acc + b * a + y * m
    ensures (base * p) * acc' == a * (bs + p * b) + m * (ys + p * y)
    ensures ys + p * y < base * p
  {
    assert (base * p) * acc' == p * (base * acc') by { Assoc(p, base, acc'); }
    assert p * (acc + b * a + y * m) == p * acc + p * (b * a) + p * (y * m) by { Distribute(p, acc, b * a, y * m, 0); }
    assert p * (b * a) == a * (p * b) by { Assoc(p, b, a); }
    assert p * (y * m) == m * (p * y) by { Assoc(p, y, m); }
    Distribute(a, bs, p * b, 0, 0);
    Distribute(m, ys, p * y, 0, 0);
    MulMono(y, base - 1, p);
  }

  /** The product before normalisation is below twice the modulus. */
  lemma AlmostBound(r: nat, ab: nat, m: nat, n: nat, y: nat)
    requires m > 0 && AlmostProduct(r, ab, m, n, y) && ab < m * Pow(W52, n)
    ensures r < 2 * m
  {
    var p := Pow(W52, n);
    MulMono(y, p - 1, m);
    assert r * p < (2 * m) * p;
    MulCancelLt(r, 2 * m, p);
  }

  /** Loop invariant: the accumulator times its weight is `a * (b's low digits) + m * y`. */
  ghost predicate Progress(i: nat, acc: nat, a: nat, low: nat, m: nat, y: nat)
  {
    y < Pow(W52, i) && Pow(W52, i) * acc == a * low + m * y
  }

  lemma ProgressStep(i: nat, acc: nat, acc': nat, a: nat, low: nat, bi: nat, m: nat, ys: nat, y: nat)
    requires Progress(i, acc, a, low, m, ys) && y < W52
    requires W52 * acc' == acc + bi * a + y * m
    ensures Progress(i + 1, acc', a, low + Pow(W52, i) * bi, m, ys + Pow(W52, i) * y)
  {
    AccStep(Pow(W52, i), acc, acc', a, low, bi, m, ys, y, W52);
  }

  lemma ZeroAcc(r: seq<nat>, a: nat, m: nat)
    requires |r| > 0 && forall j :: 0 <= j < |r| ==> r[j] == 0
    ensures Progress(0, AccVal(0, r, W52), a, 0, m, 0)
  {
    ValZeros(r[1..], W52);
  }

  /** The lanes of one accumulation after `i` rounds over the digits `x`. */
  ghost predicate Running(i: nat, n: nat, R: array<u64>, acc0: u64, k0: u64, x: Inputs, y: nat)
    reads R
  {
    && Operands(x.a, x.b, x.m, k0, n) && i <= n && R.Length == |x.a|
    && (forall j :: 0 <= j < R.Length ==> R[j] <= 4 * W52 * i)
    && Progress(i, AccVal(acc0, R[..], W52), Val(x.a, W52), Val(x.b[..i], W52), Val(x.m, W52), y)
  }

  /** Arrays `a`, `b`, `m` hold the digits `x`. */
  ghost predicate Hold(a: array<u64>, b: array<u64>, m: array<u64>, x: Inputs)
    reads a, b, m
  {
    a[..] == x.a && b[..] == x.b && m[..] == x.m
  }

  /** The operand digits of one multiplication. */
  datatype Inputs = Inputs(a: seq<u64>, b: seq<u64>, m: seq<u64>)

  /** The factor condition and operand shapes of one multiplication. */
  ghost predicate Operands(a: seq<nat>, b: seq<nat>, m: seq<nat>, k0: nat, n: nat)
  {
    && Modulus(m, n, k0)
    && |a| == |m| && n <= |b|
    && Bounded(a, W52) && Bounded(b, W52) && Val(b, W52) < Pow(W52, n)
  }

  method Start(a: array<u64>, b: array<u64>, m: array<u64>, k0: u64, n: nat) returns (R: array<u64>)
    requires Operands(a[..], b[..], m[..], k0, n)
    ensures fresh(R) && R.Length == a.Length
    ensures Running(0, n, R, 0, k0, Inputs(a[..], b[..], m[..]), 0)
  {
    R := new u64[a.Length](_ => 0);
    ZeroAcc(R[..], Val(a[..], W52), Val(m[..], W52));
    assert b[..][..0] == [];
  }

  /** Round `i` of the loop. */
  method Step(R: array<u64>, acc0: u64, a: array<u64>, b: array<u64>, m: array<u64>, k0: u64, i: nat, n: nat,
              ghost x: Inputs, ghost y: nat)
    returns (acc0': u64, ghost y': nat)
    requires i < n && R !in {a, b, m} && Hold(a, b, m, x) && Running(i, n, R, acc0, k0, x, y)
    modifies R
    ensures Running(i + 1, n, R, acc0', k0, x, y')
  {
    ghost var acc := AccVal(acc0, R[..], W52);
    ghost var yi;
    assert b[i] == x.b[i] && m[0] == x.m[0];
    acc0', yi := Round(R, acc0, a, m, b[i], k0, 4 * W52 * i);
    assert a[..] == x.a && b[..] == x.b && m[..] == x.m;
    ProgressStep(i, acc, AccVal(acc0', R[..], W52), Val(x.a, W52), Val(x.b[..i], W52), x.b[i], Val(x.m, W52), y, yi);
    ValPrefix(x.b, i, W52);
    y' := y + Pow(W52, i) * yi;
  }

  /** Blends the scalar accumulator into lane 0: the lanes now stand for the whole product. */
  method Finish(R: array<u64>, acc0: u64, ghost k0: u64, ghost n: nat, ghost x: Inputs, ghost y: nat)
    requires Running(n, n, R, acc0, k0, x, y)
    modifies R
    ensures AlmostProduct(Val(R[..], W52), Val(x.a, W52) * Val(x.b, W52), Val(x.m, W52), n, y)
  {
    ValHighZero(x.b, n, W52);
    ProgressDone(n, AccVal(acc0, R[..], W52), Val(x.a, W52), Val(x.b, W52), Val(x.m, W52), y);
    ghost var r: seq<nat> := R[..];
    R[0] := acc0;
    BlendLane(acc0, r, R[..]);
  }

  lemma ProgressDone(n: nat, acc: nat, a: nat, b: nat, m: nat, y: nat)
    requires Progress(n, acc, a, b, m, y)
    ensures AlmostProduct(acc, a * b, m, n, y)
  {
  }

  /** Blending the scalar accumulator into lane 0 makes the vector stand for the accumulator. */
  lemma BlendLane(acc0: nat, r: seq<nat>, r': seq<nat>)
    requires |r| == |r'| > 0 && r'[0] == acc0
    requires forall j :: 0 < j < |r| ==> r'[j] == r[j]
    ensures Val(r', W52) == AccVal(acc0, r, W52)
  {
    assert r'[1..] == r[1..];
  }

  /** Normalised digits of an almost-Montgomery product below twice the modulus. */
  ghost predicate Product(out: seq<nat>, ab: nat, m: seq<nat>, n: nat, y: nat)
  {
    && |out| == |m| && Bounded(out, W52) && Val(out, W52) < 2 * Val(m, W52)
    && AlmostProduct(Val(out, W52), ab, Val(m, W52), n, y)
  }

  /** Blend, normalise and store. */
  method FinishInto(out: array<u64>, R: array<u64>, acc0: u64, width: nat,
                    ghost k0: u64, ghost n: nat, ghost x: Inputs, ghost y: nat)
    requires Running(n, n, R, acc0, k0, x, y)
    requires out != R && out.Length == R.Length <= width
    requires Val(x.a, W52) * Val(x.b, W52) < Val(x.m, W52) * Pow(W52, n)
    modifies R, out
    ensures Product(out[..], Val(x.a, W52) * Val(x.b, W52), x.m, n, y)
  {
    Finish(R, acc0, k0, n, x, y);
    FitsDigits(Val(R[..], W52), Val(x.a, W52) * Val(x.b, W52), Val(x.m, W52), n, y, R.Length);
    NormalizeInto(out, R, width);
  }

  /**
   * The n-digit almost-Montgomery multiplication. `out` may be the same array as `a` or `b`.
   * `width` is the width of the carry-mask registers.
   */
  method Multiply(out: array<u64>, a: array<u64>, b: array<u64>, m: array<u64>, k0: u64, n: nat, width: nat)
    returns (ghost y: nat)
    requires Operands(a[..], b[..], m[..], k0, n)
    requires out != m && out.Length == a.Length <= width
    requires Val(a[..], W52) * Val(b[..], W52) < Val(m[..], W52) * Pow(W52, n)
    modifies out
    ensures Product(out[..], old(Val(a[..], W52) * Val(b[..], W52)), m[..], n, y)
  {
    ghost var x := Inputs(a[..], b[..], m[..]);
    var acc0: u64 := 0;
    var R := Start(a, b, m, k0, n);
    y := 0;
    for i := 0 to n
      invariant Hold(a, b, m, x) && Running(i, n, R, acc0, k0, x, y)
    {
      acc0, y := Step(R, acc0, a, b, m, k0, i, n, x, y);
    }
    FinishInto(out, R, acc0, width, k0, n, x, y);
    assert m[..] == x.m;
  }

  /** Normalises the lanes and stores them. */
  method NormalizeInto(out: array<u64>, R: array<u64>, width: nat)
    requires out != R && 0 < R.Length == out.Length <= width
    requires Val(R[..], W52) < Pow(W52, R.Length)
    modifies R, out
    ensures Bounded(out[..], W52) && Val(out[..], W52) == old(Val(R[..], W52))
  {
    Normalize(R, width);
    ghost var r := R[..];
    forall j | 0 <= j < R.Length { out[j] := R[j]; }
    assert out[..] == r;
  }

  /** The redundant result still fits the lanes, so normalisation loses nothing. */
  lemma FitsDigits(r: nat, ab: nat, m: nat, n: nat, y: nat, lanes: nat)
    requires n <= lanes && m > 0 && 2 * m <= Pow(W52, n)
    requires AlmostProduct(r, ab, m, n, y) && ab < m * Pow(W52, n)
    ensures r < 2 * m && r < Pow(W52, lanes)
  {
    AlmostBound(r, ab, m, n, y);
    PowMono(W52, n, lanes);
  }

  /**
   * Two independent multiplications interleaved in one loop. Each output may be an input of its own multiplication.
   */
  method MultiplyDual(out0: array<u64>, a0: array<u64>, b0: array<u64>, m0: array<u64>, k0: u64,
                      out1: array<u64>, a1: array<u64>, b1: array<u64>, m1: array<u64>, k1: u64, n: nat, width: nat)
    returns (ghost y0: nat, ghost y1: nat)
    requires Operands(a0[..], b0[..], m0[..], k0, n) && Operands(a1[..], b1[..], m1[..], k1, n)
    requires out0.Length == a0.Length <= width && out1.Length == a1.Length <= width
    requires out0 != out1 && out0 !in {m0, m1} && out1 !in {m0, m1}
    requires Val(a0[..], W52) * Val(b0[..], W52) < Val(m0[..], W52) * Pow(W52, n)
    requires Val(a1[..], W52) * Val(b1[..], W52) < Val(m1[..], W52) * Pow(W52, n)
    modifies out0, out1
    ensures Product(out0[..], old(Val(a0[..], W52) * Val(b0[..], W52)), m0[..], n, y0)
    ensures Product(out1[..], old(Val(a1[..], W52) * Val(b1[..], W52)), m1[..], n, y1)
  {
    ghost var x0, x1 := Inputs(a0[..], b0[..], m0[..]), Inputs(a1[..], b1[..], m1[..]);
    var acc0: u64, acc1: u64 := 0, 0;
    var R0 := Start(a0, b0, m0, k0, n);
    var R1 := Start(a1, b1, m1, k1, n);
    y0, y1 := 0, 0;
    for i := 0 to n
      invariant Hold(a0, b0, m0, x0) && Running(i, n, R0, acc0, k0, x0, y0)
      invariant Hold(a1, b1, m1, x1) && Running(i, n, R1, acc1, k1, x1, y1)
    {
      acc0, y0 := Step(R0, acc0, a0, b0, m0, k0, i, n, x0, y0);
      acc1, y1 := Step(R1, acc1, a1, b1, m1, k1, i, n, x1, y1);
    }
    FinishInto(out0, R0, acc0, width, k0, n, x0, y0);
    ghost var r0 := out0[..];
    FinishInto(out1, R1, acc1, width, k1, n, x1, y1);
    assert out0[..] == r0 && m0[..] == x0.m && m1[..] == x1.m;
  }
}
