/** Fixed-window exponentiation over almost-Montgomery multiplication. */
module Exp {
  import opened Arith
  import opened Digits
  import opened Bits
  import opened Lanes
  import opened Amm
  import opened Montgomery
  import opened Windows

  /** One modulus: digit array, its digits, digit count, factor and mask width. */
  datatype Context = Context(m: seq<u64>, n: nat, k0: u64, width: nat)
  {
    ghost predicate Valid()
    {
      ExpModulus(m, n, k0) && |m| <= width
    }
  }

  /** Multiplication of representatives: `out` may be an operand. */
  method MontMul(out: array<u64>, a: array<u64>, b: array<u64>, m: array<u64>, c: Context, ghost va: nat, ghost vb: nat)
    requires c.Valid() && m[..] == c.m && out != m && out.Length == m.Length
    requires Rep(a[..], va, c.m, c.n) && Rep(b[..], vb, c.m, c.n)
    modifies out
    ensures Rep(out[..], va * vb, c.m, c.n)
  {
    ghost var mv, av, bv := Val(c.m, W52), Val(a[..], W52), Val(b[..], W52);
    OperandsFit(av, bv, mv, c.n);
    FactorMakesOdd(c.m, c.k0);
    ghost var y := Multiply(out, a, b, m, c.k0, c.n, c.width);
    ProductRepresents(Val(out[..], W52), av, bv, va, vb, mv, c.n, y);
  }

  method MontSqr(out: array<u64>, a: array<u64>, m: array<u64>, c: Context, ghost va: nat)
    requires c.Valid() && m[..] == c.m && out != m && out.Length == m.Length
    requires Rep(a[..], va, c.m, c.n)
    modifies out
    ensures Rep(out[..], va * va, c.m, c.n)
  {
    MontMul(out, a, a, m, c, va, va);
  }

  /** `x` times the domain converter. */
  method Enter(out: array<u64>, x: array<u64>, toMont: array<u64>, m: array<u64>, c: Context)
    requires c.Valid() && m[..] == c.m && out != m && out.Length == m.Length
    requires Entry(x[..], toMont[..], c)
    modifies out
    ensures Rep(out[..], old(Val(x[..], W52)), c.m, c.n)
  {
    ghost var mv, xv, tv := Val(c.m, W52), Val(x[..], W52), Val(toMont[..], W52);
    OperandsFit(xv, tv, mv, c.n);
    FactorMakesOdd(c.m, c.k0);
    ghost var y := Multiply(out, x, toMont, m, c.k0, c.n, c.width);
    EntryRepresents(Val(out[..], W52), xv, tv, mv, c.n, y);
  }

  /** An operand and a domain converter, both below twice the modulus. */
  ghost predicate Entry(x: seq<nat>, toMont: seq<nat>, c: Context)
  {
    && |x| == |toMont| == |c.m| && Bounded(x, W52) && Bounded(toMont, W52)
    && 0 < Val(c.m, W52) && Val(x, W52) < 2 * Val(c.m, W52) && Val(toMont, W52) < 2 * Val(c.m, W52)
    && Cong(Val(toMont, W52), Radix(c.n) * Radix(c.n), Val(c.m, W52))
  }

  /** The digits of one. */
  ghost predicate IsOne(x: seq<nat>)
  {
    |x| > 0 && x[0] == 1 && forall j :: 0 < j < |x| ==> x[j] == 0
  }

  lemma OneValue(x: seq<nat>)
    requires IsOne(x)
    ensures Bounded(x, W52) && Val(x, W52) == 1
  {
    ValZeros(x[1..], W52);
  }

  /** Leaves the domain: the result is at or below the modulus. */
  method Leave(out: array<u64>, a: array<u64>, one: array<u64>, m: array<u64>, c: Context, ghost v: nat)
    requires c.Valid() && m[..] == c.m && out != m && out.Length == m.Length == one.Length
    requires Rep(a[..], v, c.m, c.n) && IsOne(one[..])
    modifies out
    ensures Reduced(out[..], v, c)
  {
    ghost var mv, av := Val(c.m, W52), Val(a[..], W52);
    OneValue(one[..]);
    OperandsFit(av, 1, mv, c.n);
    FactorMakesOdd(c.m, c.k0);
    ghost var y := Multiply(out, a, one, m, c.k0, c.n, c.width);
    ExitReduces(Val(out[..], W52), av, v, mv, c.n, y);
  }

  /** Normalised digits of a number at most the modulus and congruent to `v`. */
  ghost predicate Reduced(x: seq<nat>, v: nat, c: Context)
  {
    && |x| == |c.m| && Bounded(x, W52)
    && 0 < Val(c.m, W52) && Val(x, W52) <= Val(c.m, W52) && Cong(Val(x, W52), v, Val(c.m, W52))
  }

  /** Constant-time table lookup: every row is read, only row `idx` is xored in. */
  method Extract(red: array<u64>, table: seq<array<u64>>, idx: nat)
    requires idx < |table| && red !in table
    requires forall t :: 0 <= t < |table| ==> table[t].Length == red.Length
    modifies red
    ensures red[..] == table[idx][..]
  {
    var acc := new u64[red.Length](_ => 0);
    for t := 0 to |table|
      invariant forall j :: 0 <= j < acc.Length ==> acc[j] == if idx < t then table[idx][j] else 0
    {
      forall j | 0 <= j < acc.Length
        ensures t == idx ==> Xor(acc[j], table[t][j]) == table[idx][j]
      {
        if t == idx {
          XorZero(table[t][j]);
        }
      }
      forall j | 0 <= j < acc.Length {
        acc[j] := if t == idx then Xor(acc[j], table[t][j]) else acc[j];
      }
    }
    forall j | 0 <= j < red.Length { red[j] := acc[j]; }
  }

  const TABLE: nat := 32

  /** A table of separate rows of `len` digits, none of which is the array `other`. */
  ghost predicate Shape(table: seq<array<u64>>, len: nat)
  {
    && |table| == TABLE
    && (forall t :: 0 <= t < TABLE ==> table[t].Length == len)
    && (forall t, u :: 0 <= t < u < TABLE ==> table[t] != table[u])
  }

  /** Rows 0 to `count - 1` hold the powers of `v` in the Montgomery domain. */
  ghost predicate Rows(table: seq<array<u64>>, count: nat, v: nat, c: Context)
    reads table
  {
    count <= |table| && forall t :: 0 <= t < count ==> Rep(table[t][..], Pow(v, t), c.m, c.n)
  }

  /** Looking up a row of the table of powers. */
  method LookUp(red: array<u64>, table: seq<array<u64>>, idx: nat, c: Context, ghost v: nat)
    requires Shape(table, red.Length) && idx < TABLE && Rows(table, TABLE, v, c)
    requires forall t :: 0 <= t < TABLE ==> table[t] != red
    modifies red
    ensures Rep(red[..], Pow(v, idx), c.m, c.n)
  {
    ghost var row := table[idx][..];
    Extract(red, table, idx);
    assert red[..] == row;
  }

  /** Zeroed rows. */
  method NewTable(len: nat) returns (table: seq<array<u64>>)
    ensures Shape(table, len) && forall t :: 0 <= t < TABLE ==> fresh(table[t])
  {
    table := [];
    for t := 0 to TABLE
      invariant |table| == t
      invariant forall i :: 0 <= i < t ==> fresh(table[i]) && table[i].Length == len
      invariant forall i, j :: 0 <= i < j < t ==> table[i] != table[j]
    {
      var row := new u64[len](_ => 0);
      table := table + [row];
    }
  }

  /** Fills the table with base^0, ..., base^31. */
  method BuildTable(table: seq<array<u64>>, base: array<u64>, toMont: array<u64>, one: array<u64>, m: array<u64>, c: Context)
    requires c.Valid() && m[..] == c.m && Shape(table, m.Length)
    requires m !in table && base !in table && toMont !in table && one !in table
    requires Entry(base[..], toMont[..], c) && one.Length == m.Length && IsOne(one[..])
    modifies table
    ensures Rows(table, TABLE, Val(base[..], W52), c)
  {
    ghost var v := Val(base[..], W52);
    OneValue(one[..]);
    Enter(table[0], one, toMont, m, c);
    assert base[..] == old(base[..]) && toMont[..] == old(toMont[..]) && m[..] == c.m;
    ghost var row0 := table[0][..];
    Enter(table[1], base, toMont, m, c);
    assert table[0][..] == row0;
    assert Pow(v, 0) == 1 && Pow(v, 1) == v;
    for idx := 1 to TABLE / 2
      invariant m[..] == c.m && base[..] == old(base[..])
      invariant Rows(table, 2 * idx, v, c)
    {
      Square(table, idx, m, c, v);
      Odd(table, idx, m, c, v);
    }
  }

  method Square(table: seq<array<u64>>, idx: nat, m: array<u64>, c: Context, ghost v: nat)
    requires c.Valid() && m[..] == c.m && Shape(table, m.Length) && m !in table
    requires 1 <= idx < TABLE / 2 && Rows(table, 2 * idx, v, c)
    modifies table[2 * idx]
    ensures Rows(table, 2 * idx + 1, v, c)
  {
    MontSqr(table[2 * idx], table[idx], m, c, Pow(v, idx));
    PowAdd(v, idx, idx);
  }

  method Odd(table: seq<array<u64>>, idx: nat, m: array<u64>, c: Context, ghost v: nat)
    requires c.Valid() && m[..] == c.m && Shape(table, m.Length) && m !in table
    requires 1 <= idx < TABLE / 2 && Rows(table, 2 * idx + 1, v, c)
    modifies table[2 * idx + 1]
    ensures Rows(table, 2 * idx + 2, v, c)
  {
    PowSnoc(v, 0);
    MontMul(table[2 * idx + 1], table[2 * idx], table[1], m, c, Pow(v, 2 * idx), v);
    PowSnoc(v, 2 * idx);
  }

  /** Five squarings: the exponent is shifted left by one window. */
  method SquareFive(Y: array<u64>, m: array<u64>, c: Context, ghost v: nat, ghost e: nat)
    requires c.Valid() && m[..] == c.m && Y != m && Y.Length == m.Length
    requires Rep(Y[..], Pow(v, e), c.m, c.n)
    modifies Y
    ensures Rep(Y[..], Pow(v, 32 * e), c.m, c.n)
  {
    MontSqr(Y, Y, m, c, Pow(v, e));
    PowAdd(v, e, e);
    MontSqr(Y, Y, m, c, Pow(v, 2 * e));
    PowAdd(v, 2 * e, 2 * e);
    MontSqr(Y, Y, m, c, Pow(v, 4 * e));
    PowAdd(v, 4 * e, 4 * e);
    MontSqr(Y, Y, m, c, Pow(v, 8 * e));
    PowAdd(v, 8 * e, 8 * e);
    MontSqr(Y, Y, m, c, Pow(v, 16 * e));
    PowAdd(v, 16 * e, 16 * e);
  }

  /** Copies an exponent and pads it with one zero word. */
  method ExpandExponent(exp: array<u64>) returns (expz: array<u64>)
    ensures fresh(expz) && expz[..] == exp[..] + [0]
    ensures Val(expz[..], W64) == Val(exp[..], W64)
  {
    expz := new u64[exp.Length + 1](_ => 0);
    forall j | 0 <= j < exp.Length { expz[j] := exp[j]; }
    assert expz[..] == exp[..] + [0];
    ValSnoc(exp[..], 0, W64);
  }

  /** Width of the first window: what is left of the exponent after whole 5-bit windows. */
  function FirstWidth(bits: nat): (delta: nat)
    ensures 0 < delta <= WIN && (bits - delta) % WIN == 0
  {
    if bits % WIN != 0 then bits % WIN else WIN
  }

  /** One window after the first: five squarings, a table lookup and a multiplication. */
  method WindowRound(Y: array<u64>, X: array<u64>, table: seq<array<u64>>, expz: array<u64>, m: array<u64>, c: Context,
                     bit: nat, ghost v: nat, ghost e: nat)
    requires c.Valid() && m[..] == c.m && Shape(table, m.Length) && Y.Length == X.Length == m.Length
    requires Y != X && Y != m && X != m && Y !in table && X !in table && Y != expz && X != expz
    requires bit / 64 + 1 < expz.Length && e == Val(expz[..], W64)
    requires Rows(table, TABLE, v, c) && Rep(Y[..], Pow(v, Shr(e, bit + 5)), c.m, c.n)
    modifies Y, X
    ensures Rep(Y[..], Pow(v, Shr(e, bit)), c.m, c.n)
  {
    ghost var ez: seq<u64> := expz[..];
    SquareFive(Y, m, c, v, Shr(e, bit + 5));
    assert expz[..] == ez && m[..] == c.m;
    var idx := Window(expz[..], bit);
    WindowIsBits(ez, bit);
    LookUp(X, table, idx, c, v);
    assert m[..] == c.m;
    MontMul(Y, Y, X, m, c, Pow(v, 32 * Shr(e, bit + 5)), Pow(v, idx));
    WindowStep(e, bit);
    PowAdd(v, 32 * Shr(e, bit + 5), idx);
  }

  /** The buffers of one exponentiation: result, multiplier, table of powers, padded exponent. */
  datatype Buffers = Buffers(Y: array<u64>, X: array<u64>, table: seq<array<u64>>, expz: array<u64>)
  {
    ghost predicate Apart(m: array<u64>)
    {
      && Shape(table, m.Length) && Y.Length == X.Length == m.Length
      && Y != X && m !in {Y, X} && expz !in {Y, X, m}
      && (forall t :: 0 <= t < TABLE ==> table[t] !in {Y, X, m, expz})
    }
  }

  /** Table and exponent hold the powers of `v` and the words `ez`. */
  ghost predicate Ready(b: Buffers, m: array<u64>, c: Context, v: nat, ez: seq<u64>)
    reads b.table, b.expz, m
  {
    m[..] == c.m && b.expz[..] == ez && Rows(b.table, TABLE, v, c)
  }

  /** The first window initialises the result; returns the bit below which the remaining windows lie. */
  method FirstPower(b: Buffers, m: array<u64>, c: Context, bits: nat, ghost v: nat, ghost ez: seq<u64>) returns (bitNo: nat)
    requires b.Apart(m) && Ready(b, m, c, v, ez)
    requires 0 < bits && 64 * |ez| == bits + 64 && ez[|ez| - 1] == 0
    modifies b.Y
    ensures bitNo == bits - FirstWidth(bits)
    ensures Rep(b.Y[..], Pow(v, Shr(Val(ez, W64), bitNo)), c.m, c.n)
  {
    var delta := FirstWidth(bits);
    bitNo := bits - delta;
    ghost var words := |ez| - 1;
    assert bitNo / 64 == words - 1 && bitNo % 64 == 64 - delta;
    assert b.expz[bitNo / 64] == ez[words - 1];
    FirstWindow(ez, words, delta);
    var first := Shr(b.expz[bitNo / 64], bitNo % 64);
    LookUp(b.Y, b.table, first, c, v);
  }

  /** All windows below `start`, five bits at a time. */
  method OtherWindows(b: Buffers, m: array<u64>, c: Context, start: nat, ghost v: nat, ghost ez: seq<u64>)
    requires c.Valid() && b.Apart(m) && Ready(b, m, c, v, ez)
    requires start % WIN == 0 && start <= 64 * (|ez| - 1)
    requires Rep(b.Y[..], Pow(v, Shr(Val(ez, W64), start)), c.m, c.n)
    modifies b.Y, b.X
    ensures Rep(b.Y[..], Pow(v, Val(ez, W64)), c.m, c.n)
  {
    var bitNo: int := start - WIN;
    ghost var left: nat := start / WIN;
    while bitNo >= 0
      invariant bitNo + WIN == WIN * left <= start
      invariant Ready(b, m, c, v, ez)
      invariant Rep(b.Y[..], Pow(v, Shr(Val(ez, W64), bitNo + WIN)), c.m, c.n)
    {
      WindowRound(b.Y, b.X, b.table, b.expz, m, c, bitNo, v, Val(ez, W64));
      bitNo := bitNo - WIN;
      left := left - 1;
    }
    assert left == 0;
  }

  /** Allocates the buffers, fills the table and pads the exponent. */
  method Prepare(base: array<u64>, exp: array<u64>, m: array<u64>, toMont: array<u64>, c: Context) returns (b: Buffers)
    requires c.Valid() && m[..] == c.m && Entry(base[..], toMont[..], c)
    ensures fresh(b.Y) && fresh(b.X) && fresh(b.expz) && (forall t :: 0 <= t < |b.table| ==> fresh(b.table[t]))
    ensures b.Apart(m) && Ready(b, m, c, Val(base[..], W52), exp[..] + [0])
    ensures Val(exp[..] + [0], W64) == Val(exp[..], W64)
  {
    var Y := new u64[m.Length](_ => 0);
    var X := new u64[m.Length](_ => 0);
    X[0] := 1;
    var table := NewTable(m.Length);
    BuildTable(table, base, toMont, X, m, c);
    var expz := ExpandExponent(exp);
    b := Buffers(Y, X, table, expz);
    assert m[..] == old(m[..]) && exp[..] == old(exp[..]) && base[..] == old(base[..]);
  }

  /**
   * base^exp modulo the modulus for a `bits`-bit exponent.
   * `out` may be the same array as `base` or `toMont`.
   */
  method Exponentiate(out: array<u64>, base: array<u64>, exp: array<u64>, m: array<u64>, toMont: array<u64>, c: Context, bits: nat)
    requires c.Valid() && m[..] == c.m && out != m && out.Length == m.Length
    requires Entry(base[..], toMont[..], c) && 0 < bits == 64 * exp.Length
    modifies out
    ensures Reduced(out[..], Pow(old(Val(base[..], W52)), old(Val(exp[..], W64))), c)
  {
    ghost var v, ez: seq<u64> := Val(base[..], W52), exp[..] + [0];
    var b := Prepare(base, exp, m, toMont, c);
    var start := FirstPower(b, m, c, bits, v, ez);
    OtherWindows(b, m, c, start, v, ez);
    SetOne(b.X);
    Leave(out, b.Y, b.X, m, c, Pow(v, Val(ez, W64)));
  }

  method SetOne(X: array<u64>)
    requires X.Length > 0
    modifies X
    ensures IsOne(X[..])
  {
    forall j | 0 <= j < X.Length { X[j] := 0; }
    X[0] := 1;
  }
}
