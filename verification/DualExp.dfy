/** Two exponentiations interleaved: the same windows, squarings and products on two independent halves. */
module DualExp {
  import opened Arith
  import opened Digits
  import opened Lanes
  import opened Amm
  import opened Montgomery
  import opened Windows
  import opened Exp

  /** The two halves of a dual operand. */
  datatype Pair<T> = Pair(l: T, r: T)

  ghost predicate Contexts(c: Pair<Context>)
  {
    c.l.Valid() && c.r.Valid() && c.l.n == c.r.n && c.l.width == c.r.width
  }

  /** The moduli arrays hold the moduli, and the outputs are separate from them and from each other. */
  ghost predicate Targets(out: Pair<array<u64>>, m: Pair<array<u64>>, c: Pair<Context>)
    reads m.l, m.r
  {
    && Contexts(c) && m.l[..] == c.l.m && m.r[..] == c.r.m
    && out.l.Length == m.l.Length && out.r.Length == m.r.Length
    && out.l != out.r && out.l !in {m.l, m.r} && out.r !in {m.l, m.r}
  }

  method MontMulDual(out: Pair<array<u64>>, a: Pair<array<u64>>, b: Pair<array<u64>>, m: Pair<array<u64>>, c: Pair<Context>,
                     ghost va: Pair<nat>, ghost vb: Pair<nat>)
    requires Targets(out, m, c)
    requires Rep(a.l[..], va.l, c.l.m, c.l.n) && Rep(b.l[..], vb.l, c.l.m, c.l.n)
    requires Rep(a.r[..], va.r, c.r.m, c.r.n) && Rep(b.r[..], vb.r, c.r.m, c.r.n)
    modifies out.l, out.r
    ensures Targets(out, m, c)
    ensures Rep(out.l[..], va.l * vb.l, c.l.m, c.l.n)
    ensures Rep(out.r[..], va.r * vb.r, c.r.m, c.r.n)
  {
    ghost var al, bl := Val(a.l[..], W52), Val(b.l[..], W52);
    ghost var ar, br := Val(a.r[..], W52), Val(b.r[..], W52);
    OperandsFit(al, bl, Val(c.l.m, W52), c.l.n);
    OperandsFit(ar, br, Val(c.r.m, W52), c.r.n);
    ghost var yl, yr := MultiplyDual(out.l, a.l, b.l, m.l, c.l.k0, out.r, a.r, b.r, m.r, c.r.k0, c.l.n, c.l.width);
    assert m.l[..] == c.l.m && m.r[..] == c.r.m;
    ProductIsRep(out.l[..], al, bl, va.l, vb.l, c.l, yl);
    ProductIsRep(out.r[..], ar, br, va.r, vb.r, c.r, yr);
  }

  lemma ProductIsRep(out: seq<nat>, a: nat, b: nat, va: nat, vb: nat, c: Context, y: nat)
    requires c.Valid() && Product(out, a * b, c.m, c.n, y)
    requires Represents(a, va, Val(c.m, W52), c.n) && Represents(b, vb, Val(c.m, W52), c.n)
    ensures Rep(out, va * vb, c.m, c.n)
  {
    FactorMakesOdd(c.m, c.k0);
    ProductRepresents(Val(out, W52), a, b, va, vb, Val(c.m, W52), c.n, y);
  }

  method MontSqrDual(out: Pair<array<u64>>, a: Pair<array<u64>>, m: Pair<array<u64>>, c: Pair<Context>, ghost va: Pair<nat>)
    requires Targets(out, m, c)
    requires Rep(a.l[..], va.l, c.l.m, c.l.n) && Rep(a.r[..], va.r, c.r.m, c.r.n)
    modifies out.l, out.r
    ensures Targets(out, m, c)
    ensures Rep(out.l[..], va.l * va.l, c.l.m, c.l.n)
    ensures Rep(out.r[..], va.r * va.r, c.r.m, c.r.n)
  {
    MontMulDual(out, a, a, m, c, va, va);
  }

  method EnterDual(out: Pair<array<u64>>, x: Pair<array<u64>>, toMont: Pair<array<u64>>, m: Pair<array<u64>>, c: Pair<Context>)
    requires Targets(out, m, c) && Entry(x.l[..], toMont.l[..], c.l) && Entry(x.r[..], toMont.r[..], c.r)
    modifies out.l, out.r
    ensures Targets(out, m, c)
    ensures Rep(out.l[..], old(Val(x.l[..], W52)), c.l.m, c.l.n)
    ensures Rep(out.r[..], old(Val(x.r[..], W52)), c.r.m, c.r.n)
  {
    ghost var xl, tl := Val(x.l[..], W52), Val(toMont.l[..], W52);
    ghost var xr, tr := Val(x.r[..], W52), Val(toMont.r[..], W52);
    OperandsFit(xl, tl, Val(c.l.m, W52), c.l.n);
    OperandsFit(xr, tr, Val(c.r.m, W52), c.r.n);
    FactorMakesOdd(c.l.m, c.l.k0);
    FactorMakesOdd(c.r.m, c.r.k0);
    ghost var yl, yr := MultiplyDual(out.l, x.l, toMont.l, m.l, c.l.k0, out.r, x.r, toMont.r, m.r, c.r.k0, c.l.n, c.l.width);
    assert m.l[..] == c.l.m && m.r[..] == c.r.m;
    EntryRepresents(Val(out.l[..], W52), xl, tl, Val(c.l.m, W52), c.l.n, yl);
    EntryRepresents(Val(out.r[..], W52), xr, tr, Val(c.r.m, W52), c.r.n, yr);
  }

  method LeaveDual(out: Pair<array<u64>>, a: Pair<array<u64>>, one: Pair<array<u64>>, m: Pair<array<u64>>, c: Pair<Context>,
                   ghost v: Pair<nat>)
    requires Targets(out, m, c)
    requires Rep(a.l[..], v.l, c.l.m, c.l.n) && Rep(a.r[..], v.r, c.r.m, c.r.n)
    requires IsOne(one.l[..]) && IsOne(one.r[..]) && one.l.Length == m.l.Length && one.r.Length == m.r.Length
    modifies out.l, out.r
    ensures Reduced(out.l[..], v.l, c.l) && Reduced(out.r[..], v.r, c.r)
  {
    ghost var al, ar := Val(a.l[..], W52), Val(a.r[..], W52);
    OneValue(one.l[..]);
    OneValue(one.r[..]);
    OperandsFit(al, 1, Val(c.l.m, W52), c.l.n);
    OperandsFit(ar, 1, Val(c.r.m, W52), c.r.n);
    FactorMakesOdd(c.l.m, c.l.k0);
    FactorMakesOdd(c.r.m, c.r.k0);
    ghost var yl, yr := MultiplyDual(out.l, a.l, one.l, m.l, c.l.k0, out.r, a.r, one.r, m.r, c.r.k0, c.l.n, c.l.width);
    assert m.l[..] == c.l.m && m.r[..] == c.r.m;
    ExitReduces(Val(out.l[..], W52), al, v.l, Val(c.l.m, W52), c.l.n, yl);
    ExitReduces(Val(out.r[..], W52), ar, v.r, Val(c.r.m, W52), c.r.n, yr);
  }

  /** Two tables of separate rows, none of which is one of the arrays `others`. */
  ghost predicate Tables(t: Pair<seq<array<u64>>>, m: Pair<array<u64>>, others: set<array<u64>>)
  {
    && Shape(t.l, m.l.Length) && Shape(t.r, m.r.Length)
    && RowsApart(t, others) && m.l in others && m.r in others
  }

  ghost predicate RowsApart(t: Pair<seq<array<u64>>>, others: set<array<u64>>)
    requires |t.l| == |t.r| == TABLE
  {
    && (forall i, j :: 0 <= i < TABLE && 0 <= j < TABLE ==> t.l[i] != t.r[j])
    && (forall i :: 0 <= i < TABLE ==> t.l[i] !in others && t.r[i] !in others)
  }

  /** Row `t` of both tables. */
  function Row(table: Pair<seq<array<u64>>>, t: nat): Pair<array<u64>>
    requires t < |table.l| && t < |table.r|
  {
    Pair(table.l[t], table.r[t])
  }

  /** Fills both tables with the powers of their bases. */
  method BuildTables(table: Pair<seq<array<u64>>>, base: Pair<array<u64>>, toMont: Pair<array<u64>>, one: Pair<array<u64>>,
                     m: Pair<array<u64>>, c: Pair<Context>)
    requires Tables(table, m, {m.l, m.r, base.l, base.r, toMont.l, toMont.r, one.l, one.r})
    requires Contexts(c) && m.l[..] == c.l.m && m.r[..] == c.r.m
    requires Entry(base.l[..], toMont.l[..], c.l) && Entry(base.r[..], toMont.r[..], c.r)
    requires IsOne(one.l[..]) && IsOne(one.r[..]) && one.l.Length == m.l.Length && one.r.Length == m.r.Length
    modifies table.l, table.r
    ensures Rows(table.l, TABLE, Val(base.l[..], W52), c.l)
    ensures Rows(table.r, TABLE, Val(base.r[..], W52), c.r)
  {
    ghost var vl, vr := Val(base.l[..], W52), Val(base.r[..], W52);
    FirstRows(table, base, toMont, one, m, c);
    for idx := 1 to TABLE / 2
      invariant m.l[..] == c.l.m && m.r[..] == c.r.m
      invariant base.l[..] == old(base.l[..]) && base.r[..] == old(base.r[..])
      invariant Rows(table.l, 2 * idx, vl, c.l) && Rows(table.r, 2 * idx, vr, c.r)
    {
      NextRows(table, idx, m, c, vl, vr);
    }
  }

  method FirstRows(table: Pair<seq<array<u64>>>, base: Pair<array<u64>>, toMont: Pair<array<u64>>, one: Pair<array<u64>>,
                   m: Pair<array<u64>>, c: Pair<Context>)
    requires Tables(table, m, {m.l, m.r, base.l, base.r, toMont.l, toMont.r, one.l, one.r})
    requires Contexts(c) && m.l[..] == c.l.m && m.r[..] == c.r.m
    requires Entry(base.l[..], toMont.l[..], c.l) && Entry(base.r[..], toMont.r[..], c.r)
    requires IsOne(one.l[..]) && IsOne(one.r[..]) && one.l.Length == m.l.Length && one.r.Length == m.r.Length
    modifies table.l[0], table.r[0], table.l[1], table.r[1]
    ensures Rows(table.l, 2, old(Val(base.l[..], W52)), c.l)
    ensures Rows(table.r, 2, old(Val(base.r[..], W52)), c.r)
  {
    OneValue(one.l[..]);
    OneValue(one.r[..]);
    var r0, r1 := Row(table, 0), Row(table, 1);
    EnterDual(r0, one, toMont, m, c);
    assert m.l[..] == c.l.m && m.r[..] == c.r.m;
    assert base.l[..] == old(base.l[..]) && base.r[..] == old(base.r[..]);
    assert toMont.l[..] == old(toMont.l[..]) && toMont.r[..] == old(toMont.r[..]);
    ghost var zl, zr := table.l[0][..], table.r[0][..];
    EnterDual(r1, base, toMont, m, c);
    assert table.l[0][..] == zl && table.r[0][..] == zr;
    PowFirst(Val(old(base.l[..]), W52));
    PowFirst(Val(old(base.r[..]), W52));
  }

  lemma PowFirst(v: nat)
    ensures Pow(v, 0) == 1 && Pow(v, 1) == v
  {
  }

  /** Rows `2 * idx` (a square) and `2 * idx + 1` (times the base) of both tables. */
  method NextRows(table: Pair<seq<array<u64>>>, idx: nat, m: Pair<array<u64>>, c: Pair<Context>, ghost vl: nat, ghost vr: nat)
    requires Tables(table, m, {m.l, m.r}) && Contexts(c) && m.l[..] == c.l.m && m.r[..] == c.r.m
    requires 1 <= idx < TABLE / 2 && Rows(table.l, 2 * idx, vl, c.l) && Rows(table.r, 2 * idx, vr, c.r)
    modifies table.l[2 * idx], table.r[2 * idx], table.l[2 * idx + 1], table.r[2 * idx + 1]
    ensures Rows(table.l, 2 * idx + 2, vl, c.l) && Rows(table.r, 2 * idx + 2, vr, c.r)
  {
    SquareRow(table, idx, m, c, vl, vr);
    assert m.l[..] == c.l.m && m.r[..] == c.r.m;
    OddRow(table, idx, m, c, vl, vr);
  }

  method SquareRow(table: Pair<seq<array<u64>>>, idx: nat, m: Pair<array<u64>>, c: Pair<Context>, ghost vl: nat, ghost vr: nat)
    requires Tables(table, m, {m.l, m.r}) && Contexts(c) && m.l[..] == c.l.m && m.r[..] == c.r.m
    requires 1 <= idx < TABLE / 2 && Rows(table.l, 2 * idx, vl, c.l) && Rows(table.r, 2 * idx, vr, c.r)
    modifies table.l[2 * idx], table.r[2 * idx]
    ensures Rows(table.l, 2 * idx + 1, vl, c.l) && Rows(table.r, 2 * idx + 1, vr, c.r)
  {
    var out, a := Row(table, 2 * idx), Row(table, idx);
    MontSqrDual(out, a, m, c, Pair(Pow(vl, idx), Pow(vr, idx)));
    PowAdd(vl, idx, idx);
    PowAdd(vr, idx, idx);
  }

  method OddRow(table: Pair<seq<array<u64>>>, idx: nat, m: Pair<array<u64>>, c: Pair<Context>, ghost vl: nat, ghost vr: nat)
    requires Tables(table, m, {m.l, m.r}) && Contexts(c) && m.l[..] == c.l.m && m.r[..] == c.r.m
    requires 1 <= idx < TABLE / 2 && Rows(table.l, 2 * idx + 1, vl, c.l) && Rows(table.r, 2 * idx + 1, vr, c.r)
    modifies table.l[2 * idx + 1], table.r[2 * idx + 1]
    ensures Rows(table.l, 2 * idx + 2, vl, c.l) && Rows(table.r, 2 * idx + 2, vr, c.r)
  {
    PowFirst(vl);
    PowFirst(vr);
    var out, a, b := Row(table, 2 * idx + 1), Row(table, 2 * idx), Row(table, 1);
    MontMulDual(out, a, b, m, c, Pair(Pow(vl, 2 * idx), Pow(vr, 2 * idx)), Pair(vl, vr));
    PowSnoc(vl, 2 * idx);
    PowSnoc(vr, 2 * idx);
  }

  method SquareFiveDual(Y: Pair<array<u64>>, m: Pair<array<u64>>, c: Pair<Context>, ghost v: Pair<nat>, ghost e: Pair<nat>)
    requires Targets(Y, m, c)
    requires Rep(Y.l[..], Pow(v.l, e.l), c.l.m, c.l.n) && Rep(Y.r[..], Pow(v.r, e.r), c.r.m, c.r.n)
    modifies Y.l, Y.r
    ensures Targets(Y, m, c)
    ensures Rep(Y.l[..], Pow(v.l, 32 * e.l), c.l.m, c.l.n) && Rep(Y.r[..], Pow(v.r, 32 * e.r), c.r.m, c.r.n)
  {
    hide Val, Pow, Rep;
    SquareOnce(Y, m, c, v, e);
    SquareTwice(Y, m, c, v, Pair(2 * e.l, 2 * e.r));
    SquareTwice(Y, m, c, v, Pair(8 * e.l, 8 * e.r));
  }

  method SquareTwice(Y: Pair<array<u64>>, m: Pair<array<u64>>, c: Pair<Context>, ghost v: Pair<nat>, ghost e: Pair<nat>)
    requires Targets(Y, m, c)
    requires Rep(Y.l[..], Pow(v.l, e.l), c.l.m, c.l.n) && Rep(Y.r[..], Pow(v.r, e.r), c.r.m, c.r.n)
    modifies Y.l, Y.r
    ensures Targets(Y, m, c)
    ensures Rep(Y.l[..], Pow(v.l, 4 * e.l), c.l.m, c.l.n) && Rep(Y.r[..], Pow(v.r, 4 * e.r), c.r.m, c.r.n)
  {
    hide Val, Pow, Rep;
    SquareOnce(Y, m, c, v, e);
    SquareOnce(Y, m, c, v, Pair(2 * e.l, 2 * e.r));
  }

  method SquareOnce(Y: Pair<array<u64>>, m: Pair<array<u64>>, c: Pair<Context>, ghost v: Pair<nat>, ghost e: Pair<nat>)
    requires Targets(Y, m, c)
    requires Rep(Y.l[..], Pow(v.l, e.l), c.l.m, c.l.n) && Rep(Y.r[..], Pow(v.r, e.r), c.r.m, c.r.n)
    modifies Y.l, Y.r
    ensures Targets(Y, m, c)
    ensures Rep(Y.l[..], Pow(v.l, 2 * e.l), c.l.m, c.l.n) && Rep(Y.r[..], Pow(v.r, 2 * e.r), c.r.m, c.r.n)
  {
    MontSqrDual(Y, Y, m, c, Pair(Pow(v.l, e.l), Pow(v.r, e.r)));
    PowAdd(v.l, e.l, e.l);
    PowAdd(v.r, e.r, e.r);
  }

  /** The buffers of the two halves share nothing with each other or with the moduli. */
  ghost predicate ApartDual(b: Pair<Buffers>, m: Pair<array<u64>>)
  {
    && b.l.Apart(m.l) && b.r.Apart(m.r)
    && {b.l.Y, b.l.X, b.l.expz, m.l} !! {b.r.Y, b.r.X}
    && {b.l.Y, b.l.X} !! {b.r.Y, b.r.X, b.r.expz, m.r}
    && RowsApart(Pair(b.l.table, b.r.table), {m.l, m.r, b.l.Y, b.l.X, b.l.expz, b.r.Y, b.r.X, b.r.expz})
  }

  ghost predicate ReadyDual(b: Pair<Buffers>, m: Pair<array<u64>>, c: Pair<Context>, v: Pair<nat>, ez: Pair<seq<u64>>)
    reads b.l.table, b.l.expz, m.l, b.r.table, b.r.expz, m.r
  {
    Ready(b.l, m.l, c.l, v.l, ez.l) && Ready(b.r, m.r, c.r, v.r, ez.r)
  }

  /** The results hold the powers whose exponents are the bits from `bit` up. */
  ghost predicate PowersFrom(bit: nat, b: Pair<Buffers>, c: Pair<Context>, v: Pair<nat>, ez: Pair<seq<u64>>)
    reads b.l.Y, b.r.Y
  {
    && Rep(b.l.Y[..], Pow(v.l, Shr(Val(ez.l, W64), bit)), c.l.m, c.l.n)
    && Rep(b.r.Y[..], Pow(v.r, Shr(Val(ez.r, W64), bit)), c.r.m, c.r.n)
  }

  /** Looks up the multipliers of window `bit` of both halves. */
  method LookUpDual(b: Pair<Buffers>, m: Pair<array<u64>>, c: Pair<Context>, bit: nat, ghost v: Pair<nat>, ghost ez: Pair<seq<u64>>)
    requires ApartDual(b, m) && ReadyDual(b, m, c, v, ez) && bit / 64 + 1 < |ez.l| && bit / 64 + 1 < |ez.r|
    modifies b.l.X, b.r.X
    ensures Rep(b.l.X[..], Pow(v.l, Shr(Val(ez.l, W64), bit) % 32), c.l.m, c.l.n)
    ensures Rep(b.r.X[..], Pow(v.r, Shr(Val(ez.r, W64), bit) % 32), c.r.m, c.r.n)
  {
    hide Val, Pow, Rep;
    var idxl, idxr := Window(b.l.expz[..], bit), Window(b.r.expz[..], bit);
    WindowIsBits(ez.l, bit);
    WindowIsBits(ez.r, bit);
    LookUp(b.l.X, b.l.table, idxl, c.l, v.l);
    ghost var xl := b.l.X[..];
    LookUp(b.r.X, b.r.table, idxr, c.r, v.r);
    assert b.l.X[..] == xl;
  }

  /** Five squarings and the multiplication by the looked-up powers. */
  method SquareAndMultiply(Y: Pair<array<u64>>, X: Pair<array<u64>>, m: Pair<array<u64>>, c: Pair<Context>,
                           ghost v: Pair<nat>, ghost e: Pair<nat>, ghost w: Pair<nat>)
    requires Targets(Y, m, c) && {X.l, X.r} !! {Y.l, Y.r}
    requires Rep(Y.l[..], Pow(v.l, e.l), c.l.m, c.l.n) && Rep(Y.r[..], Pow(v.r, e.r), c.r.m, c.r.n)
    requires Rep(X.l[..], Pow(v.l, w.l), c.l.m, c.l.n) && Rep(X.r[..], Pow(v.r, w.r), c.r.m, c.r.n)
    modifies Y.l, Y.r
    ensures m.l[..] == c.l.m && m.r[..] == c.r.m
    ensures Rep(Y.l[..], Pow(v.l, 32 * e.l + w.l), c.l.m, c.l.n)
    ensures Rep(Y.r[..], Pow(v.r, 32 * e.r + w.r), c.r.m, c.r.n)
  {
    hide Val, Pow, Shr, Rep;
    SquareFiveDual(Y, m, c, v, e);
    assert X.l[..] == old(X.l[..]) && X.r[..] == old(X.r[..]);
    MontMulDual(Y, Y, X, m, c, Pair(Pow(v.l, 32 * e.l), Pow(v.r, 32 * e.r)), Pair(Pow(v.l, w.l), Pow(v.r, w.r)));
    PowAdd(v.l, 32 * e.l, w.l);
    PowAdd(v.r, 32 * e.r, w.r);
  }

  method WindowRoundDual(b: Pair<Buffers>, m: Pair<array<u64>>, c: Pair<Context>, bit: nat,
                         ghost v: Pair<nat>, ghost ez: Pair<seq<u64>>)
    requires Contexts(c) && ApartDual(b, m) && ReadyDual(b, m, c, v, ez)
    requires bit / 64 + 1 < |ez.l| && bit / 64 + 1 < |ez.r|
    requires PowersFrom(bit + 5, b, c, v, ez)
    modifies b.l.X, b.r.X, b.l.Y, b.r.Y
    ensures ReadyDual(b, m, c, v, ez) && PowersFrom(bit, b, c, v, ez)
  {
    hide Val, Pow, Shr, Rep;
    var Y, X := Pair(b.l.Y, b.r.Y), Pair(b.l.X, b.r.X);
    LookUpDual(b, m, c, bit, v, ez);
    assert Y.l[..] == old(Y.l[..]) && Y.r[..] == old(Y.r[..]);
    ghost var el, er := Val(ez.l, W64), Val(ez.r, W64);
    SquareAndMultiply(Y, X, m, c, v, Pair(Shr(el, bit + 5), Shr(er, bit + 5)), Pair(Shr(el, bit) % 32, Shr(er, bit) % 32));
    WindowStep(el, bit);
    WindowStep(er, bit);
    assert b.l.expz[..] == old(b.l.expz[..]) && b.r.expz[..] == old(b.r.expz[..]);
  }

  lemma WindowInside(bit: nat, start: nat, words: nat)
    requires bit + WIN <= start <= 64 * (words - 1)
    ensures bit / 64 + 1 < words
  {
  }

  /** All windows below `start`, five bits at a time, for both halves. */
  method OtherWindowsDual(b: Pair<Buffers>, m: Pair<array<u64>>, c: Pair<Context>, start: nat,
                          ghost v: Pair<nat>, ghost ez: Pair<seq<u64>>)
    requires Contexts(c) && ApartDual(b, m) && ReadyDual(b, m, c, v, ez)
    requires start % WIN == 0 && |ez.l| == |ez.r| && start <= 64 * (|ez.l| - 1)
    requires PowersFrom(start, b, c, v, ez)
    modifies b.l.X, b.r.X, b.l.Y, b.r.Y
    ensures ReadyDual(b, m, c, v, ez) && PowersFrom(0, b, c, v, ez)
  {
    hide ReadyDual, PowersFrom, ApartDual, Contexts;
    var bitNo: int := start - WIN;
    ghost var left: nat := start / WIN;
    while bitNo >= 0
      invariant bitNo + WIN == WIN * left <= start
      invariant ReadyDual(b, m, c, v, ez)
      invariant PowersFrom(bitNo + WIN, b, c, v, ez)
    {
      WindowInside(bitNo, start, |ez.l|);
      WindowRoundDual(b, m, c, bitNo, v, ez);
      bitNo := bitNo - WIN;
      left := left - 1;
    }
    assert left == 0;
  }

  method NewBuffers(exp: array<u64>, m: array<u64>) returns (b: Buffers)
    requires m.Length > 0
    ensures fresh(b.Y) && fresh(b.X) && fresh(b.expz) && (forall t :: 0 <= t < |b.table| ==> fresh(b.table[t]))
    ensures b.Apart(m) && IsOne(b.X[..]) && b.expz[..] == exp[..] + [0]
    ensures Val(exp[..] + [0], W64) == Val(exp[..], W64)
  {
    var Y := new u64[m.Length](_ => 0);
    var X := new u64[m.Length](_ => 0);
    X[0] := 1;
    var table := NewTable(m.Length);
    var expz := ExpandExponent(exp);
    b := Buffers(Y, X, table, expz);
  }

  method PrepareDual(base: Pair<array<u64>>, exp: Pair<array<u64>>, m: Pair<array<u64>>, toMont: Pair<array<u64>>, c: Pair<Context>)
    returns (b: Pair<Buffers>)
    requires Contexts(c) && m.l[..] == c.l.m && m.r[..] == c.r.m
    requires Entry(base.l[..], toMont.l[..], c.l) && Entry(base.r[..], toMont.r[..], c.r)
    ensures fresh(b.l.Y) && fresh(b.l.X) && fresh(b.r.Y) && fresh(b.r.X) && ApartDual(b, m)
    ensures ReadyDual(b, m, c, Pair(Val(base.l[..], W52), Val(base.r[..], W52)), Pair(exp.l[..] + [0], exp.r[..] + [0]))
    ensures Val(exp.l[..] + [0], W64) == Val(exp.l[..], W64) && Val(exp.r[..] + [0], W64) == Val(exp.r[..], W64)
  {
    hide Val, Pow, Shr, Rep;
    var bl := NewBuffers(exp.l, m.l);
    ghost var el := bl.expz[..];
    var br := NewBuffers(exp.r, m.r);
    ghost var er := br.expz[..];
    b := Pair(bl, br);
    var table, one := Pair(bl.table, br.table), Pair(bl.X, br.X);
    BuildTables(table, base, toMont, one, m, c);
    assert bl.expz[..] == el && br.expz[..] == er;
    assert base.l[..] == old(base.l[..]) && base.r[..] == old(base.r[..]);
    assert exp.l[..] == old(exp.l[..]) && exp.r[..] == old(exp.r[..]);
    assert m.l[..] == old(m.l[..]) && m.r[..] == old(m.r[..]);
  }

  /**
   * Both exponentiations at once. An output may be the base or the converter of its own half.
   */
  method ExponentiateDual(out: Pair<array<u64>>, base: Pair<array<u64>>, exp: Pair<array<u64>>, m: Pair<array<u64>>,
                          toMont: Pair<array<u64>>, c: Pair<Context>, bits: nat)
    requires Targets(out, m, c)
    requires Entry(base.l[..], toMont.l[..], c.l) && Entry(base.r[..], toMont.r[..], c.r)
    requires 0 < bits == 64 * exp.l.Length == 64 * exp.r.Length
    modifies out.l, out.r
    ensures Reduced(out.l[..], Pow(old(Val(base.l[..], W52)), old(Val(exp.l[..], W64))), c.l)
    ensures Reduced(out.r[..], Pow(old(Val(base.r[..], W52)), old(Val(exp.r[..], W64))), c.r)
  {
    hide Val, Pow, Shr, Rep;
    ghost var v := Pair(Val(base.l[..], W52), Val(base.r[..], W52));
    ghost var ez := Pair(exp.l[..] + [0], exp.r[..] + [0]);
    var b := PrepareDual(base, exp, m, toMont, c);
    var start := FirstPowerDual(b, m, c, bits, v, ez);
    OtherWindowsDual(b, m, c, start, v, ez);
    LeaveBuffers(out, b, m, c, v, ez);
  }

  method FirstPowerDual(b: Pair<Buffers>, m: Pair<array<u64>>, c: Pair<Context>, bits: nat,
                        ghost v: Pair<nat>, ghost ez: Pair<seq<u64>>)
    returns (start: nat)
    requires Contexts(c) && ApartDual(b, m) && ReadyDual(b, m, c, v, ez)
    requires 0 < bits && 64 * |ez.l| == 64 * |ez.r| == bits + 64 && ez.l[|ez.l| - 1] == ez.r[|ez.r| - 1] == 0
    modifies b.l.Y, b.r.Y
    ensures ReadyDual(b, m, c, v, ez) && PowersFrom(start, b, c, v, ez)
    ensures start % WIN == 0 && start < bits
  {
    hide Val, Pow, Shr, Rep;
    var delta := FirstWidth(bits);
    start := bits - delta;
    ghost var words := |ez.l| - 1;
    assert start / 64 == words - 1 && start % 64 == 64 - delta;
    FirstWindow(ez.l, words, delta);
    FirstWindow(ez.r, words, delta);
    assert b.l.expz[start / 64] == ez.l[words - 1] && b.r.expz[start / 64] == ez.r[words - 1];
    var idxl, idxr := Shr(b.l.expz[start / 64], start % 64), Shr(b.r.expz[start / 64], start % 64);
    LookUp(b.l.Y, b.l.table, idxl, c.l, v.l);
    ghost var yl := b.l.Y[..];
    LookUp(b.r.Y, b.r.table, idxr, c.r, v.r);
    assert b.l.Y[..] == yl;
  }

  /** Final multiplication by one. */
  method LeaveBuffers(out: Pair<array<u64>>, b: Pair<Buffers>, m: Pair<array<u64>>, c: Pair<Context>,
                      ghost v: Pair<nat>, ghost ez: Pair<seq<u64>>)
    requires Targets(out, m, c) && ApartDual(b, m) && PowersFrom(0, b, c, v, ez)
    modifies out.l, out.r, b.l.X, b.r.X
    ensures Reduced(out.l[..], Pow(v.l, Val(ez.l, W64)), c.l) && Reduced(out.r[..], Pow(v.r, Val(ez.r, W64)), c.r)
  {
    var Y, X := Pair(b.l.Y, b.r.Y), Pair(b.l.X, b.r.X);
    SetOne(X.l);
    ghost var xl := X.l[..];
    SetOne(X.r);
    assert X.l[..] == xl;
    LeaveDual(out, Y, X, m, c, Pair(Pow(v.l, Val(ez.l, W64)), Pow(v.r, Val(ez.r, W64))));
  }
}
