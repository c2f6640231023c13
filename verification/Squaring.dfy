/** The squaring of a multi-word number: the products above the diagonal once, doubled, and the squares added. */
module Squaring {
  import opened Arith
  import opened Digits
  import opened Words
  import opened Bnu
  import WordMont

  /** The squares of the first `i` words, each at its place. */
  ghost function Squares(s: seq<nat>, i: nat): nat
    requires i <= |s|
  {
    if i == 0 then 0 else Squares(s, i - 1) + Pow(B, 2 * (i - 1)) * (s[i - 1] * s[i - 1])
  }

  /** The products of the first `i` words with the words above each of them. */
  ghost function Cross(s: seq<nat>, i: nat): int
    requires i <= |s|
  {
    if i == 0 then 0 else Cross(s, i - 1) + (Pow(B, i - 1) * s[i - 1]) * (Val(s, B) - Val(s[..i], B))
  }

  /** Twice the products above the diagonal and the squares make up the square, less that of the words not yet met. */
  lemma {:induction false} SquareParts(s: seq<nat>, i: nat)
    requires i <= |s|
    ensures var rest := Val(s, B) - Val(s[..i], B); 2 * Cross(s, i) + Squares(s, i) + rest * rest == Val(s, B) * Val(s, B)
  {
    if i == 0 {
      assert s[..0] == [];
    } else {
      SquareParts(s, i - 1);
      ValPrefix(s, i - 1, B);
      var p := Pow(B, i - 1);
      PowAdd(B, i - 1, i - 1);
      assert 2 * (i - 1) == (i - 1) + (i - 1);
      OneSquare(p, s[i - 1], Val(s, B) - Val(s[..i], B));
    }
  }

  lemma OneSquare(p: int, w: int, r: int)
    ensures (r + p * w) * (r + p * w) == (p * p) * (w * w) + 2 * ((p * w) * r) + r * r
  {
    var t := p * w;
    assert (r + t) * (r + t) == t * t + 2 * (t * r) + r * r;
    assert t * t == (p * p) * (w * w) by {
      Assoc(t, p, w);
      Exchange(t, p, w);
      Assoc(p, t, w);
      Assoc(p, p, w * w);
      Assoc(p, w, w);
    }
  }

  lemma WholeCross(s: seq<nat>)
    requires |s| > 0
    ensures Cross(s, |s|) == Cross(s, |s| - 1) && 2 * Cross(s, |s|) + Squares(s, |s|) == Val(s, B) * Val(s, B)
  {
    assert s[..|s|] == s;
    var n, rest := |s|, Val(s, B) - Val(s[..|s|], B);
    SquareParts(s, n);
    assert rest == 0 && rest * rest == 0;
    assert Cross(s, n) == Cross(s, n - 1) + (Pow(B, n - 1) * s[n - 1]) * rest;
    TimesZero(Pow(B, n - 1) * s[n - 1], rest);
  }

  lemma TimesZero(x: int, zero: int)
    requires zero == 0
    ensures x * zero == 0
  {
  }

  /** A word product plus one word. */
  method MulAdd(a: word, b: word, c: word) returns (high: word, low: word)
    ensures high * B + low == a * b + c
  {
    var h, l := MulAB(a, b);
    var k, r := AddAB(l, c);
    assert (k + h) * B == k * B + h * B;
    MacFits(a, b, c, 0, k + h, r, B);
    high, low := k + h, r;
  }

  /** The first row, written over whatever was there. */
  method FirstChain(x: Ptr, a: Ptr, n: nat, b: word) returns (ext: word)
    requires x.Has(n) && a.Has(n) && Apart(x, n, a, n)
    modifies x.a
    ensures Num(x, n) + ext * Pow(B, n) == Num(a, n) * b && Only(x, n)
  {
    ext := 0;
    for j: nat := 0 to n
      invariant Num(x, j) + ext * Pow(B, j) == Num(a, j) * b
      invariant Only(x, n)
    {
      NumSnoc(a, j);
      var aj := a.a[a.o + j];
      ghost var r, s, c := Num(x, j), Num(a, j), ext;
      var w;
      ext, w := MulAdd(aj, b, ext);
      Put(x, j, w);
      WordMont.SchoolStep(r, 0, s, b, Pow(B, j), c, w, 0, aj, ext, B, 0, Num(a, j + 1), Num(x, j + 1));
    }
  }

  ghost function WordsOf(a: Ptr, n: nat): (s: seq<nat>)
    requires a.Has(n)
    reads a.a
    ensures |s| == n
  {
    a.a[a.o..a.o + n]
  }

  /** The words above the `i`-th, in the number. */
  lemma Above(a: Ptr, n: nat, i: nat)
    requires a.Has(n) && i <= n
    ensures Val(WordsOf(a, n), B) == Num(a, n) && Val(WordsOf(a, n)[..i], B) == Num(a, i)
    ensures Num(a, n) - Num(a, i) == Pow(B, i) * Num(a.At(i), n - i)
  {
    NumSplit(a, i, n);
    assert WordsOf(a, n)[..i] == a.a[a.o..a.o + i];
  }

  method FirstUpper(x: Ptr, a: Ptr, n: nat, w: word)
    requires x.Has(n + 1) && a.Has(n) && Apart(x, n + 1, a, n)
    modifies x.a
    ensures Num(x, n + 1) == old(Num(a, n)) * w && Only(x, n + 1)
  {
    ghost var product: int := Num(a, n) * w;
    var ext := FirstChain(x, a, n, w);
    WordMont.Commute(ext, Pow(B, n));
    Put(x, n, ext);
  }

  /** The products of the lowest word with those above it. */
  method FirstRow(x: Ptr, a: Ptr, n: nat)
    requires 0 < n && x.Has(2 * n) && a.Has(n) && Apart(x, 2 * n, a, n)
    modifies x.a
    ensures Num(x, 1) == 0 && Num(x, n + 1) == Pow(B, 1) * (old(Num(a.At(1), n - 1)) * old(a.a[a.o])) && Only(x, 2 * n)
  {
    Put(x, 0, 0);
    FirstUpper(x.At(1), a.At(1), n - 1, a.a[a.o]);
    NumSplit(x, 1, n + 1);
  }

  lemma FirstCross(a: Ptr, n: nat)
    requires a.Has(n) && 0 < n
    ensures Cross(WordsOf(a, n), 1) == Pow(B, 1) * (Num(a.At(1), n - 1) * a.a[a.o])
  {
    var s, above, w: int := WordsOf(a, n), Num(a.At(1), n - 1), a.a[a.o];
    Above(a, n, 1);
    assert Cross(s, 1) == Cross(s, 0) + (Pow(B, 0) * s[0]) * (Val(s, B) - Val(s[..1], B));
    assert Pow(B, 0) * s[0] == w;
    Exchange(w, Pow(B, 1), above);
    WordMont.Commute(w, above);
  }

  /** A further row: its sum lands `2 * i + 1` words up. */
  lemma RowSum(t: int, w: int, above: int, p: int, q: int, p2: int, rest: int)
    requires p2 == p * q && rest == q * above
    ensures t + p2 * (above * w) == t + (p * w) * rest
  {
    Assoc(p * q, above, w);
    Assoc(p, q, above);
    Assoc(p, q * above, w);
    Assoc(p, w, q * above);
    WordMont.Commute(q * above, w);
  }

  lemma CrossNext(s: seq<nat>, i: nat)
    requires i < |s|
    ensures Cross(s, i + 1) == Cross(s, i) + (Pow(B, i) * s[i]) * (Val(s, B) - Val(s[..i + 1], B))
  {
  }

  lemma RowIsCross(a: Ptr, n: nat, i: nat, s: seq<nat>)
    requires a.Has(n) && i < n && s == WordsOf(a, n)
    ensures Cross(s, i + 1) == Cross(s, i) + Pow(B, 2 * i + 1) * (Num(a.At(i + 1), n - i - 1) * a.a[a.o + i])
  {
    Above(a, n, i + 1);
    CrossNext(s, i);
    PowAdd(B, i, i + 1);
    assert i + (i + 1) == 2 * i + 1;
    RowSum(Cross(s, i), s[i], Num(a.At(i + 1), n - i - 1), Pow(B, i), Pow(B, i + 1), Pow(B, 2 * i + 1),
           Val(s, B) - Val(s[..i + 1], B));
  }

  /** A row added `k` words up. */
  method RowAt(x: Ptr, k: nat, a: Ptr, n: nat, w: word)
    requires 1 <= k && x.Has(k + n + 1) && a.Has(n) && Apart(x, k + n + 1, a, n)
    modifies x.a
    ensures Num(x, k + n + 1) == old(Num(x, k + n)) + Pow(B, k) * (old(Num(a, n)) * w)
    ensures Num(x, 1) == old(Num(x, 1)) && Only(x, k + n + 1)
  {
    NumSplit(x, k, k + n);
    ghost var mid, row: int := Num(x.At(k), n), Num(a, n) * w;
    WordMont.SchoolRow(x.At(k), a, n, w);
    NumSplit(x, k, k + n + 1);
    WordMont.Spread(Pow(B, k), mid, row, 0);
  }

  method NextRow(x: Ptr, a: Ptr, n: nat, i: nat, ghost s: seq<nat>)
    requires 1 <= i < n - 1 && x.Has(2 * n) && a.Has(n) && Apart(x, 2 * n, a, n)
    requires s == WordsOf(a, n) && Num(x, n + i) == Cross(s, i)
    modifies x.a
    ensures Num(x, n + i + 1) == Cross(s, i + 1) && Num(x, 1) == old(Num(x, 1)) && Only(x, 2 * n) && WordsOf(a, n) == s
  {
    RowIsCross(a, n, i, s);
    RowAt(x, 2 * i + 1, a.At(i + 1), n - i - 1, a.a[a.o + i]);
    assert WordsOf(a, n) == s;
  }

  method FurtherRows(x: Ptr, a: Ptr, n: nat, ghost s: seq<nat>)
    requires 1 < n && x.Has(2 * n) && a.Has(n) && Apart(x, 2 * n, a, n)
    requires s == WordsOf(a, n) && Num(x, n + 1) == Cross(s, 1)
    modifies x.a
    ensures Num(x, 2 * n - 1) == Cross(s, n - 1) && Num(x, 1) == old(Num(x, 1)) && Only(x, 2 * n)
  {
    for i: nat := 1 to n - 1
      invariant Num(x, n + i) == Cross(s, i) && WordsOf(a, n) == s && Num(x, 1) == old(Num(x, 1)) && Only(x, 2 * n)
    {
      NextRow(x, a, n, i, s);
    }
  }

  /** All products above the diagonal. */
  method AllRows(x: Ptr, a: Ptr, n: nat, ghost s: seq<nat>)
    requires 0 < n && x.Has(2 * n) && a.Has(n) && Apart(x, 2 * n, a, n) && s == WordsOf(a, n)
    modifies x.a
    ensures Num(x, 1) == 0 && Num(x, 2 * n - 1) == Cross(s, n) && Only(x, 2 * n)
  {
    FirstCross(a, n);
    WholeCross(s);
    FirstRow(x, a, n);
    assert WordsOf(a, n) == s;
    if 1 < n {
      FurtherRows(x, a, n, s);
    }
  }

  /** A number doubled in place by the carry chain, the carry on top. */
  method DoubleWords(y: Ptr, k: nat)
    requires y.Has(k + 1)
    modifies y.a
    ensures Num(y, k + 1) == 2 * old(Num(y, k)) && Only(y, k + 1)
  {
    var carry := Add(y, y, y, k);
    Pow2Even(CHUNK_BITS);
    ghost var low := Num(y, k);
    WordMont.Commute(carry, Pow(B, k));
    var w: word := carry;
    Put(y, k, w);
  }

  lemma Twice(v: int, zero: int, p: int, high: int)
    requires zero == 0 && v == zero + p * high
    ensures zero + p * (2 * high) == 2 * v
  {
  }

  /** Every word after the first doubled; the first is zero. */
  method Double(x: Ptr, n: nat)
    requires 0 < n && x.Has(2 * n) && Num(x, 1) == 0
    modifies x.a
    ensures Num(x, 2 * n) == 2 * old(Num(x, 2 * n - 1)) && Only(x, 2 * n)
  {
    NumSplit(x, 1, 2 * n - 1);
    ghost var v, high := Num(x, 2 * n - 1), Num(x.At(1), 2 * n - 2);
    DoubleWords(x.At(1), 2 * n - 2);
    NumSplit(x, 1, 2 * n);
    Twice(v, Num(x, 1), Pow(B, 1), high);
  }

  lemma TwoWords(h: int, l: int, x0: int, x1: int, c: int, c1: int, w0: int, c2: int, w1: int, ww: int, base: int)
    requires h * base + l == ww && c1 * base + w0 == x0 + l + c && c2 * base + w1 == x1 + h + c1
    ensures (w0 + base * w1) + c2 * (base * base) == (x0 + base * x1) + ww + c
  {
    assert base * (c2 * base + w1) == base * x1 + base * h + base * c1;
    assert base * (c2 * base) == c2 * (base * base) by { Assoc(c2, base, base); }
  }

  lemma NumTwo(x: Ptr)
    requires x.Has(2)
    ensures Num(x, 2) == x.a[x.o] + B * x.a[x.o + 1] && Pow(B, 2) == B * B
  {
    NumOne(x);
    NumSnoc(x, 1);
  }

  /** One square added to the two words at its place. */
  method AddSquare(x: Ptr, w: word, carry: nat) returns (carry': nat)
    requires x.Has(2) && carry <= 1
    modifies x.a
    ensures Num(x, 2) + carry' * Pow(B, 2) == old(Num(x, 2)) + w * w + carry && carry' <= 1 && Only(x, 2)
  {
    var h, l := MulAB(w, w);
    NumTwo(x);
    var x0, x1 := x.a[x.o], x.a[x.o + 1];
    Pow2Even(CHUNK_BITS);
    var c1, w0 := AddABC(x0, l, carry);
    WordMont.CarryAtMostOne(x0, l, carry, c1, w0, B);
    var w1;
    carry', w1 := AddABC(x1, h, c1);
    WordMont.CarryAtMostOne(x1, h, c1, carry', w1, B);
    Put(x, 0, w0);
    Put(x, 1, w1);
    NumTwo(x);
    TwoWords(h, l, x0, x1, carry, c1, w0, carry', w1, w * w, B);
  }

  lemma SquareAt(low: int, old2: int, new2: int, high: int, c: int, c': int, ww: int, p: int, bb: int)
    requires new2 + c' * bb == old2 + ww + c
    ensures low + p * (new2 + bb * high) + c' * (p * bb) == low + p * (old2 + bb * high) + c * p + p * ww
  {
    assert p * (new2 + c' * bb) == p * old2 + p * ww + p * c;
    Exchange(p, c', bb);
    assert p * (new2 + bb * high) == p * new2 + p * (bb * high) && p * (old2 + bb * high) == p * old2 + p * (bb * high);
  }

  /** A number with two of its words picked out. */
  lemma PickTwo(x: Ptr, k: nat, n: nat)
    requires k + 2 <= n && x.Has(n)
    ensures Num(x, n) == Num(x, k) + Pow(B, k) * (Num(x.At(k), 2) + Pow(B, 2) * Num(x.At(k + 2), n - k - 2))
    ensures Pow(B, k + 2) == Pow(B, k) * Pow(B, 2)
  {
    NumSplit(x, k, n);
    NumSplit(x.At(k), 2, n - k);
    PowAdd(B, k, 2);
  }

  /** The same, seen from the whole number. */
  method AddSquareAt(x: Ptr, n: nat, i: nat, w: word, carry: nat) returns (carry': nat)
    requires i < n && x.Has(2 * n) && carry <= 1
    modifies x.a
    ensures carry' <= 1 && Only(x, 2 * n)
    ensures Num(x, 2 * n) + carry' * Pow(B, 2 * i + 2) == old(Num(x, 2 * n)) + carry * Pow(B, 2 * i) + Pow(B, 2 * i) * (w * w)
  {
    var k, y := 2 * i, x.At(2 * i);
    PickTwo(x, k, 2 * n);
    ghost var low, two, high := Num(x, k), Num(y, 2), Num(x.At(k + 2), 2 * n - k - 2);
    carry' := AddSquare(y, w, carry);
    PickTwo(x, k, 2 * n);
    SquareAt(low, two, Num(y, 2), high, carry, carry', w * w, Pow(B, k), Pow(B, 2));
  }

  method AddSquares(x: Ptr, a: Ptr, n: nat, ghost s: seq<nat>) returns (carry: nat)
    requires x.Has(2 * n) && a.Has(n) && Apart(x, 2 * n, a, n) && s == WordsOf(a, n)
    modifies x.a
    ensures Num(x, 2 * n) + carry * Pow(B, 2 * n) == old(Num(x, 2 * n)) + Squares(s, n) && Only(x, 2 * n)
  {
    carry := 0;
    for i: nat := 0 to n
      invariant carry <= 1 && Only(x, 2 * n) && WordsOf(a, n) == s
      invariant Num(x, 2 * n) + carry * Pow(B, 2 * i) == old(Num(x, 2 * n)) + Squares(s, i)
    {
      carry := AddSquareAt(x, n, i, a.a[a.o + i], carry);
      assert WordsOf(a, n) == s;
    }
  }

  lemma NoCarry(v: nat, c: nat, p: nat, x: nat, q: nat)
    requires v + c * p == x * x && x < q && p == q * q
    ensures v == x * x
  {
    MulMono(x, q - 1, x);
    MulMono(x, q - 1, q);
    if c > 0 {
      MulMono(1, c, p);
    }
  }

  /** `cpSqrAdc_BNU_school`: each product of two different words computed once. */
  method Sqr(x: Ptr, a: Ptr, n: nat)
    requires 0 < n && x.Has(2 * n) && a.Has(n) && Apart(x, 2 * n, a, n)
    modifies x.a
    ensures Num(x, 2 * n) == old(Num(a, n)) * old(Num(a, n)) && Only(x, 2 * n)
  {
    ghost var s, A := WordsOf(a, n), Num(a, n);
    WholeCross(s);
    NumBound(a, n);
    PowAdd(B, n, n);
    AllRows(x, a, n, s);
    Double(x, n);
    assert WordsOf(a, n) == s;
    var carry := AddSquares(x, a, n, s);
    NoCarry(Num(x, 2 * n), carry, Pow(B, 2 * n), A, Pow(B, n));
  }

  /** Squaring, then reduction: the squaring form of Montgomery multiplication. */
  method SqrThenRed(r: Ptr, a: Ptr, x: Ptr, m: Ptr, n: nat, k0: word)
    requires 0 < n && x.Has(2 * n) && a.Has(n) && m.Has(n) && r.Has(n) && 0 < Num(m, n)
    requires Apart(x, 2 * n, a, n) && Apart(x, 2 * n, m, n) && Cong(k0 * Num(m, 1) + 1, 0, B)
    requires Apart(r, n, m, n) && Apart(r, n, x, 2 * n)
    requires Num(a, n) * Num(a, n) < Num(m, n) * Pow(B, n)
    modifies r.a, x.a
    ensures Num(r, n) < old(Num(m, n))
    ensures Cong(Num(r, n) * Pow(B, n), old(Num(a, n)) * old(Num(a, n)), old(Num(m, n)))
    ensures OnlyTwo(r, n, x, 2 * n)
  {
    ghost var X: int, M := Num(a, n) * Num(a, n), Num(m, n);
    Sqr(x, a, n);
    assert Num(x, 2 * n) == X && Num(m, n) == M;
    WordMont.Red(r, x, m, n, k0);
  }
}
