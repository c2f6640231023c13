/** Modular addition, subtraction, negation and halving of reduced numbers, with one temporary. */
module ModArith {
  import opened Arith
  import opened Digits
  import opened Words
  import opened Bnu
  import opened Residues

  /** A result, a temporary and a modulus that do not overlap, and sources the result may overwrite. */
  ghost predicate Setting(r: Ptr, a: Ptr, b: Ptr, t: Ptr, m: Ptr, n: nat)
    reads m.a
  {
    && r.Has(n) && t.Has(n) && m.Has(n) && Source(r, a, n) && Source(r, b, n)
    && Apart(r, n, m, n) && Apart(r, n, t, n) && Apart(t, n, m, n) && Apart(t, n, a, n) && Apart(t, n, b, n)
    && 0 < Num(m, n)
  }

  /** The carry of the sum and the borrow of the trial subtraction agree exactly when the subtraction is due. */
  lemma SumDecides(x: nat, y: nat, c: nat, s: nat, d: nat, t: nat, p: nat, m: nat)
    requires x < m && y < m && m <= p && c <= 1 && d <= 1 && s < p && t < p
    requires s + c * p == x + y && t - d * p == s - m
    ensures (if c == d then t else s) == Rem(x + y, m)
  {
    RemIsMod(x + y, m);
    DivModUnique(x + y, m, if c == d then 1 else 0, if c == d then t else s);
  }

  /** `gs_mont_add`. */
  method Add(r: Ptr, a: Ptr, b: Ptr, t: Ptr, m: Ptr, n: nat)
    requires Setting(r, a, b, t, m, n) && Num(a, n) < Num(m, n) && Num(b, n) < Num(m, n)
    modifies r.a, t.a
    ensures Num(r, n) == Rem(old(Num(a, n)) + old(Num(b, n)), old(Num(m, n))) && OnlyTwo(r, n, t, n)
  {
    NumBound(m, n);
    ghost var x, y, mv := Num(a, n), Num(b, n), Num(m, n);
    var ext := Bnu.Add(r, a, b, n);
    ghost var s := Num(r, n);
    NumBound(r, n);
    var borrow := Bnu.Sub(t, r, m, n);
    NumBound(t, n);
    SumDecides(x, y, ext, s, borrow, Num(t, n), Pow(B, n), mv);
    Replace(r, t, n, ext == borrow);
  }

  lemma DifferenceDecides(x: nat, y: nat, d: nat, s: nat, c: nat, t: nat, p: nat, m: nat)
    requires x < m && y < m && m <= p && c <= 1 && d <= 1 && s < p && t < p
    requires s - d * p == x - y && t + c * p == s + m
    ensures (if d != 0 then t else s) == Rem(x - y, m)
  {
    RemIsMod(x - y, m);
    DivModUnique(x - y, m, if d != 0 then -1 else 0, if d != 0 then t else s);
  }

  /** `gs_mont_sub`. */
  method Sub(r: Ptr, a: Ptr, b: Ptr, t: Ptr, m: Ptr, n: nat)
    requires Setting(r, a, b, t, m, n) && Num(a, n) < Num(m, n) && Num(b, n) < Num(m, n)
    modifies r.a, t.a
    ensures Num(r, n) == Rem(old(Num(a, n)) - old(Num(b, n)), old(Num(m, n))) && OnlyTwo(r, n, t, n)
  {
    NumBound(m, n);
    ghost var x, y, mv := Num(a, n), Num(b, n), Num(m, n);
    var borrow := Bnu.Sub(r, a, b, n);
    ghost var s := Num(r, n);
    NumBound(r, n);
    var carry := Bnu.Add(t, r, m, n);
    NumBound(t, n);
    DifferenceDecides(x, y, borrow, s, carry, Num(t, n), Pow(B, n), mv);
    Replace(r, t, n, borrow != 0);
  }

  lemma NegationDecides(x: nat, d: nat, s: nat, c: nat, t: nat, p: nat, m: nat)
    requires x < m && m <= p && c <= 1 && d <= 1 && s < p && t < p
    requires s - d * p == m - x && t - c * p == s - m
    ensures (if d == c then t else s) == Rem(0 - x, m)
  {
    RemIsMod(0 - x, m);
    DivModUnique(0 - x, m, if x == 0 then 0 else -1, if d == c then t else s);
  }

  /** `gs_mont_neg`: the difference from the modulus, reduced again when the operand is zero. */
  method Neg(r: Ptr, a: Ptr, t: Ptr, m: Ptr, n: nat)
    requires Setting(r, a, a, t, m, n) && Num(a, n) < Num(m, n)
    modifies r.a, t.a
    ensures Num(r, n) == Rem(0 - old(Num(a, n)), old(Num(m, n))) && OnlyTwo(r, n, t, n)
  {
    NumBound(m, n);
    ghost var x, mv := Num(a, n), Num(m, n);
    var ext := Bnu.Sub(r, m, a, n);
    ghost var s := Num(r, n);
    NumBound(r, n);
    var borrow := Bnu.Sub(t, r, m, n);
    NumBound(t, n);
    NegationDecides(x, ext, s, borrow, Num(t, n), Pow(B, n), mv);
    Replace(r, t, n, ext == borrow);
  }

  lemma HalfIs(x: nat, m: nat, s: nat)
    requires x < m && m % 2 == 1 && s == x + (if x % 2 == 1 then m else 0)
    ensures s / 2 == Unscaled(x, 1, m)
  {
    var h := s / 2;
    assert s == 2 * h;
    CongIntro(s, x, if x % 2 == 1 then 1 else 0, m);
    assert Pow(2, 1) == 2 && h * 2 == s;
    UnscaledIs(h, x, 1, m);
  }

  /** The modulus under the mask of the low bit of the operand. */
  method MaskedModulus(t: Ptr, m: Ptr, n: nat, odd: bool)
    requires t.Has(n) && m.Has(n) && Apart(t, n, m, n)
    modifies t.a
    ensures Num(t, n) == (if odd then old(Num(m, n)) else 0) && Only(t, n)
  {
    for i: nat := 0 to n
      invariant Num(t, i) == (if odd then old(Num(m, i)) else 0) && Only(t, n)
      invariant forall j: nat :: j <= n ==> Num(m, j) == old(Num(m, j))
    {
      NumSnoc(m, i);
      Put(t, i, if odd then m.a[m.o + i] else 0);
      assert Num(m, i + 1) == old(Num(m, i + 1));
    }
  }

  /** An odd number plus the modulus, an even number as it is: one word longer. */
  method HalfSum(t: Ptr, a: Ptr, m: Ptr, n: nat)
    requires 0 < n && t.Has(n + 1) && a.Has(n) && m.Has(n) && Apart(t, n + 1, a, n) && Apart(t, n + 1, m, n)
    requires Num(a, n) < Num(m, n) && Num(m, n) % 2 == 1
    modifies t.a
    ensures Num(t, n + 1) / 2 == Unscaled(old(Num(a, n)), 1, old(Num(m, n))) < old(Num(m, n)) && Only(t, n + 1)
  {
    hide Val;
    ghost var x, mv := Num(a, n), Num(m, n);
    LowBit(a, n);
    MaskedModulus(t, m, n, a.a[a.o] % 2 == 1);
    var carry := Bnu.Add(t, t, a, n);
    CarryWord(carry);
    Commute(carry, Pow(B, n));
    Put(t, n, carry);
    HalfIs(x, mv, Num(t, n + 1));
  }

  /** Halved in place; the word on top becomes zero. */
  method HalfWords(t: Ptr, n: nat, ghost m: nat)
    requires 0 < n && t.Has(n + 1) && Num(t, n + 1) / 2 < m <= Pow(B, n)
    modifies t.a
    ensures Num(t, n) == old(Num(t, n + 1)) / 2 && t.a[t.o + n] == 0 && Only(t, n + 1)
  {
    hide Val;
    Lsr1(t, t, n + 1);
    NumSnoc(t, n);
    TopIsZero(Num(t, n), t.a[t.o + n], Pow(B, n));
  }

  /** `gs_mont_div2`: the sum takes one word more than the modulus, so the temporary is one word longer. */
  method Half(r: Ptr, a: Ptr, t: Ptr, m: Ptr, n: nat)
    requires 0 < n && t.Has(n + 1) && Setting(r, a, a, t, m, n) && Num(a, n) < Num(m, n) && Num(m, n) % 2 == 1
    requires Apart(t, n + 1, r, n) && Apart(t, n + 1, a, n) && Apart(t, n + 1, m, n)
    modifies r.a, t.a
    ensures Num(r, n) == Unscaled(old(Num(a, n)), 1, old(Num(m, n))) && OnlyTwo(r, n, t, n + 1) && t.a[t.o + n] == 0
  {
    hide Val;
    NumBound(m, n);
    HalfSum(t, a, m, n);
    HalfWords(t, n, Num(m, n));
    Copy(r, t, n);
  }

  lemma Commute(x: int, y: int)
    ensures x * y == y * x
  {
  }

  lemma CarryWord(c: nat)
    requires c <= 1
    ensures c < B
  {
    Pow2Even(CHUNK_BITS);
  }

  lemma TopIsZero(low: nat, top: nat, p: nat)
    requires low + p * top < p
    ensures top == 0 && p * top == 0
  {
    if top > 0 {
      MulMono(1, top, p);
    }
  }
}
