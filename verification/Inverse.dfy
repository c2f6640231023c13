/** Inversion with the engine: the almost inverse from pool storage, and the two finishers that remove the power of two. */
module Inverse {
  import opened Arith
  import opened Words
  import opened Bnu
  import opened Engine
  import opened Residues
  import opened Kaliski
  import AlmInverse

  /** The routine an inversion is given. */
  datatype Routine = Branching | ConstantTime

  /** Pool elements the routine takes. */
  function Elements(f: Routine): nat
  {
    if f.Branching? then 4 else 6
  }

  /** `r` is the inverse up to the power `k` of two. */
  ghost predicate UpTo(a: nat, r: nat, k: nat, m: nat)
  {
    r < m && Cong(a * r, Pow(2, k), m)
  }

  /** Either routine with its buffer. */
  method Almost(f: Routine, r: Ptr, a: Ptr, q: Ptr, m: Ptr, n: nat, bits: nat) returns (k: nat)
    requires 0 < n && q.Has(Elements(f) * n) && a.Has(n) && m.Has(n) && r.Has(n)
    requires Apart(q, Elements(f) * n, a, n) && Apart(q, Elements(f) * n, m, n)
    requires Apart(r, n, q, Elements(f) * n) && Apart(r, n, m, n)
    requires Num(m, n) % 2 == 1 && 1 < Num(m, n) < Pow(2, bits) && Num(a, n) < Num(m, n)
    modifies r.a, q.a
    ensures var x := Final(old(Num(a, n)), old(Num(m, n))); k == if x.u == 1 then x.k else 0
    ensures var x := Final(old(Num(a, n)), old(Num(m, n))); x.u == 1 ==> Num(r, n) == old(Num(m, n)) - Rem(x.t, old(Num(m, n)))
    ensures OnlyTwo(r, n, q, Elements(f) * n)
  {
    if f.Branching? {
      k := AlmInverse.Invert(r, a, q, m, n);
    } else {
      k := AlmInverse.InvertCt(r, a, q, m, n, bits);
    }
  }

  /** `alm_mont_inv` and `alm_mont_inv_ct`: zero stands for no inverse, and for too small a pool. */
  method AlmInv(e: ModEngine, f: Routine, r: Ptr, a: Ptr) returns (k: nat)
    requires e.Valid() && e.Result(r) && e.Operand(a) && Num(a, e.n) < e.M()
    modifies e`used, e.mem, r.a
    ensures e.Valid() && e.M() == old(e.M()) && e.Kept(r)
    ensures k != 0 <==> old(e.used) + (if f.Branching? then 4 else 6) <= e.poolLen && Coprime(old(Num(a, e.n)), old(e.M()))
    ensures k != 0 ==> k == Final(old(Num(a, e.n)), old(e.M())).k
    ensures k != 0 ==> Num(r, e.n) == old(e.M()) - Rem(Final(old(Num(a, e.n)), old(e.M())).t, old(e.M()))
  {
    hide Digits.Val, Rem, Final, Sound;
    e.Constants();
    assert Off(e.n, 4) == 4 * e.n && Off(e.n, 6) == 6 * e.n;
    AlmostInverse(Num(a, e.n), e.M());
    ghost var size, last := Elements(f) * e.n, e.End();
    var buf := e.PoolAlloc(Elements(f));
    if buf.None? {
      return 0;
    }
    k := Almost(f, r, a, buf.value, e.Modulus(), e.n, e.bits);
    e.PoolFree(Elements(f));
    e.Finished(r, buf.value, size, last);
  }

  /** Multiplying by a residue of `2^j` in the engine moves the power by `j` less the width. */
  lemma Rescaled(a: nat, r: nat, k: nat, c: nat, j: nat, w: nat, m: nat, r1: nat)
    requires m % 2 == 1 && UpTo(a, r, k, m) && Cong(c, Pow(2, j), m) && w <= k + j && r1 == Unscaled(r * c, w, m)
    ensures UpTo(a, r1, k + j - w, m)
  {
    var p, q := Pow(2, w), Pow(2, k + j - w);
    UnscaledIs(r1, r * c, w, m);
    CongMul(r1 * p, r * c, a, m);
    CongMul2(a * r, Pow(2, k), c, Pow(2, j), m);
    PowAdd(2, k, j);
    PowAdd(2, k + j - w, w);
    Assoc(a, r1, p);
    Assoc(a, r, c);
    CancelPow2(a * r1, q, w, m);
  }

  lemma ProductFits(x: nat, y: nat, m: nat, p: nat)
    requires x < m && y < p
    ensures x * y < m * p
  {
    MulMono(x, m, y);
    MulMono(y + 1, p, m);
    assert m * y == y * m && m * p == p * m;
  }

  /** One such multiplication. */
  method Rescale(e: ModEngine, r: Ptr, c: Ptr, ghost a: nat, ghost k: nat, ghost j: nat)
    requires e.Valid() && e.Result(r) && e.Operand(c) && e.used + 2 <= e.poolLen
    requires UpTo(a, Num(r, e.n), k, e.M()) && Cong(Num(c, e.n), Pow(2, j), e.M()) && Width(e.n) <= k + j
    modifies e`used, e.mem, r.a
    ensures e.Valid() && e.M() == old(e.M()) && e.Kept(r)
    ensures UpTo(a, Num(r, e.n), k + j - Width(e.n), e.M())
  {
    ghost var rv, cv, m := Num(r, e.n), Num(c, e.n), e.M();
    NumBound(c, e.n);
    ProductFits(rv, cv, m, Pow(B, e.n));
    var ok := e.MulSchool(r, r, c);
    Rescaled(a, rv, k, cv, j, Width(e.n), m, Num(r, e.n));
  }

  lemma BitBelow(bit: nat, n: nat)
    requires bit < Width(n)
    ensures Slot(bit) < n
  {
    OffIs(CHUNK_BITS, n);
    SlotBelow(bit, n);
  }

  /** The power of two that is still missing, in a pool element: one bit set after clearing, or written under masks. */
  method PowerElement(e: ModEngine, t: Ptr, bit: nat, masked: bool)
    requires e.Layout() && t.Has(e.n) && bit < Width(e.n)
    modifies t.a
    ensures Num(t, e.n) == Pow(2, bit) && Only(t, e.n)
  {
    BitBelow(bit, e.n);
    if masked {
      Pow2Ct(t, e.n, bit);
    } else {
      SetWord(t, e.n, 0);
      SetBit(t, e.n, bit);
    }
  }

  /** Multiplies by `2^bit`, written into a pool element first. */
  method TimesPower(e: ModEngine, r: Ptr, t: Ptr, bit: nat, masked: bool, ghost a: nat, ghost k: nat)
    requires e.Valid() && e.Result(r) && e.Result(t) && t.a == e.mem && Apart(t, e.n, r, e.n) && e.used + 2 <= e.poolLen
    requires UpTo(a, Num(r, e.n), k, e.M()) && bit < Width(e.n) <= k + bit
    modifies e`used, e.mem, r.a
    ensures e.Valid() && e.M() == old(e.M()) && e.KeptBut(r, t)
    ensures UpTo(a, Num(r, e.n), k + bit - Width(e.n), e.M())
  {
    hide Digits.Val, Rem, Off, Sound;
    PowerElement(e, t, bit, masked);
    SameNat(r.a, r.o, e.n);
    e.Unharmed(t);
    Rescale(e, r, t, a, k, bit);
  }

  /** The finishing multiplications of `gs_inv`: all of the power goes, in one or two steps. */
  method FinishPlain(e: ModEngine, r: Ptr, t: Ptr, k: nat, ghost a: nat)
    requires e.Valid() && e.Result(r) && e.Result(t) && t.a == e.mem && Apart(t, e.n, r, e.n) && e.used + 2 <= e.poolLen
    requires UpTo(a, Num(r, e.n), k, e.M()) && 0 < k <= 2 * Width(e.n)
    modifies e`used, e.mem, r.a
    ensures e.Valid() && e.M() == old(e.M()) && e.KeptBut(r, t)
    ensures UpTo(a, Num(r, e.n), 0, e.M())
  {
    hide Digits.Val, Rem, Off, Sound;
    var width, left := Width(e.n), k;
    if left > width {
      TimesPower(e, r, t, 0, false, a, left);
      left := left - width;
    }
    TimesPower(e, r, t, width - left, false, a, left);
  }

  /** A power of at most one radix grows by another, with a multiplication by R squared. */
  method EnterIfShort(e: ModEngine, r: Ptr, k: nat, ghost a: nat) returns (left: nat)
    requires e.Valid() && e.Result(r) && e.used + 2 <= e.poolLen && UpTo(a, Num(r, e.n), k, e.M()) && 0 < k <= 2 * Width(e.n)
    modifies e`used, e.mem, r.a
    ensures e.Valid() && e.M() == old(e.M()) && e.Kept(r)
    ensures Width(e.n) < left <= 2 * Width(e.n) && UpTo(a, Num(r, e.n), left, e.M())
  {
    hide Digits.Val, Rem, Off, Sound;
    var width := Width(e.n);
    left := k;
    if left <= width {
      e.Room(0);
      e.Constants();
      Rescale(e, r, e.R2(), a, left, width + width);
      left := left + width;
    }
  }

  /** The finishing multiplications of `gs_mont_inv`: what remains is the radix. */
  method FinishMont(e: ModEngine, r: Ptr, t: Ptr, k: nat, ghost a: nat)
    requires e.Valid() && e.Result(r) && e.Result(t) && t.a == e.mem && Apart(t, e.n, r, e.n) && e.used + 2 <= e.poolLen
    requires UpTo(a, Num(r, e.n), k, e.M()) && 0 < k <= 2 * Width(e.n)
    modifies e`used, e.mem, r.a
    ensures e.Valid() && e.M() == old(e.M()) && e.KeptBut(r, t)
    ensures UpTo(a, Num(r, e.n), Width(e.n), e.M())
  {
    hide Digits.Val, Rem, Off, Sound;
    var left := EnterIfShort(e, r, k, a);
    TimesPower(e, r, t, 2 * Width(e.n) - left, true, a, left);
  }

  /** What a successful inversion routine hands to a finisher. */
  lemma RoutineResult(a: nat, m: nat, r: nat, k: nat, bits: nat, n: nat)
    requires m % 2 == 1 && a < m && 1 < m < Pow(2, bits) && bits <= Width(n) && Coprime(a, m)
    requires k == Final(a, m).k && r == m - Rem(Final(a, m).t, m)
    ensures UpTo(a, r, k, m) && 0 < k <= 2 * Width(n)
  {
    AlmostInverse(a, m);
    TurnsBounded(a, m, bits);
  }

  /** An inverse modulo an odd number makes the two coprime, so `ok` below could not be more generous. */
  lemma InverseMakesCoprime(a: nat, r: int, m: nat)
    requires m > 0 && Cong(a * r, 1, m)
    ensures Coprime(a, m)
  {
    forall d: nat | Divides(d, a) && Divides(d, m)
      ensures d == 1
    {
      CongReduce(a * r, 1, m, d);
      MultipleMod(a, d, r);
      assert r * a == a * r;
      if d > 1 {
        CongSmall(0, 1, d);
      }
    }
  }

  /** `gs_inv`: the inverse, through either routine, exactly when there is one and the pool has the elements the routine takes. */
  method Inv(e: ModEngine, f: Routine, r: Ptr, a: Ptr) returns (ok: bool)
    requires e.Valid() && e.Result(r) && e.Operand(a) && Num(a, e.n) < e.M()
    modifies e`used, e.mem, r.a
    ensures e.Valid() && e.M() == old(e.M()) && e.Kept(r)
    ensures ok <==> old(e.used) + (if f.Branching? then 4 else 6) <= e.poolLen && Coprime(old(Num(a, e.n)), old(e.M()))
    ensures ok ==> Num(r, e.n) < e.M() && Cong(old(Num(a, e.n)) * Num(r, e.n), 1, e.M())
  {
    e.Constants();
    ghost var av, m := Num(a, e.n), e.M();
    var k := AlmInv(e, f, r, a);
    if k == 0 {
      return false;
    }
    RoutineResult(av, m, Num(r, e.n), k, e.bits, e.n);
    ok := RemovePower(e, r, k, false, av);
    assert Pow(2, 0) == 1;
  }

  /** `gs_mont_inv`: the Montgomery form of the inverse. */
  method MontInv(e: ModEngine, f: Routine, r: Ptr, a: Ptr) returns (ok: bool)
    requires e.Valid() && e.Result(r) && e.Operand(a) && Num(a, e.n) < e.M()
    modifies e`used, e.mem, r.a
    ensures e.Valid() && e.M() == old(e.M()) && e.Kept(r)
    ensures ok <==> old(e.used) + (if f.Branching? then 4 else 6) <= e.poolLen && Coprime(old(Num(a, e.n)), old(e.M()))
    ensures ok ==> Num(r, e.n) < e.M() && Cong(old(Num(a, e.n)) * Num(r, e.n), Pow(B, e.n), e.M())
  {
    e.Constants();
    ghost var av, m := Num(a, e.n), e.M();
    var k := AlmInv(e, f, r, a);
    if k == 0 {
      return false;
    }
    RoutineResult(av, m, Num(r, e.n), k, e.bits, e.n);
    ok := RemovePower(e, r, k, true, av);
    RadixWidth(e.n);
  }

  /** The part of both finishers after the inversion routine: one pool element, the multiplications, and its release. */
  method RemovePower(e: ModEngine, r: Ptr, k: nat, mont: bool, ghost a: nat) returns (ok: bool)
    requires e.Valid() && e.Result(r) && UpTo(a, Num(r, e.n), k, e.M()) && 0 < k <= 2 * Width(e.n) && e.used + 3 <= e.poolLen
    modifies e`used, e.mem, r.a
    ensures e.Valid() && e.M() == old(e.M()) && e.Kept(r) && ok
    ensures UpTo(a, Num(r, e.n), if mont then Width(e.n) else 0, e.M())
  {
    hide Digits.Val, Rem, Sound;
    e.Offsets();
    ghost var top, last := e.Top(), e.End();
    var t := e.PoolAlloc(1);
    if t.None? {
      return false;
    }
    if mont {
      FinishMont(e, r, t.value, k, a);
    } else {
      FinishPlain(e, r, t.value, k, a);
    }
    assert e.Untouched(r, top, last);
    label Removed:
    e.PoolFree(1);
    e.SameMemory@Removed();
    return true;
  }
}
