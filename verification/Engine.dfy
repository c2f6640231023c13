/** The modular engine: modulus, Montgomery constants and a stack of temporaries in one stretch of memory. */
module Engine {
  import opened Arith
  import opened Digits
  import opened Words
  import opened Division
  import ModArith
  import Reduction
  import Squaring
  import WordMont
  import opened Residues
  import opened Bnu

  /** Where element `j` of `n` words begins. */
  function Off(n: nat, j: nat): nat
    decreases j
  {
    if j == 0 then 0 else n + Off(n, j - 1)
  }

  lemma {:induction false} OffAdd(n: nat, j: nat, k: nat)
    ensures Off(n, j + k) == Off(n, j) + Off(n, k)
    decreases k
  {
    if k == 0 {
    } else {
      OffAdd(n, j, k - 1);
    }
  }

  /** The elements follow one another. */
  lemma {:induction false} OffIs(n: nat, j: nat)
    ensures Off(n, j) == n * j
    decreases j
  {
    if j == 0 {
    } else {
      OffIs(n, j - 1);
      assert n * j == n + n * (j - 1);
    }
  }

  /** Bits in `n` words. */
  function Width(n: nat): nat
  {
    Off(CHUNK_BITS, n)
  }

  lemma {:induction false} RadixWidth(n: nat)
    ensures Pow(B, n) == Pow(2, Width(n))
  {
    if n == 0 {
    } else {
      RadixWidth(n - 1);
      PowAdd(2, CHUNK_BITS, Width(n - 1));
    }
  }

  /** The reduced residue of a power of two. */
  ghost predicate IsPower(x: nat, e: nat, m: nat)
  {
    x < m && Cong(x, Pow(2, e), m)
  }

  /** `BITS_BNU_CHUNK`: words needed for a number of bits. */
  function WordsFor(bits: nat): nat
  {
    (bits + CHUNK_BITS - 1) / CHUNK_BITS
  }

  datatype Status = NoErr | LengthErr | BadModulusErr

  datatype Option<T> = None | Some(value: T)

  /** `gsModEngineGetSize`, counting words past the header: the least number of words that hold the bits, for each of the elements. */
  method GetSize(bits: int, numpe: int) returns (status: Status, size: nat)
    ensures status == if bits < 1 || numpe < 1 then LengthErr else NoErr
    ensures status == NoErr ==>
      var n := size / (3 + numpe); size == n * (3 + numpe) && bits <= CHUNK_BITS * n < bits + CHUNK_BITS
  {
    if bits < 1 || numpe < 1 {
      return LengthErr, 0;
    }
    var n := WordsFor(bits);
    EnoughWords(bits);
    SizeIs(n, numpe);
    return NoErr, n + n + n + n * numpe;
  }

  lemma SizeIs(n: nat, numpe: nat)
    ensures n + n + n + n * numpe == n * (3 + numpe) && n * (3 + numpe) / (3 + numpe) == n
  {
    DivModUnique(n * (3 + numpe), 3 + numpe, n, 0);
  }

  /** The number in the words of `s` from `lo` up to `hi`. */
  ghost function Part(s: seq<word>, lo: nat, hi: nat): nat
    requires lo <= hi <= |s|
  {
    Val(s[lo..hi], B)
  }

  /** An odd modulus above one with its factor and the residues of the radix and its square. */
  ghost predicate Sound(s: seq<word>, n: nat, bits: nat, k0: word)
    requires 0 < n && |s| == 3 * n
  {
    var m := Part(s, 0, n);
    && 1 < m < Pow(2, bits) && bits <= Width(n) && m % 2 == 1
    && Cong(k0 * Part(s, 0, 1) + 1, 0, B)
    && IsPower(Part(s, n, 2 * n), Width(n), m)
    && IsPower(Part(s, 2 * n, 3 * n), Width(n) + Width(n), m)
  }

  class ModEngine {
    /** Modulus, R, R squared, then the pool. */
    const mem: array<word>
    var bits: nat
    var n: nat
    var k0: word
    var poolLen: nat
    var used: nat

    constructor (storage: array<word>)
      ensures mem == storage
    {
      mem := storage;
      bits, n, k0, poolLen, used := 0, 0, 0, 0, 0;
    }

    ghost predicate Layout()
      reads this
    {
      0 < n && End() < mem.Length && used <= poolLen && Off(n, 3) == 3 * n <= End()
    }

    /** Where the engine ends; at least one word lies beyond. */
    function End(): nat
      reads this
    {
      Off(n, 3 + poolLen)
    }

    /** Modulus, R and R squared. */
    ghost function Head(): (s: seq<word>)
      requires Layout()
      reads this, mem
      ensures |s| == Off(n, 3)
    {
      mem[..Off(n, 3)]
    }

    /** An odd modulus above one with its factor and the residues of the radix and its square. */
    ghost predicate Valid()
      reads this, mem
    {
      Layout() && Sound(Head(), n, bits, k0)
    }

    ghost function M(): (m: nat)
      requires Layout()
      reads this, mem
      ensures Valid() ==> m > 1 && m % 2 == 1
    {
      assert Head()[0..n] == mem[0..n];
      Nat(mem, 0, n)
    }

    lemma Constants()
      requires Layout()
      ensures Valid() <==> (
        && 1 < M() < Pow(2, bits) && bits <= Width(n) && M() % 2 == 1
        && Cong(k0 * Nat(mem, 0, 1) + 1, 0, B)
        && IsPower(Nat(mem, n, n), Width(n), M())
        && IsPower(Nat(mem, 2 * n, n), Width(n) + Width(n), M()))
      ensures Off(n, 1) == n && Off(n, 2) == 2 * n && Off(n, 3) == 3 * n
    {
      var s := Head();
      assert s[0..n] == mem[0..n] && s[0..1] == mem[0..1];
      assert s[n..2 * n] == mem[n..n + n];
      assert s[2 * n..3 * n] == mem[2 * n..2 * n + n];
    }

    /** `MOD_BUFFER(pME, poolLenUsed)`: where the free part of the pool begins. */
    function Top(): nat
      reads this
    {
      Off(n, 3 + used)
    }

    lemma Room(req: nat)
      requires Layout() && used + req <= poolLen
      ensures Off(n, 3 + used + req) == Top() + Off(n, req) <= End() && Off(n, 3) <= Top()
    {
      OffAdd(n, 3, used);
      OffAdd(n, 3 + used, req);
      OffAdd(n, 3 + used + req, poolLen - used - req);
    }

    /** `gsModPoolAlloc`. */
    method PoolAlloc(req: nat) returns (p: Option<Ptr>)
      requires Layout()
      modifies this`used
      ensures p.None? ==> old(used) + req > poolLen && used == old(used)
      ensures p.Some? ==> old(used) + req <= poolLen && used == old(used) + req
      ensures p.Some? ==> p.value == Ptr(mem, old(Top())) && p.value.Has(Off(n, req)) && Off(n, 3) <= old(Top())
      ensures p.Some? ==> Top() == old(Top()) + Off(n, req) <= End()
    {
      if used + req > poolLen {
        return None;
      }
      Room(req);
      p := Some(Ptr(mem, Top()));
      OffAdd(n, 3 + used, req);
      used := used + req;
    }

    /** `gsModPoolFree`: freeing more than is used empties the pool. */
    method PoolFree(req: nat)
      requires Layout()
      modifies this`used
      ensures used == if req <= old(used) then old(used) - req else 0
    {
      var take := if used < req then used else req;
      used := used - take;
    }

    /** An operand lies outside the engine, among its constants, or in the part of the pool that is in use. */
    predicate Operand(p: Ptr)
      reads this
    {
      p.Has(n) && (p.a == mem ==> p.o + n <= Top())
    }

    /** A result may not overwrite the modulus and the constants. */
    predicate Result(p: Ptr)
      reads this
    {
      Operand(p) && (p.a == mem ==> Off(n, 3) <= p.o)
    }

    predicate Sources(r: Ptr, a: Ptr)
      reads this
    {
      Result(r) && Operand(a) && Source(r, a, n)
    }

    /** Every word in use, inside the engine and out, is as before, except the result. */
    twostate predicate Kept(r: Ptr)
      reads this, mem, r.a
    {
      KeptUpTo(r, End())
    }

    /** Words beyond the pool count from `end` on. */
    twostate predicate KeptUpTo(r: Ptr, new end: int)
      reads this, mem, r.a
    {
      used == old(used) && Untouched(r, Top(), end)
    }

    /** Nothing changed outside the free words from `top` to `end`, except the result. */
    twostate predicate Untouched(r: Ptr, new top: int, new end: int)
      reads mem, r.a, this`n
    {
      && (forall i :: 0 <= i < mem.Length && (i < top || end <= i) && Beyond(mem, i, r, n) ==> mem[i] == old(mem[i]))
      && (r.a != mem ==> forall i :: 0 <= i < r.a.Length && Beyond(r.a, i, r, n) ==> r.a[i] == old(r.a[i]))
    }

    lemma Offsets()
      ensures Off(n, 1) == n && Off(n, 2) == 2 * n && Off(n, 3) == 3 * n
    {
    }

    /** Writing only the result and the free part of the pool leaves the engine valid and everything in use unchanged. */
    twostate lemma Restored(r: Ptr, new end: int)
      requires old(Valid()) && old(Result(r)) && KeptUpTo(r, end)
      requires n == old(n) && bits == old(bits) && k0 == old(k0) && poolLen == old(poolLen)
      ensures Valid() && M() == old(M())
    {
      Room(0);
      Offsets();
      assert Head() == old(Head());
      SameNat(mem, 0, n);
    }

    /** Releasing pool elements leaves the engine valid. */
    twostate lemma SameMemory()
      requires old(Valid()) && mem[..] == old(mem[..]) && used <= poolLen
      requires n == old(n) && bits == old(bits) && k0 == old(k0) && poolLen == old(poolLen)
      ensures Valid() && M() == old(M())
    {
      assert Head() == mem[..][..Off(n, 3)] == old(Head());
      assert mem[0..n] == mem[..][..n] == old(mem[0..n]);
    }

    /** An operand apart from what was written. */
    twostate lemma OperandKept(new t: Ptr, a: Ptr)
      requires n == old(n) && poolLen == old(poolLen) && old(Layout()) && old(Operand(a)) && t.a == mem && Kept(t) && Apart(t, n, a, n)
      requires a.a == mem || unchanged(a.a)
      ensures Num(a, n) == old(Num(a, n))
    {
      SameNat(a.a, a.o, n);
    }

    /** Writing the result and a temporary from the free part of the pool does just that. */
    twostate lemma Finished(r: Ptr, new t: Ptr, new k: nat, new end: int)
      requires n == old(n) && bits == old(bits) && k0 == old(k0) && poolLen == old(poolLen) && used == old(used)
      requires old(Valid()) && old(Result(r)) && t.a == mem && old(Top()) <= t.o && t.o + k <= end && OnlyTwo(r, n, t, k)
      ensures Valid() && M() == old(M()) && KeptUpTo(r, end)
    {
      Restored(r, end);
    }

    /** Writing a pool element leaves the engine valid. */
    twostate lemma Unharmed(t: Ptr)
      requires old(Valid()) && old(Result(t)) && Only(t, n) && t.a == mem
      requires n == old(n) && bits == old(bits) && k0 == old(k0) && poolLen == old(poolLen) && used == old(used)
      ensures Valid() && M() == old(M())
    {
      Room(0);
      Offsets();
      assert Head() == old(Head());
    }

    function Modulus(): Ptr
    {
      Ptr(mem, 0)
    }

    function R2(): Ptr
      reads this
    {
      Ptr(mem, Off(n, 2))
    }

    /** A reduced operand. */
    ghost predicate Reduced(a: Ptr)
      requires Layout()
      reads this, mem, a.a
    {
      a.Has(n) && Num(a, n) < M()
    }

    /** `gs_mont_add`. */
    method Add(r: Ptr, a: Ptr, b: Ptr) returns (ok: bool)
      requires Valid() && Sources(r, a) && Sources(r, b) && (used + 1 <= poolLen ==> Reduced(a) && Reduced(b))
      modifies this`used, mem, r.a
      ensures Valid() && M() == old(M()) && Kept(r) && (ok <==> old(used) + 1 <= poolLen)
      ensures Num(r, n) == if ok then Rem(old(Num(a, n)) + old(Num(b, n)), old(M())) else old(Num(r, n))
    {
      hide Val;
      Constants();
      ghost var last, sum := End(), Rem(Num(a, n) + Num(b, n), M());
      var buf := PoolAlloc(1);
      if buf.None? {
        return false;
      }
      ModArith.Add(r, a, b, buf.value, Modulus(), n);
      assert Num(r, n) == sum;
      PoolFree(1);
      Finished(r, buf.value, n, last);
      return true;
    }

    /** `gs_mont_sub`. */
    method Sub(r: Ptr, a: Ptr, b: Ptr) returns (ok: bool)
      requires Valid() && Sources(r, a) && Sources(r, b) && Reduced(a) && Reduced(b)
      modifies this`used, mem, r.a
      ensures Valid() && M() == old(M()) && Kept(r) && (ok <==> old(used) + 1 <= poolLen)
      ensures Num(r, n) == if ok then Rem(old(Num(a, n)) - old(Num(b, n)), old(M())) else old(Num(r, n))
    {
      hide Val;
      Constants();
      ghost var last := End();
      var buf := PoolAlloc(1);
      if buf.None? {
        return false;
      }
      ModArith.Sub(r, a, b, buf.value, Modulus(), n);
      PoolFree(1);
      Finished(r, buf.value, n, last);
      return true;
    }

    /** `gs_mont_neg`. */
    method Neg(r: Ptr, a: Ptr) returns (ok: bool)
      requires Valid() && Sources(r, a) && Reduced(a)
      modifies this`used, mem, r.a
      ensures Valid() && M() == old(M()) && Kept(r) && (ok <==> old(used) + 1 <= poolLen)
      ensures Num(r, n) == if ok then Rem(0 - old(Num(a, n)), old(M())) else old(Num(r, n))
    {
      hide Val;
      Constants();
      ghost var last := End();
      var buf := PoolAlloc(1);
      if buf.None? {
        return false;
      }
      ModArith.Neg(r, a, buf.value, Modulus(), n);
      PoolFree(1);
      Finished(r, buf.value, n, last);
      return true;
    }

    /** Where the words of one element and the word after it end. */
    function HalfEnd(): nat
      reads this
    {
      if used + 1 == poolLen then End() + 1 else End()
    }

    lemma HalfRoom()
      requires Layout() && used + 1 <= poolLen
      ensures Top() + n + 1 <= HalfEnd() <= mem.Length && (used + 1 == poolLen ==> Top() + n == End())
    {
      Offsets();
      Room(1);
      if used + 2 <= poolLen {
        Room(2);
      }
    }

    /** The halving itself, in the words of one element and the word after it. */
    method HalfWith(r: Ptr, a: Ptr, t: Ptr)
      requires Valid() && Sources(r, a) && Reduced(a) && t.a == mem && 3 * n <= t.o && t.Has(n + 1)
      requires Apart(t, n + 1, a, n) && Apart(t, n + 1, r, n)
      modifies mem, r.a
      ensures OnlyTwo(r, n, t, n + 1) && Num(r, n) == Unscaled(old(Num(a, n)), 1, old(M())) && mem[t.o + n] == 0
    {
      Constants();
      ModArith.Half(r, a, t, Modulus(), n);
    }

    /**
     * `gs_mont_div2`: one element is taken, but the sum needs a word more. It is part of the next element if that one is free too. With
     * exactly one free element it is the word beyond the engine, which is left zero.
     */
    method Half(r: Ptr, a: Ptr) returns (ok: bool)
      requires Valid() && Sources(r, a) && Reduced(a)
      modifies this`used, mem, r.a
      ensures Valid() && M() == old(M()) && (ok <==> old(used) + 1 <= poolLen)
      ensures Num(r, n) == if ok then Unscaled(old(Num(a, n)), 1, old(M())) else old(Num(r, n))
      ensures KeptUpTo(r, old(if used + 1 == poolLen then End() + 1 else End())) && (ok && used + 1 == poolLen ==> mem[End()] == 0)
    {
      hide Val, Off, Sound;
      ghost var end := HalfEnd();
      if used + 1 <= poolLen {
        HalfRoom();
      }
      Offsets();
      var buf := PoolAlloc(1);
      if buf.None? {
        return false;
      }
      HalfWith(r, a, buf.value);
      PoolFree(1);
      Finished(r, buf.value, n + 1, end);
      return true;
    }

    /** `gs_mont_mul2`. */
    method Twice(r: Ptr, a: Ptr) returns (ok: bool)
      requires Valid() && Sources(r, a) && Reduced(a)
      modifies this`used, mem, r.a
      ensures Valid() && M() == old(M()) && Kept(r) && (ok <==> old(used) + 1 <= poolLen)
      ensures Num(r, n) == if ok then Rem(2 * old(Num(a, n)), old(M())) else old(Num(r, n))
    {
      ok := Add(r, a, a);
    }

    /** Every word in use is as before, except the result and a temporary. */
    twostate predicate KeptBut(r: Ptr, t: Ptr)
      reads this, mem, r.a
    {
      && used == old(used)
      && (forall i :: 0 <= i < mem.Length && (i < Top() || End() <= i) && Beyond(mem, i, r, n) && Beyond(mem, i, t, n) ==>
            mem[i] == old(mem[i]))
      && (r.a != mem ==> forall i :: 0 <= i < r.a.Length && Beyond(r.a, i, r, n) ==> r.a[i] == old(r.a[i]))
    }

    /** Only the words from `lo` to `end` changed. */
    twostate predicate OnlyFrom(new lo: int, new end: int)
      reads mem
    {
      forall i :: 0 <= i < mem.Length && (i < lo || end <= i) ==> mem[i] == old(mem[i])
    }

    /** The first addition, into a temporary on top of the pool: neither the operand nor the result-to-be is touched. */
    method AddInto(t: Ptr, a: Ptr, r: Ptr) returns (ok: bool)
      requires Valid() && Sources(r, a) && Reduced(a) && Result(t) && t.a == mem && t.o + n == Top()
      requires Apart(t, n, a, n) && Apart(t, n, r, n)
      modifies this`used, mem
      ensures Valid() && M() == old(M()) && used == old(used) && OnlyFrom(t.o, End()) && (ok <==> used + 1 <= poolLen)
      ensures Num(a, n) == old(Num(a, n)) && Num(r, n) == old(Num(r, n))
      ensures ok ==> Num(t, n) == Rem(old(Num(a, n)) + old(Num(a, n)), M()) < M()
    {
      hide Val;
      Room(0);
      RemIsMod(Num(a, n) + Num(a, n), M());
      ok := Add(t, a, a);
      OperandKept(t, a);
      OperandKept(t, r);
    }

    /** Two additions through a temporary on top of the pool: neither happens without a free element. */
    method AddThrice(r: Ptr, a: Ptr, t: Ptr)
      requires Valid() && Sources(r, a) && Reduced(a) && Result(t) && t.a == mem && t.o + n == Top()
      requires Apart(t, n, a, n) && Apart(t, n, r, n)
      modifies this`used, mem, r.a
      ensures Valid() && M() == old(M()) && used == old(used) && Untouched(r, t.o, End())
      ensures Num(r, n) == if used + 1 <= poolLen then Rem(3 * old(Num(a, n)), old(M())) else old(Num(r, n))
    {
      hide Val, Rem, Off, Sound;
      Room(0);
      ghost var x, m, y := Num(a, n), M(), Num(r, n);
      ghost var three := Rem(3 * x, m);
      SumOfThree(x, m);
      var first := AddInto(t, a, r);
      ghost var sum := Num(a, n) + Num(t, n);
      assert first ==> sum == x + Rem(x + x, m);
      var second := Add(r, a, t);
      assert second ==> Num(r, n) == Rem(sum, m);
    }

    /**
     * `gs_mont_mul3`: two additions, the first into a temporary. With one free element the inner additions fail unnoticed: the call
     * reports success and leaves the result as it was. It triples exactly when it has the two elements it asks for.
     */
    method Triple(r: Ptr, a: Ptr) returns (ok: bool)
      requires Valid() && Sources(r, a) && Reduced(a)
      modifies this`used, mem, r.a
      ensures Valid() && M() == old(M()) && Kept(r) && (ok <==> old(used) + 1 <= poolLen)
      ensures Num(r, n) == if old(used) + 2 <= poolLen then Rem(3 * old(Num(a, n)), old(M())) else old(Num(r, n))
    {
      hide Val;
      Constants();
      ghost var top, last, enough, three := Top(), End(), used + 2 <= poolLen, Rem(3 * Num(a, n), M());
      var buf := PoolAlloc(1);
      if buf.None? {
        return false;
      }
      AddThrice(r, a, buf.value);
      assert Untouched(r, top, last) && Num(r, n) == if enough then three else old(Num(r, n));
      label Tripled:
      PoolFree(1);
      SameMemory@Tripled();
      return true;
    }

    /** A product the Montgomery reduction can take: one operand below the modulus is enough. */
    ghost predicate Fits(x: int)
      requires Layout()
      reads this, mem
    {
      x < M() * Pow(B, n)
    }

    /** `gs_mont_mul`, interleaved. */
    method Mul(r: Ptr, a: Ptr, b: Ptr) returns (ok: bool)
      requires Valid() && Result(r) && Operand(a) && Operand(b) && Fits(Num(a, n) * Num(b, n))
      modifies this`used, mem, r.a
      ensures Valid() && M() == old(M()) && Kept(r) && (ok <==> old(used) + 1 <= poolLen)
      ensures ok ==> Num(r, n) == Unscaled(old(Num(a, n)) * old(Num(b, n)), Width(n), old(M()))
      ensures !ok ==> Num(r, n) == old(Num(r, n))
    {
      hide Val;
      Constants();
      ghost var last := End();
      ghost var x: int, m := Num(a, n) * Num(b, n), M();
      var buf := PoolAlloc(1);
      if buf.None? {
        return false;
      }
      WordMont.Mul(r, a, b, buf.value, Modulus(), n, k0);
      ProductIs(Num(r, n), x, n, m);
      PoolFree(1);
      Finished(r, buf.value, n, last);
      return true;
    }

    /** `gs_mont_mul` by schoolbook product and reduction. */
    method MulSchool(r: Ptr, a: Ptr, b: Ptr) returns (ok: bool)
      requires Valid() && Result(r) && Operand(a) && Operand(b) && Fits(Num(a, n) * Num(b, n))
      modifies this`used, mem, r.a
      ensures Valid() && M() == old(M()) && Kept(r) && (ok <==> old(used) + 2 <= poolLen)
      ensures ok ==> Num(r, n) == Unscaled(old(Num(a, n)) * old(Num(b, n)), Width(n), old(M()))
      ensures !ok ==> Num(r, n) == old(Num(r, n))
    {
      hide Val;
      Constants();
      ghost var last := End();
      ghost var x: int, m := Num(a, n) * Num(b, n), M();
      var product := PoolAlloc(2);
      if product.None? {
        return false;
      }
      WordMont.MulThenRed(r, a, b, product.value, Modulus(), n, k0);
      ProductIs(Num(r, n), x, n, m);
      PoolFree(2);
      Finished(r, product.value, 2 * n, last);
      return true;
    }

    /** `gs_mont_sqr`. */
    method Sqr(r: Ptr, a: Ptr) returns (ok: bool)
      requires Valid() && Result(r) && Operand(a) && Fits(Num(a, n) * Num(a, n))
      modifies this`used, mem, r.a
      ensures Valid() && M() == old(M()) && Kept(r) && (ok <==> old(used) + 2 <= poolLen)
      ensures ok ==> Num(r, n) == Unscaled(old(Num(a, n)) * old(Num(a, n)), Width(n), old(M()))
      ensures !ok ==> Num(r, n) == old(Num(r, n))
    {
      hide Val;
      Constants();
      ghost var last := End();
      ghost var x: int, m := Num(a, n) * Num(a, n), M();
      var square := PoolAlloc(2);
      if square.None? {
        return false;
      }
      Squaring.SqrThenRed(r, a, square.value, Modulus(), n, k0);
      ProductIs(Num(r, n), x, n, m);
      PoolFree(2);
      Finished(r, square.value, 2 * n, last);
      return true;
    }

    /** `gs_mont_encode`: any operand of `n` words, reduced or not. */
    method Encode(r: Ptr, a: Ptr) returns (ok: bool)
      requires Valid() && Result(r) && Operand(a)
      modifies this`used, mem, r.a
      ensures Valid() && M() == old(M()) && Kept(r) && (ok <==> old(used) + 2 <= poolLen)
      ensures Num(r, n) == if ok then Scaled(old(Num(a, n)), Width(n), old(M())) else old(Num(r, n))
    {
      hide Val;
      Constants();
      Room(0);
      NumBound(a, n);
      EncodingFits(Num(a, n), Num(R2(), n), n, M());
      EncodingIs(Num(a, n), Num(R2(), n), n, M());
      ok := MulSchool(r, a, R2());
    }

    /** `gs_mont_decode`. */
    method Decode(r: Ptr, a: Ptr) returns (ok: bool)
      requires Valid() && Result(r) && Operand(a)
      modifies this`used, mem, r.a
      ensures Valid() && M() == old(M()) && Kept(r) && (ok <==> old(used) + 2 <= poolLen)
      ensures Num(r, n) == if ok then Unscaled(old(Num(a, n)), Width(n), old(M())) else old(Num(r, n))
    {
      hide Val;
      Constants();
      ghost var last := End();
      ghost var x, m := Num(a, n), M();
      var product := PoolAlloc(2);
      if product.None? {
        return false;
      }
      WordMont.ExtendThenRed(r, a, product.value, Modulus(), n, k0);
      ProductIs(Num(r, n), x, n, m);
      PoolFree(2);
      Finished(r, product.value, 2 * n, last);
      return true;
    }

    /** Nothing beyond the first `end` words changed. */
    twostate predicate Below(new end: int)
      reads mem
    {
      forall i :: 0 <= i < mem.Length && end <= i ==> mem[i] == old(mem[i])
    }

    /** Nothing beyond the engine changed, or, if reducing the square of the radix overran it, half a word was cleared. */
    twostate predicate Contained(new overran: bool)
      reads this, mem
    {
      var end := End();
      if overran && end < mem.Length then Below(end + 1) && mem[end] == Hi(old(mem[end])) * H else Below(end)
    }

    /** The radix modulo the modulus: a one just above R, in what will be the first word of R squared, reduced back into R. */
    method InitR()
      requires Layout() && poolLen > 0 && M() > 0
      modifies mem
      ensures M() == old(M()) && Nat(mem, 0, 1) == old(Nat(mem, 0, 1))
      ensures Nat(mem, n, n) == Pow(B, n) % M() && Below(End())
    {
      Offsets();
      OffAdd(n, 3, poolLen);
      var r := Ptr(mem, n);
      SetWord(r, n, 0);
      CarryFits();
      Put(r, n, 1);
      ghost var m := M();
      NoSpill(n, m);
      Reduction.ReduceScaled(r, n + 1, Modulus(), n);
    }

    /** R moved up by `n` words, into the first pool element. */
    method Raise()
      requires Layout() && poolLen > 0
      modifies mem
      ensures var r2 := Ptr(mem, 2 * n);
              r2.Has(2 * n) && Num(r2, n) == 0 && Num(r2, 2 * n) == Pow(B, n) * old(Nat(mem, n, n)) && Only(r2, 2 * n)
    {
      hide Val;
      Offsets();
      OffAdd(n, 3, poolLen);
      OffAdd(n, 1, poolLen - 1);
      var r2 := Ptr(mem, 2 * n);
      SetWord(r2, n, 0);
      Copy(r2.At(n), Ptr(mem, n), n);
      NumSplit(r2, n, 2 * n);
    }

    /** The word above the raised radix: the first beyond the engine if the pool has one element only. */
    lemma AboveRaised()
      requires Layout() && poolLen > 0
      ensures 4 * n + (if poolLen == 1 then 0 else 1) <= End() && (poolLen == 1 ==> 4 * n == End()) && Off(n, 2) == 2 * n
    {
      Offsets();
      OffAdd(n, 3, poolLen);
      OffAdd(n, 1, poolLen - 1);
    }

    /** R squared: the raised radix reduced. The division may clear half a word above it. */
    method InitR2()
      requires Layout() && poolLen > 0 && M() > 0 && Nat(mem, n, n) == Pow(B, n) % M()
      modifies mem
      ensures M() == old(M()) && Nat(mem, 0, 1) == old(Nat(mem, 0, 1)) && Nat(mem, n, n) == old(Nat(mem, n, n))
      ensures Nat(mem, Off(n, 2), n) == (Pow(B, n) * (Pow(B, n) % M())) % M()
      ensures Contained(poolLen == 1 && Overruns(M(), n))
    {
      AboveRaised();
      var r2 := Ptr(mem, 2 * n);
      ghost var x, m := Nat(mem, n, n), M();
      NumBound(Modulus(), n);
      SpillIs(x, n, m);
      Raise();
      Reduction.ReduceScaled(r2, 2 * n, Modulus(), n);
    }

    /** The modulus, its factor and the two residues. */
    method LoadModulus(source: array<digit>)
      requires Layout() && poolLen > 0 && 0 < source.Length <= 2 * n && source[0] % 2 == 1
      modifies mem, this`k0
      ensures M() == old(Dig(source, 0, source.Length)) && M() % 2 == 1 && Cong(k0 * Nat(mem, 0, 1) + 1, 0, B)
      ensures IsPower(Nat(mem, n, n), Width(n), M()) && IsPower(Nat(mem, Off(n, 2), n), Width(n) + Width(n), M())
      ensures Contained(poolLen == 1 && Overruns(M(), n))
    {
      hide Val;
      Offsets();
      Reduction.DigParity(source, source.Length);
      Reduction.ExpandDigits(Modulus(), n, source);
      NumOne(Modulus());
      LowBit(Modulus(), n);
      k0 := WordMont.Factor(mem[0]);
      InitR();
      InitR2();
      RadixPowers(n, M());
    }

    /** The layout for a size. */
    method SetUp(modBits: nat, numpe: nat)
      requires 0 < modBits && 0 < numpe && WordsFor(modBits) * (3 + numpe) < mem.Length
      modifies this
      ensures Layout() && n == WordsFor(modBits) && bits == modBits && poolLen == numpe && used == 0
    {
      EnoughWords(modBits);
      bits, n, k0, poolLen, used := modBits, WordsFor(modBits), 0, numpe, 0;
      OffAdd(n, 3, poolLen);
      OffIs(n, 3 + poolLen);
    }

    /** The engine of a modulus that fits its size. */
    lemma Ready(modBits: nat)
      requires Layout() && n == WordsFor(modBits) && bits == modBits && 0 < modBits && M() % 2 == 1
      requires Cong(k0 * Nat(mem, 0, 1) + 1, 0, B)
      requires IsPower(Nat(mem, n, n), Width(n), M()) && IsPower(Nat(mem, Off(n, 2), n), Width(n) + Width(n), M())
      ensures 1 < M() < Pow(2, bits) ==> Valid()
    {
      EnoughWords(modBits);
      Constants();
    }

    /**
     * `gsModEngineInit` on storage of at least the size `GetSize` reports. Without a modulus only the layout is set up. An odd modulus
     * of more than one that fits its stated size leaves a valid engine.
     */
    method Init(modulus: Option<array<digit>>, modBits: int, numpe: int) returns (status: Status)
      requires modBits >= 1 && numpe >= 1 ==> mem.Length > WordsFor(modBits) * (3 + numpe)
      requires modulus.Some? && modBits >= 1 ==> modBits <= HALF_BITS * modulus.value.Length < modBits + HALF_BITS
      modifies this, mem
      ensures status == if modBits < 1 then LengthErr
                        else if modulus.Some? && modulus.value.Length > 0 && old(modulus.value[0]) % 2 == 0 then BadModulusErr
                        else if numpe < 1 then LengthErr else NoErr
      ensures status != NoErr ==> unchanged(this) && unchanged(mem)
      ensures status == NoErr ==> Layout() && modBits <= CHUNK_BITS * n < modBits + CHUNK_BITS
      ensures status == NoErr ==> bits == modBits && poolLen == numpe && used == 0
      ensures status == NoErr && modulus.Some? ==> M() == old(Dig(modulus.value, 0, modulus.value.Length))
      ensures status == NoErr && modulus.Some? && 1 < M() < Pow(2, bits) ==> Valid()
      ensures status == NoErr ==> Contained(modulus.Some? && numpe == 1 && Overruns(M(), n))
    {
      if modBits < 1 {
        return LengthErr;
      }
      EnoughWords(modBits);
      if modulus.Some? {
        HalvesFit(WordsFor(modBits), modulus.value.Length, HALF_BITS, modBits);
      }
      if modulus.Some? && modulus.value[0] % 2 == 0 {
        return BadModulusErr;
      }
      if numpe < 1 {
        return LengthErr;
      }
      SetUp(modBits, numpe);
      if modulus.Some? {
        LoadModulus(modulus.value);
        Ready(modBits);
      }
      return NoErr;
    }

    lemma CarryFits()
      ensures 1 < B
    {
      Pow2Even(CHUNK_BITS);
    }
  }

  lemma SumOfThree(x: nat, m: nat)
    requires m > 0
    ensures Rem(x + Rem(x + x, m), m) == Rem(3 * x, m)
  {
    RemIsMod(x + x, m);
    CongMod(x + x, m);
    CongAdd(x, x, (x + x) % m, x + x, m);
  }

  lemma ProductIs(r: nat, x: int, n: nat, m: nat)
    requires m % 2 == 1 && r < m && Cong(r * Pow(B, n), x, m)
    ensures r == Unscaled(x, Width(n), m)
  {
    RadixWidth(n);
    UnscaledIs(r, x, Width(n), m);
  }

  lemma EncodingFits(a: nat, r2: nat, n: nat, m: nat)
    requires a < Pow(B, n) && r2 < m
    ensures a * r2 < m * Pow(B, n)
  {
    var p := Pow(B, n);
    MulMono(a, p, r2);
    MulMono(r2 + 1, m, p);
    assert p * r2 == r2 * p;
  }

  /** The Montgomery product with the square of the radix is the encoding. */
  lemma EncodingIs(a: nat, r2: nat, n: nat, m: nat)
    requires m % 2 == 1 && IsPower(r2, Width(n) + Width(n), m)
    ensures Unscaled(a * r2, Width(n), m) == Scaled(a, Width(n), m)
  {
    var p, e := Pow(2, Width(n)), Scaled(a, Width(n), m);
    PowAdd(2, Width(n), Width(n));
    CongMul(r2, p * p, a, m);
    CongMod(a * p, m);
    CongMul(e, a * p, p, m);
    Assoc(a, p, p);
    UnscaledIs(e, a * r2, Width(n), m);
  }

  /** The residues `Init` computes are those of the radix and of its square. */
  lemma RadixPowers(n: nat, m: nat)
    requires m > 0
    ensures IsPower(Pow(B, n) % m, Width(n), m) && IsPower((Pow(B, n) * (Pow(B, n) % m)) % m, Width(n) + Width(n), m)
  {
    var p := Pow(B, n);
    RadixWidth(n);
    CongMod(p, m);
    CongMul(p % m, p, p, m);
    CongMod(p * (p % m), m);
    PowAdd(2, Width(n), Width(n));
  }

  /** Reducing the square of the radix needs half a word above it: the modulus is no half word, and the radix leaves a large residue. */
  ghost predicate Overruns(m: nat, n: nat)
  {
    0 < n && 0 < m && H <= m && Pow(H, 2 * n - 1) <= Pow(B, n) % m
  }

  lemma NoSpill(n: nat, m: nat)
    ensures !Spills(Pow(B, n), m, 2 * (n + 1))
  {
    HalfBase();
    Reduction.HalfPowers(n);
    assert Pow(H, 2 * n + 1) == H * Pow(H, 2 * n);
    MulMono(2, H, Pow(H, 2 * n));
  }

  lemma SpillIs(x: nat, n: nat, m: nat)
    requires 0 < n && 0 < m < Pow(B, n) && x == Pow(B, n) % m
    ensures Spills(Pow(B, n) * x, m, 2 * (2 * n)) <==> Overruns(m, n)
  {
    HalfBase();
    Reduction.HalfPowers(n);
    PowAdd(H, 2 * n, 2 * n - 1);
    PowMono(H, 2 * n, 4 * n);
    assert 2 * (2 * n) - 1 == 2 * n + (2 * n - 1);
    SameOrder(Pow(B, n), Pow(H, 2 * n - 1), x);
  }

  lemma SameOrder(p: nat, q: nat, x: nat)
    requires 0 < p
    ensures p * q <= p * x <==> q <= x
  {
    assert q * p == p * q && x * p == p * x;
    if q <= x {
      MulMono(q, x, p);
    } else {
      MulMono(x + 1, q, p);
      assert (x + 1) * p == x * p + p;
    }
  }

  /** Such a modulus of one word. */
  lemma OverrunExample()
    requires HALF_BITS > 1
    ensures H < B && var m := B - H - 1; 1 < m && m % 2 == 1 && Overruns(m, 1)
  {
    HalfBase();
    PowMono(2, 2, HALF_BITS);
    assert Pow(2, 2) == 4;
    MulMono(4, H, H);
    Pow2Even(CHUNK_BITS);
    Pow2Even(HALF_BITS);
    OddDifference(B, H);
    LeavesRest(B, B - H - 1, H + 1);
    PowOne(B);
    PowOne(H);
  }

  lemma OddDifference(x: int, y: int)
    requires x % 2 == 0 && y % 2 == 0
    ensures (x - y - 1) % 2 == 1
  {
  }

  lemma LeavesRest(b: nat, m: nat, r: nat)
    requires b == m + r && r < m
    ensures b % m == r
  {
    DivModUnique(b, m, 1, r);
  }

  lemma PowOne(b: nat)
    ensures Pow(b, 1) == b
  {
  }

  /** The words set aside for a size are the fewest that hold that many bits. */
  lemma EnoughWords(bits: nat)
    requires bits > 0
    ensures WordsFor(bits) > 0 && bits <= Width(WordsFor(bits)) && bits <= CHUNK_BITS * WordsFor(bits) < bits + CHUNK_BITS
  {
    OffIs(CHUNK_BITS, WordsFor(bits));
    Rounded(bits, CHUNK_BITS);
  }

  lemma Rounded(bits: nat, size: nat)
    requires 0 < bits && 0 < size
    ensures var q := (bits + size - 1) / size; 0 < q && bits <= size * q < bits + size
  {
    var t, q := bits + size - 1, (bits + size - 1) / size;
    assert t == q * size + t % size && q * size == size * q;
  }

  lemma HalvesFit(words: nat, halves: nat, size: nat, bits: nat)
    requires bits <= (2 * size) * words && 0 < bits <= size * halves < bits + size
    ensures 0 < halves <= 2 * words
  {
    Assoc(2, size, words);
    Exchange(2, size, words);
    assert halves * size == size * halves && (2 * words + 1) * size == size * (2 * words) + size;
    MulCancelLt(halves, 2 * words + 1, size);
  }
}
