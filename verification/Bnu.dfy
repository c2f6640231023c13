/** Big numbers in place: stretches of word arrays, and the carry chains over them. */
module Bnu {
  import opened Arith
  import opened Digits
  import opened Words

  /** A pointer into an array of words. */
  datatype Ptr = Ptr(a: array<word>, o: nat)
  {
    function At(k: nat): Ptr
    {
      Ptr(a, o + k)
    }

    predicate Has(n: nat)
    {
      o + n <= a.Length
    }
  }

  /** The number in the `n` words of `a` from `o` on. */
  ghost function Nat(a: array<word>, o: nat, n: nat): nat
    requires o + n <= a.Length
    reads a
  {
    Val(a[o..o + n], B)
  }

  ghost function Num(p: Ptr, n: nat): nat
    requires p.Has(n)
    reads p.a
  {
    Nat(p.a, p.o, n)
  }

  /** Two stretches share no word. */
  predicate Apart(p: Ptr, n: nat, q: Ptr, k: nat)
  {
    p.a != q.a || p.o + n <= q.o || q.o + k <= p.o
  }

  /** A source that a word-by-word operation into `r` may read: `r` itself or storage apart from it. */
  predicate Source(r: Ptr, a: Ptr, n: nat)
  {
    a.Has(n) && (r == a || Apart(r, n, a, n))
  }

  /** A word outside a stretch. */
  predicate Beyond(a: array<word>, i: int, p: Ptr, n: nat)
  {
    a != p.a || i < p.o || p.o + n <= i
  }

  /** Nothing but the `n` words at `p` changed: no other word, and no number elsewhere. */
  twostate predicate Only(p: Ptr, n: nat)
    reads p.a
  {
    && (forall i :: 0 <= i < p.a.Length && Beyond(p.a, i, p, n) ==> p.a[i] == old(p.a[i]))
    && (forall o: nat, k: nat {:trigger Nat(p.a, o, k)} ::
          o + k <= p.a.Length && (o + k <= p.o || p.o + n <= o) ==> Nat(p.a, o, k) == old(Nat(p.a, o, k)))
  }

  /** Nothing but the `n` words at `p` and the `l` words at `q` changed. */
  twostate predicate OnlyTwo(p: Ptr, n: nat, q: Ptr, l: nat)
    reads p.a, q.a
  {
    && (forall i :: 0 <= i < p.a.Length && Beyond(p.a, i, p, n) && Beyond(p.a, i, q, l) ==> p.a[i] == old(p.a[i]))
    && (forall i :: 0 <= i < q.a.Length && Beyond(q.a, i, p, n) && Beyond(q.a, i, q, l) ==> q.a[i] == old(q.a[i]))
  }

  lemma NumSnoc(p: Ptr, i: nat)
    requires p.Has(i + 1)
    ensures Num(p, i + 1) == Num(p, i) + Pow(B, i) * p.a[p.o + i]
  {
    var s := p.a[p.o..p.o + i + 1];
    ValPrefix(s, i, B);
    assert s[..i + 1] == s && s[..i] == p.a[p.o..p.o + i];
  }

  lemma NumNone(p: Ptr)
    requires p.Has(0)
    ensures Num(p, 0) == 0
  {
  }

  lemma NumOne(p: Ptr)
    requires p.Has(1)
    ensures Num(p, 1) == p.a[p.o]
  {
    NumSnoc(p, 0);
  }

  /** A stretch whose words did not change holds the number it held. */
  twostate lemma SameNat(a: array<word>, new o: nat, new k: nat)
    requires o + k <= a.Length && forall i :: o <= i < o + k ==> a[i] == old(a[i])
    ensures Nat(a, o, k) == old(Nat(a, o, k))
  {
    assert a[o..o + k] == old(a[o..o + k]);
  }

  lemma NumSplit(p: Ptr, i: nat, n: nat)
    requires i <= n && p.Has(n)
    ensures Num(p, n) == Num(p, i) + Pow(B, i) * Num(p.At(i), n - i)
  {
    var s := p.a[p.o..p.o + n];
    ValSplit(s, i, B);
    assert s[..i] == p.a[p.o..p.o + i] && s[i..] == p.a[p.o + i..p.o + n];
  }

  lemma NumBound(p: Ptr, n: nat)
    requires p.Has(n)
    ensures Num(p, n) < Pow(B, n)
  {
    var s: seq<nat> := p.a[p.o..p.o + n];
    assert Bounded(s, B);
    ValBound(s, B);
  }

  /** Stores one word; the number below it is extended by it. */
  method Put(p: Ptr, i: nat, w: word)
    requires p.Has(i + 1)
    modifies p.a
    ensures Num(p, i + 1) == old(Num(p, i)) + Pow(B, i) * w
    ensures p.a[p.o + i] == w && forall j :: 0 <= j < p.a.Length && j != p.o + i ==> p.a[j] == old(p.a[j])
    ensures Only(p.At(i), 1)
  {
    p.a[p.o + i] := w;
    forall o: nat, k: nat | o + k <= p.a.Length && (o + k <= p.o + i || p.o + i + 1 <= o)
      ensures Nat(p.a, o, k) == old(Nat(p.a, o, k))
    {
      assert p.a[o..o + k] == old(p.a[o..o + k]);
    }
    NumSnoc(p, i);
  }

  /** `NumSnoc` about the state on entry. */
  twostate lemma OldSnoc(p: Ptr, new i: nat)
    requires p.Has(i + 1)
    ensures old(Num(p, i + 1)) == old(Num(p, i)) + Pow(B, i) * old(p.a[p.o + i])
  {
    var s := old(p.a[p.o..p.o + i + 1]);
    ValPrefix(s, i, B);
    assert s[..i + 1] == s && s[..i] == old(p.a[p.o..p.o + i]);
  }

  lemma SumStep(r: nat, x: nat, y: nat, p: nat, c: nat, w: nat, a: nat, b: nat, c': nat, base: nat)
    requires r + c * p == x + y && c' * base + w == a + b + c && a < base && b < base && c <= 1
    ensures (r + p * w) + c' * (base * p) == (x + p * a) + (y + p * b) && c' <= 1
  {
    assert p * (c' * base + w) == p * (a + b + c);
    assert p * (c' * base) == c' * (base * p) by { Assoc(c', base, p); }
    assert p * (c' * base + w) == p * (c' * base) + p * w && p * (a + b + c) == p * a + p * b + c * p;
    if c' >= 2 {
      MulMono(2, c', base);
    }
  }

  /** `cpAdd_BNU`: in-place addition with the carry out. */
  method Add(r: Ptr, a: Ptr, b: Ptr, n: nat) returns (carry: nat)
    requires r.Has(n) && Source(r, a, n) && Source(r, b, n)
    modifies r.a
    ensures Num(r, n) + carry * Pow(B, n) == old(Num(a, n)) + old(Num(b, n)) && carry <= 1
    ensures Only(r, n)
  {
    hide Val;
    NumNone(r);
    NumNone(a);
    NumNone(b);
    carry := 0;
    for i: nat := 0 to n
      invariant carry <= 1
      invariant forall j :: a.o + i <= j < a.o + n ==> a.a[j] == old(a.a[j])
      invariant forall j :: b.o + i <= j < b.o + n ==> b.a[j] == old(b.a[j])
      invariant Num(r, i) + carry * Pow(B, i) == old(Num(a, i)) + old(Num(b, i))
      invariant Only(r, n)
    {
      ghost var lo, c, x, y := Num(r, i), carry, old(Num(a, i)), old(Num(b, i));
      OldSnoc(a, i);
      OldSnoc(b, i);
      var wa, wb := a.a[a.o + i], b.a[b.o + i];
      var w;
      carry, w := AddABC(wa, wb, carry);
      SumStep(lo, x, y, Pow(B, i), c, w, wa, wb, carry, B);
      Put(r, i, w);
    }
  }

  lemma DifferenceStep(r: nat, x: nat, y: nat, p: nat, c: nat, w: nat, a: nat, b: nat, c': nat, base: nat)
    requires r - c * p == x - y && a - b - c == w - c' * base && a < base && b < base && c <= 1 && w < base
    ensures (r + p * w) - c' * (base * p) == (x + p * a) - (y + p * b) && c' <= 1
  {
    var carried := c' * base;
    Spread(p, a, b, c);
    Spread(p, w, carried, 0);
    Turned(p, c', base);
    if c' >= 2 {
      MulMono(2, c', base);
    }
  }

  lemma Spread(p: int, a: int, b: int, c: int)
    ensures p * (a - b - c) == p * a - p * b - c * p
  {
  }

  lemma Turned(x: int, y: int, z: int)
    ensures x * (y * z) == y * (z * x)
  {
    Assoc(y, z, x);
  }

  /** `cpSub_BNU`: in-place subtraction with the borrow out. */
  method Sub(r: Ptr, a: Ptr, b: Ptr, n: nat) returns (borrow: nat)
    requires r.Has(n) && Source(r, a, n) && Source(r, b, n)
    modifies r.a
    ensures Num(r, n) - borrow * Pow(B, n) == old(Num(a, n)) - old(Num(b, n)) && borrow <= 1
    ensures Only(r, n)
  {
    hide Val;
    NumNone(r);
    NumNone(a);
    NumNone(b);
    borrow := 0;
    for i: nat := 0 to n
      invariant borrow <= 1
      invariant forall j :: a.o + i <= j < a.o + n ==> a.a[j] == old(a.a[j])
      invariant forall j :: b.o + i <= j < b.o + n ==> b.a[j] == old(b.a[j])
      invariant Num(r, i) - borrow * Pow(B, i) == old(Num(a, i)) - old(Num(b, i))
      invariant Only(r, n)
    {
      ghost var lo, c, x, y := Num(r, i), borrow, old(Num(a, i)), old(Num(b, i));
      OldSnoc(a, i);
      OldSnoc(b, i);
      var wa, wb := a.a[a.o + i], b.a[b.o + i];
      var w;
      borrow, w := SubABC(wa, wb, borrow);
      DifferenceStep(lo, x, y, Pow(B, i), c, w, wa, wb, borrow, B);
      Put(r, i, w);
    }
  }

  /** `COPY_BNU`. */
  method Copy(r: Ptr, a: Ptr, n: nat)
    requires r.Has(n) && Source(r, a, n)
    modifies r.a
    ensures Num(r, n) == old(Num(a, n)) && Only(r, n)
  {
    hide Val;
    NumNone(r);
    NumNone(a);
    for i: nat := 0 to n
      invariant forall j :: a.o + i <= j < a.o + n ==> a.a[j] == old(a.a[j])
      invariant Num(r, i) == old(Num(a, i)) && Only(r, n)
    {
      OldSnoc(a, i);
      Put(r, i, a.a[a.o + i]);
    }
  }

  /** `ZEXPAND_COPY_BNU`. */
  method Extend(r: Ptr, a: Ptr, n: nat, len: nat)
    requires n <= len && r.Has(len) && a.Has(n) && Apart(r, len, a, n)
    modifies r.a
    ensures Num(r, len) == old(Num(a, n)) && Only(r, len)
  {
    Copy(r, a, n);
    for i: nat := n to len
      invariant Num(r, i) == old(Num(a, n)) && Only(r, len)
    {
      Put(r, i, 0);
    }
  }

  /** `cpSet_BNU`: a one-word value extended by zeros. */
  method SetWord(r: Ptr, n: nat, w: word)
    requires 0 < n && r.Has(n)
    modifies r.a
    ensures Num(r, n) == w && Only(r, n)
  {
    Put(r, 0, w);
    for i: nat := 1 to n
      invariant Num(r, i) == w && Only(r, n)
    {
      Put(r, i, 0);
    }
  }

  /** `cpMaskedReplace_ct`: copies under a mask, otherwise writes back what is there. */
  method Replace(r: Ptr, a: Ptr, n: nat, mask: bool)
    requires r.Has(n) && Source(r, a, n)
    modifies r.a
    ensures Num(r, n) == if mask then old(Num(a, n)) else old(Num(r, n))
    ensures Only(r, n)
  {
    hide Val;
    NumNone(r);
    NumNone(a);
    for i: nat := 0 to n
      invariant forall j :: a.o + i <= j < a.o + n ==> a.a[j] == old(a.a[j])
      invariant forall j :: r.o + i <= j < r.o + n ==> r.a[j] == old(r.a[j])
      invariant Num(r, i) == if mask then old(Num(a, i)) else old(Num(r, i))
      invariant Only(r, n)
    {
      OldSnoc(a, i);
      OldSnoc(r, i);
      Put(r, i, if mask then a.a[a.o + i] else r.a[r.o + i]);
    }
  }

  lemma WordIsLow(low: nat, w: nat, x: nat, p: nat)
    requires x < p
    ensures low + p * w == x <==> low == x && w == 0
  {
    if w > 0 {
      MulMono(1, w, p);
    }
  }

  /** `cpEqu_BNU_CHUNK` and `cpIsGFpElemEquChunk_ct`: comparison with a one-word value. */
  method IsWord(p: Ptr, n: nat, x: word) returns (same: bool)
    requires 0 < n && p.Has(n)
    ensures same <==> Num(p, n) == x
  {
    NumSnoc(p, 0);
    same := p.a[p.o] == x;
    for i: nat := 1 to n
      invariant same <==> Num(p, i) == x
    {
      NumSnoc(p, i);
      PowMono(B, 1, i);
      WordIsLow(Num(p, i), p.a[p.o + i], x, Pow(B, i));
      same := same && p.a[p.o + i] == 0;
    }
  }

  lemma DigitAbove(d: nat, w: nat, p: nat, base: nat)
    requires d < p && w < base
    ensures d + p * w < base * p && (d + p * w == 0 <==> d == 0 && w == 0)
  {
    MulMono(w + 1, base, p);
    if w > 0 {
      MulMono(1, w, p);
    }
  }

  /** `cpCmp_BNU` for equal lengths: the borrow chain over half words decides the order, the differences decide equality. */
  method Cmp(a: Ptr, b: Ptr, n: nat) returns (sign: int)
    requires a.Has(n) && b.Has(n)
    ensures sign == if Num(a, n) < Num(b, n) then -1 else if Num(a, n) > Num(b, n) then 1 else 0
  {
    var borrow: nat, differ := 0, false;
    ghost var d: nat := 0;
    for i: nat := 0 to n
      invariant borrow <= 1 && d < Pow(B, i) && (differ <==> d != 0)
      invariant d - borrow * Pow(B, i) == Num(a, i) - Num(b, i)
    {
      ghost var c, x, y := borrow, Num(a, i), Num(b, i);
      Pow2Even(CHUNK_BITS);
      NumSnoc(a, i);
      NumSnoc(b, i);
      var wa, wb := a.a[a.o + i], b.a[b.o + i];
      var different;
      ghost var w;
      borrow, different, w := SubHalves(wa, wb, borrow);
      DifferenceStep(d, x, y, Pow(B, i), c, w, wa, wb, borrow, B);
      DigitAbove(d, w, Pow(B, i), B);
      d := d + Pow(B, i) * w;
      differ := differ || different;
    }
    sign := if borrow == 1 then -1 else if differ then 1 else 0;
  }

  lemma ShiftedIn(r: nat, x: nat, p: nat, odd: nat, q: nat, low: nat, h: nat, half: nat)
    requires 2 * r + odd == x + p * low && h <= 1
    ensures 2 * (r + p * (q + h * half)) + odd == x + p * (2 * q + low) + ((2 * half) * p) * h
  {
    assert p * (2 * q + low) == 2 * (p * q) + p * low;
    if h == 0 {
    } else {
      assert p * (q + half) == p * q + p * half;
      assert 2 * (p * half) == (2 * half) * p;
    }
  }

  lemma HalfStep(r: nat, x: nat, p: nat, odd: nat, lo: nat, hi: nat, w: nat, base: nat, half: nat)
    requires 2 * r + odd == x + p * (lo % 2) && w == lo / 2 + (if hi % 2 == 1 then half else 0) && base == 2 * half
    ensures 2 * (r + p * w) + odd == (x + p * lo) + (base * p) * (hi % 2)
  {
    ShiftedIn(r, x, p, odd, lo / 2, lo % 2, hi % 2, half);
    assert 2 * (lo / 2) + lo % 2 == lo;
  }

  /** A word shifted right, with the low bit of the word above it on top. */
  function ShiftWord(lo: word, hi: word): (w: word)
    ensures w == lo / 2 + (if hi % 2 == 1 then Pow(2, CHUNK_BITS - 1) else 0)
  {
    if hi % 2 == 1 then lo / 2 + Pow(2, CHUNK_BITS - 1) else lo / 2
  }

  /** `cpLSR_BNU` by one bit: each word takes its top bit from the word above before that word is shifted. */
  method Lsr1(r: Ptr, a: Ptr, n: nat)
    requires 0 < n && r.Has(n) && Source(r, a, n)
    modifies r.a
    ensures Num(r, n) == old(Num(a, n)) / 2 && Only(r, n)
  {
    hide Val;
    NumNone(r);
    NumNone(a);
    ghost var half, odd := Pow(2, CHUNK_BITS - 1), a.a[a.o] % 2;
    var lo := a.a[a.o];
    OldLow(a, n);
    for i: nat := 0 to n
      invariant i < n ==> lo == old(a.a[a.o + i])
      invariant i == n ==> lo == 0
      invariant forall j :: a.o + i <= j < a.o + n ==> a.a[j] == old(a.a[j])
      invariant 2 * Num(r, i) + odd == old(Num(a, i)) + Pow(B, i) * (lo % 2)
      invariant Only(r, n)
    {
      OldSnoc(a, i);
      var hi := if i + 1 < n then a.a[a.o + i + 1] else 0;
      assert i + 1 < n ==> hi == old(a.a[a.o + i + 1]);
      var w := ShiftWord(lo, hi);
      HalfStep(Num(r, i), old(Num(a, i)), Pow(B, i), odd, lo, hi, w, B, half);
      Put(r, i, w);
      lo := hi;
    }
  }

  lemma EvenMultiple(x: nat, p: nat, w: nat)
    ensures (x + (2 * p) * w) % 2 == x % 2
  {
    Assoc(2, p, w);
    EvenSum(x, p * w);
  }

  lemma EvenSum(x: int, k: int)
    ensures (x + 2 * k) % 2 == x % 2
  {
  }

  /** The parity of a number is that of its low word. */
  lemma LowBit(p: Ptr, n: nat)
    requires 0 < n && p.Has(n)
    ensures Num(p, n) % 2 == p.a[p.o] % 2
  {
    NumSplit(p, 1, n);
    NumSnoc(p, 0);
    EvenMultiple(p.a[p.o], Pow(2, CHUNK_BITS - 1), Num(p.At(1), n - 1));
  }

  twostate lemma OldLow(p: Ptr, new n: nat)
    requires 0 < n && p.Has(n)
    ensures old(Num(p, n)) % 2 == old(p.a[p.o]) % 2
  {
    var s := old(p.a[p.o..p.o + n]);
    EvenMultiple(s[0], Pow(2, CHUNK_BITS - 1), Val(s[1..], B));
  }

  /** How many groups of `size` fit below a position. */
  function Groups(position: nat, size: nat): nat
    requires size > 0
  {
    position / size
  }

  /** The word a bit lies in. */
  function Slot(bit: nat): nat
  {
    Groups(bit, CHUNK_BITS)
  }

  /** The word with only that bit set. */
  function SlotWord(bit: nat): (w: word)
    ensures Pow(B, Slot(bit)) * w == Pow(2, bit)
  {
    var slot, rest := Slot(bit), bit % CHUNK_BITS;
    assert bit == CHUNK_BITS * slot + rest;
    PowMono(2, rest, CHUNK_BITS - 1);
    PowPow(2, CHUNK_BITS, slot);
    PowAdd(2, CHUNK_BITS * slot, rest);
    Pow(2, rest)
  }

  lemma SlotBelow(bit: nat, n: nat)
    ensures bit < CHUNK_BITS * n <==> Slot(bit) < n
  {
    var slot := bit / CHUNK_BITS;
    assert bit == slot * CHUNK_BITS + bit % CHUNK_BITS;
    if slot >= n {
      MulMono(n, slot, CHUNK_BITS);
    } else {
      MulMono(slot + 1, n, CHUNK_BITS);
    }
  }

  /** `SET_BIT` in a number that is zero. */
  method SetBit(r: Ptr, n: nat, bit: nat)
    requires r.Has(n) && Slot(bit) < n && Num(r, n) == 0
    modifies r.a
    ensures Num(r, n) == Pow(2, bit) && Only(r, n)
  {
    hide Val;
    var slot := Slot(bit);
    NumSplit(r, slot, n);
    NumSplit(r.At(slot), 1, n - slot);
    ZeroParts(Num(r, slot), Pow(B, slot), Num(r.At(slot), n - slot));
    ZeroParts(Num(r.At(slot), 1), Pow(B, 1), Num(r.At(slot + 1), n - slot - 1));
    Put(r, slot, SlotWord(bit));
    NumSplit(r, slot + 1, n);
  }

  lemma ZeroParts(low: nat, p: nat, high: nat)
    requires low + p * high == 0 && p > 0
    ensures low == 0 && high == 0
  {
    if high > 0 {
      MulMono(1, high, p);
    }
  }

  /**
   * `cpPow2_ct`: the word with the bit gets it, all others zero. The length is one longer when the bit lies in the word just above
   * the given length.
   */
  method Pow2Ct(r: Ptr, n: nat, bit: nat)
    requires Slot(bit) <= n && r.Has(if Slot(bit) == n then n + 1 else n)
    modifies r.a
    ensures Slot(bit) < n ==> Num(r, n) == Pow(2, bit) && Only(r, n)
    ensures Slot(bit) == n ==> Num(r, n + 1) == Pow(2, bit) && Only(r, n + 1)
  {
    var slot := Slot(bit);
    var value := SlotWord(bit);
    var len := if slot == n then n + 1 else n;
    for i: nat := 0 to len
      invariant Num(r, i) == if i <= slot then 0 else Pow(2, bit)
      invariant Only(r, len)
    {
      Put(r, i, if i == slot then value else 0);
    }
  }

}
