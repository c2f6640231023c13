/** `cpMod_BNU`: reduction of big numbers, done by dividing over the half words of the same memory. */
module Reduction {
  import opened Arith
  import opened Bnu
  import opened Digits
  import opened Division
  import opened Words

  lemma {:induction false} HalfPowers(i: nat)
    ensures Pow(H, 2 * i) == Pow(B, i)
    decreases i
  {
    if i == 0 {
    } else {
      HalfBase();
      HalfPowers(i - 1);
      assert Pow(H, 2 * i) == H * (H * Pow(H, 2 * (i - 1)));
      Assoc(H, H, Pow(B, i - 1));
    }
  }

  /** What digits stand for, word by word. */
  ghost predicate Stands(words: seq<word>, digits: seq<digit>)
  {
    2 * |words| <= |digits| && forall i: nat :: i < |words| ==> words[i] == digits[2 * i + 1] * H + digits[2 * i]
  }

  /** The digits of a stretch of words. */
  ghost predicate View(x: Ptr, len: nat, h: array<digit>)
    requires x.Has(len)
    reads x.a, h
  {
    Stands(x.a[x.o..x.o + len], h[..])
  }

  lemma {:induction false} NumIsDig(x: Ptr, len: nat, h: array<digit>, k: nat)
    requires x.Has(len) && View(x, len, h) && k <= len
    ensures Num(x, k) == Dig(h, 0, 2 * k)
    decreases k
  {
    if k == 0 {
    } else {
      NumIsDig(x, len, h, k - 1);
      NumSnoc(x, k - 1);
      var words := x.a[x.o..x.o + len];
      assert words[k - 1] == x.a[x.o + k - 1];
      DigSnoc(h, 0, 2 * k - 2);
      DigSnoc(h, 0, 2 * k - 1);
      HalfPowers(k - 1);
      TwoDigits(Pow(B, k - 1), h[2 * k - 2], h[2 * k - 1], H);
    }
  }

  lemma TwoDigits(p: int, l: int, u: int, h: int)
    ensures p * l + (h * p) * u == p * (u * h + l)
  {
    assert p * (u * h + l) == p * (u * h) + p * l;
    Assoc(p, u, h);
    assert (p * u) * h == (h * p) * u by { Assoc(h, p, u); assert (p * u) * h == h * (p * u); }
  }

  /** The words read as digits. */
  method LoadDigits(x: Ptr, len: nat, h: array<digit>)
    requires x.Has(len) && 2 * len <= h.Length
    modifies h
    ensures View(x, len, h) && Within(h, 0, 2 * len)
    ensures forall i: nat :: i < len ==> h[2 * i] == Lo(x.a[x.o + i])
  {
    for i: nat := 0 to len
      invariant View(x, i, h) && Within(h, 0, 2 * len)
      invariant forall j: nat :: j < i ==> h[2 * j] == Lo(x.a[x.o + j])
    {
      Halves(x.a[x.o + i]);
      h[2 * i], h[2 * i + 1] := Lo(x.a[x.o + i]), Hi(x.a[x.o + i]);
    }
  }

  lemma JoinFits(l: digit, u: digit)
    ensures u * H + l < B
  {
    HalfBase();
    LowFits(u, l, H);
  }

  /** The digits written back. */
  method StoreDigits(x: Ptr, len: nat, h: array<digit>)
    requires x.Has(len) && 2 * len <= h.Length
    modifies x.a
    ensures View(x, len, h) && Only(x, len)
  {
    hide Val;
    for i: nat := 0 to len
      invariant View(x, i, h) && Only(x, len)
    {
      JoinFits(h[2 * i], h[2 * i + 1]);
      Put(x, i, h[2 * i + 1] * H + h[2 * i]);
    }
  }

  /** The words a reduction may write: one more than the number has when the division needs a digit above it. */
  ghost function Reach(x: nat, m: nat, len: nat): (r: nat)
  {
    if Spills(x, m, 2 * len) then len + 1 else len
  }

  /** The digits of a number, and of the word above it if there is one. */
  method ReadDigits(x: Ptr, len: nat) returns (h: array<digit>)
    requires x.Has(len)
    ensures fresh(h) && h.Length == (if x.Has(len + 1) then 2 * len + 2 else 2 * len)
    ensures View(x, len, h) && Dig(h, 0, 2 * len) == Num(x, len) && (x.Has(len + 1) ==> h[2 * len] == Lo(x.a[x.o + len]))
  {
    var size := if x.Has(len + 1) then len + 1 else len;
    HalfBase();
    h := new digit[2 * size];
    LoadDigits(x, size, h);
    NumIsDig(x, size, h, len);
  }

  /** The digits written back, with the digit above the number if it changed. */
  method WriteBack(x: Ptr, len: nat, h: array<digit>, ghost reach: nat)
    requires x.Has(len) && 2 * len <= h.Length && (x.Has(len + 1) ==> 2 * len < h.Length)
    requires if reach == len then x.Has(len + 1) ==> h[2 * len] == Lo(x.a[x.o + len]) else reach == len + 1 && x.Has(len + 1)
    modifies x.a
    ensures View(x, len, h) && Only(x, reach)
    ensures x.Has(len + 1) ==> x.a[x.o + len] == Hi(old(x.a[x.o + len])) * H + h[2 * len]
  {
    StoreDigits(x, len, h);
    if x.Has(len + 1) {
      var w: nat := x.a[x.o + len];
      Halves(w);
      if h[2 * len] != Lo(w) {
        JoinFits(h[2 * len], Hi(w));
        Put(x, len, Hi(w) * H + h[2 * len]);
      }
    }
  }

  /** Digits that did not change stand for the words they were read from. */
  lemma SameWords(words: seq<word>, now: seq<word>, before: seq<digit>, after: seq<digit>)
    requires Stands(words, before) && Stands(now, after) && |words| == |now| > 0
    requires |before| == |after| && 2 <= |after| && after[2..] == before[2..]
    ensures now[1..] == words[1..]
  {
    forall k | 1 <= k < |words|
      ensures now[k] == words[k]
    {
      assert after[2 * k] == after[2..][2 * k - 2] && after[2 * k + 1] == after[2..][2 * k - 1];
    }
  }

  /** `cpDiv_BNU` without a quotient: a remainder of an odd number of digits is filled up to whole words. */
  method Remainder(h: array<digit>, len: nat, y: array<digit>, n: nat) returns (size: nat)
    requires 0 < len && 2 * len <= h.Length && 0 < n && 2 * n <= y.Length && h != y && 0 < Dig(y, 0, 2 * n)
    requires Spills(Dig(h, 0, 2 * len), Dig(y, 0, 2 * n), 2 * len) ==> 2 * len < h.Length
    modifies h, y
    ensures 1 <= size <= len && Dig(h, 0, 2 * size) == old(Dig(h, 0, 2 * len)) % old(Dig(y, 0, 2 * n))
    ensures old(Dig(y, 0, 2 * n)) < H ==> size == 1 && h[2..] == old(h[2..])
    ensures H <= old(Dig(y, 0, 2 * n)) ==> Dig(h, 0, 2 * len) == Dig(h, 0, 2 * size)
    ensures if old(Spills(Dig(h, 0, 2 * len), Dig(y, 0, 2 * n), 2 * len)) then h[2 * len] == 0 && Within(h, 0, 2 * len + 1)
            else Within(h, 0, 2 * len)
  {
    hide Val;
    HalfBase();
    var digits, none := Divide(null, h, 2 * len, y, 2 * n);
    size := (digits + 1) / 2;
    if digits % 2 == 1 {
      Division.Store(h, 0, digits, 0);
    }
    if forall i :: 2 * size <= i < 2 * len ==> h[i] == 0 {
      HighZeros(h, 2 * size, 2 * len);
    }
  }

  /**
   * `cpMod_BNU`: the remainder in as many words as it takes, returned. A modulus of more than half a word also clears the words above;
   * a smaller one leaves them as they were. A dividend without leading zeros costs the low half of the word above it.
   */
  method ModReduce(x: Ptr, len: nat, m: Ptr, n: nat) returns (size: nat)
    requires 0 < n && 0 < len && m.Has(n) && x.Has(len) && Num(m, n) > 0
    requires x.Has(Reach(Num(x, len), Num(m, n), len)) && Apart(x, Reach(Num(x, len), Num(m, n), len), m, n)
    modifies x.a
    ensures 1 <= size <= len && Num(x, size) == old(Num(x, len)) % old(Num(m, n))
    ensures H <= old(Num(m, n)) ==> Num(x, len) == Num(x, size)
    ensures old(Num(m, n)) < H ==> size == 1 && x.a[x.o + 1..x.o + len] == old(x.a[x.o + 1..x.o + len])
    ensures Only(x, old(Reach(Num(x, len), Num(m, n), len)))
    ensures old(Spills(Num(x, len), Num(m, n), 2 * len)) ==> x.a[x.o + len] == Hi(old(x.a[x.o + len])) * H
  {
    hide Val;
    var h := ReadDigits(x, len);
    var y := ReadDigits(m, n);
    ghost var words, before, M, reach := x.a[x.o..x.o + len], h[..], Num(m, n), Reach(Num(x, len), Num(m, n), len);
    size := Remainder(h, len, y, n);
    WriteBack(x, len, h, reach);
    NumIsDig(x, len, h, size);
    NumIsDig(x, len, h, len);
    if M < H {
      SameWords(words, x.a[x.o..x.o + len], before, h[..]);
    }
  }

  /** A number whose low words are zero: the remainder is in as many words as the modulus, whatever the size of the modulus. */
  method ReduceScaled(x: Ptr, len: nat, m: Ptr, n: nat)
    requires 0 < n <= len && m.Has(n) && x.Has(len) && Num(m, n) > 0 && Num(x, n) == 0
    requires x.Has(Reach(Num(x, len), Num(m, n), len)) && Apart(x, Reach(Num(x, len), Num(m, n), len), m, n)
    modifies x.a
    ensures Num(x, n) == old(Num(x, len)) % old(Num(m, n))
    ensures Only(x, old(Reach(Num(x, len), Num(m, n), len)))
    ensures old(Spills(Num(x, len), Num(m, n), 2 * len)) ==> x.a[x.o + len] == Hi(old(x.a[x.o + len])) * H
  {
    hide Val;
    ghost var X, M, above := Num(x, len), Num(m, n), x.a[x.o + 1..x.o + len];
    NumBound(m, n);
    NumSplit(x, 1, n);
    assert x.a[x.o + 1..x.o + n] == above[..n - 1];
    var size := ModReduce(x, len, m, n);
    if H <= M {
      NumSplit(x, n, len);
      HighPartZero(Num(x, n), Num(x.At(n), len - n), Pow(B, n));
    } else {
      NumSplit(x, 1, n);
      assert x.a[x.o + 1..x.o + len] == above;
      assert x.a[x.o + 1..x.o + n] == x.a[x.o + 1..x.o + len][..n - 1];
    }
  }

  method Expanded(src: array<digit>, len: nat) returns (h: array<digit>)
    requires src.Length <= len
    ensures fresh(h) && h.Length == len && Dig(h, 0, len) == Dig(src, 0, src.Length)
  {
    hide Val;
    HalfBase();
    h := new digit[len];
    for i: nat := 0 to len
      invariant forall j :: 0 <= j < i ==> h[j] == if j < src.Length then src[j] else 0
    {
      h[i] := if i < src.Length then src[i] else 0;
    }
    assert h[0..src.Length] == src[0..src.Length];
    HighZeros(h, src.Length, len);
  }

  /** `ZEXPAND_COPY_BNU` over half words: digits copied into words, zeros above them. */
  method ExpandDigits(r: Ptr, n: nat, src: array<digit>)
    requires r.Has(n) && src.Length <= 2 * n
    modifies r.a
    ensures Num(r, n) == old(Dig(src, 0, src.Length)) && Only(r, n)
  {
    hide Val;
    var h := Expanded(src, 2 * n);
    StoreDigits(r, n, h);
    NumIsDig(r, n, h, n);
  }

  lemma DigParity(x: array<digit>, n: nat)
    requires 0 < n <= x.Length
    ensures Dig(x, 0, n) % 2 == x[0] % 2
  {
    DigCons(x, 0, n);
    EvenMultiple(x[0], Pow(2, HALF_BITS - 1), Dig(x, 1, n));
  }
}
