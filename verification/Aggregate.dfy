/**
 * Aggregated polynomial hashing. Products with descending powers of a key are summed before one final folding; wherever folding and
 * multiplication are linear, this is the same number of Horner steps.
 */
module Aggregate {

  /** The laws aggregation rests on. */
  datatype Law<!W, !P> =
    | FoldAdd(p: P, q: P)
    | DotXor(x: W, y: W, k: W)
    | Assoc(x: W, y: W, z: W)
    | Commute(x: W, y: W)
    | Neutral(x: W)

  /** Unreduced products of type P, folded into words of type W. */
  datatype Scheme<!W(!new), !P(!new)> = Scheme(mul: (W, W) -> P, add: (P, P) -> P, fold: P -> W, foldTwo: (P, P) -> W,
                                            xor: (W, W) -> W, none: P, zero: W)
  {
    function Dot(x: W, k: W): W
    {
      fold(mul(x, k))
    }

    /** An instance of one of the laws. */
    ghost predicate Holds(law: Law<W, P>)
    {
      match law
      case FoldAdd(p, q) => fold(add(p, q)) == xor(fold(p), fold(q)) && foldTwo(p, q) == xor(fold(p), fold(q))
      case DotXor(x, y, k) => Dot(xor(x, y), k) == xor(Dot(x, k), Dot(y, k))
      case Assoc(x, y, z) => xor(xor(x, y), z) == xor(x, xor(y, z))
      case Commute(x, y) => xor(x, y) == xor(y, x)
      case Neutral(x) => xor(x, zero) == x && fold(none) == zero
    }

    /** Folding and multiplication are linear over a commutative sum. */
    ghost predicate Linear()
    {
      forall law: Law<W, P> :: Holds(law)
    }

    /** Hashing block by block. */
    function Horner(h: W, y: W, x: seq<W>): W
      decreases |x|
    {
      if x == [] then y else Horner(h, Dot(xor(y, x[0]), h), x[1..])
    }

    lemma {:induction false} HornerAppend(h: W, y: W, x: seq<W>, z: seq<W>)
      ensures Horner(h, y, x + z) == Horner(h, Horner(h, y, x), z)
      decreases |x|
    {
      if x == [] {
        assert x + z == z;
      } else {
        HornerAppend(h, Dot(xor(y, x[0]), h), x[1..], z);
        assert (x + z)[1..] == x[1..] + z;
      }
    }

    /** Multiplying by the key `n` times. */
    function Repeated(y: W, h: W, n: nat): W
      decreases n
    {
      if n == 0 then y else Repeated(Dot(y, h), h, n - 1)
    }

    /** `keys[j]` acts as `j + 1` multiplications by the first key. */
    ghost predicate KeyPowers(keys: seq<W>)
    {
      forall j: nat, y: W {:trigger Dot(y, keys[j])} :: j < |keys| ==> Dot(y, keys[j]) == Repeated(y, keys[0], j + 1)
    }

    /** Reduced products are associative and commutative. */
    ghost predicate Associates(a: W, b: W, c: W)
    {
      Dot(Dot(a, b), c) == Dot(a, Dot(b, c)) && Dot(a, b) == Dot(b, a)
    }

    ghost predicate Associative()
    {
      forall a: W, b: W, c: W :: Associates(a, b, c)
    }

    /** Each key is the one before times the first. */
    ghost predicate Successive(keys: seq<W>)
    {
      forall j :: 0 < j < |keys| ==> keys[j] == Dot(keys[j - 1], keys[0])
    }

    lemma {:induction false} SuccessiveActs(keys: seq<W>, y: W, j: nat)
      requires Associative() && Successive(keys) && j < |keys|
      ensures Dot(y, keys[j]) == Repeated(y, keys[0], j + 1)
      decreases j
    {
      var k := keys[0];
      if j == 0 {
      } else {
        assert keys[j] == Dot(keys[j - 1], k);
        assert Associates(keys[j - 1], k, k) && Associates(y, k, keys[j - 1]);
        SuccessiveActs(keys, Dot(y, k), j - 1);
      }
    }

    /** Keys computed one from the other act as powers of the first. */
    lemma SuccessiveArePowers(keys: seq<W>)
      requires Associative() && Successive(keys)
      ensures KeyPowers(keys)
    {
      forall j: nat, y: W | j < |keys|
        ensures Dot(y, keys[j]) == Repeated(y, keys[0], j + 1)
      {
        SuccessiveActs(keys, y, j);
      }
    }

    /** Unreduced products with descending powers: the last block meets the key itself. */
    function Products(keys: seq<W>, x: seq<W>): P
      requires |x| <= |keys|
      decreases |x|
    {
      if x == [] then none else add(mul(x[0], keys[|x| - 1]), Products(keys, x[1..]))
    }

    /** Multiplying by the key first and a power next is multiplying by the following power. */
    lemma PowerShift(keys: seq<W>, y: W, j: nat)
      requires KeyPowers(keys) && j + 1 < |keys|
      ensures Dot(Dot(y, keys[0]), keys[j]) == Dot(y, keys[j + 1])
    {
    }

    /** The hash so far joins the first block. */
    function Joined(y: W, x: seq<W>): (z: seq<W>)
      requires x != []
      ensures |z| == |x|
    {
      [xor(y, x[0])] + x[1..]
    }

    /** Aggregation: one folding of all products is the same number of Horner steps. */
    lemma {:induction false} AggregateIsHorner(keys: seq<W>, y: W, x: seq<W>)
      requires Linear() && KeyPowers(keys) && 0 < |x| <= |keys|
      ensures fold(Products(keys, Joined(y, x))) == Horner(keys[0], y, x)
      decreases |x|
    {
      var first, rest := xor(y, x[0]), x[1..];
      assert Joined(y, x)[1..] == rest;
      if |x| == 1 {
        assert rest == [] && Products(keys, rest) == none;
        Single(first, keys[0]);
      } else {
        var w, k := Dot(first, keys[0]), keys[|rest| - 1];
        AggregateIsHorner(keys, w, rest);
        assert Joined(w, rest)[1..] == rest[1..];
        PowerShift(keys, first, |rest| - 1);
        Merge(first, keys[|rest|], w, rest[0], k, Products(keys, rest[1..]));
      }
    }

    lemma Single(x: W, k: W)
      requires Linear()
      ensures fold(add(mul(x, k), none)) == Dot(x, k)
    {
      assert Holds(FoldAdd(mul(x, k), none)) && Holds(Neutral(Dot(x, k)));
    }

    /** The first product may be taken as that of the hash one step later, joined with the next block. */
    lemma Merge(first: W, key: W, w: W, next: W, k: W, tail: P)
      requires Linear() && Dot(first, key) == Dot(w, k)
      ensures fold(add(mul(first, key), add(mul(next, k), tail))) == fold(add(mul(xor(w, next), k), tail))
    {
      assert Holds(FoldAdd(mul(first, key), add(mul(next, k), tail))) && Holds(FoldAdd(mul(next, k), tail));
      assert Holds(FoldAdd(mul(xor(w, next), k), tail)) && Holds(DotXor(w, next, k));
      assert Holds(Assoc(Dot(w, k), Dot(next, k), fold(tail)));
    }

    /** What two partial sums still lack. */
    ghost predicate Accumulating(lo: P, hi: P, keys: seq<W>, x: seq<W>, done: nat)
      requires done <= |x| <= |keys|
    {
      xor(xor(fold(lo), fold(hi)), fold(Products(keys, x[done..]))) == fold(Products(keys, x))
    }

    lemma TwoProducts(keys: seq<W>, x: seq<W>, i: nat)
      requires Linear() && i + 2 <= |x| <= |keys|
      ensures fold(Products(keys, x[i..])) ==
              xor(Dot(x[i], keys[|x| - i - 1]), xor(Dot(x[i + 1], keys[|x| - i - 2]), fold(Products(keys, x[i + 2..]))))
    {
      var r := x[i..];
      assert r[1..] == x[i + 1..] && x[i + 1..][1..] == x[i + 2..];
      assert Holds(FoldAdd(mul(r[0], keys[|r| - 1]), Products(keys, x[i + 1..])));
      assert Holds(FoldAdd(mul(x[i + 1], keys[|r| - 2]), Products(keys, x[i + 2..])));
    }

    lemma Regroup(a: W, b: W, p: W, q: W, t: W)
      requires Linear()
      ensures xor(xor(xor(a, p), xor(b, q)), t) == xor(xor(a, b), xor(p, xor(q, t)))
    {
      assert Holds(Assoc(a, p, xor(b, q))) && Holds(Assoc(p, b, q)) && Holds(Commute(p, b)) && Holds(Assoc(b, p, q));
      assert Holds(Assoc(a, b, xor(p, q))) && Holds(Assoc(xor(a, b), xor(p, q), t)) && Holds(Assoc(p, q, t));
    }

    lemma AccumulateStep(lo: P, hi: P, keys: seq<W>, x: seq<W>, i: nat)
      requires Linear() && i + 2 <= |x| <= |keys| && Accumulating(lo, hi, keys, x, i)
      ensures Accumulating(add(lo, mul(x[i], keys[|x| - i - 1])), add(hi, mul(x[i + 1], keys[|x| - i - 2])), keys, x, i + 2)
    {
      TwoProducts(keys, x, i);
      assert Holds(FoldAdd(lo, mul(x[i], keys[|x| - i - 1]))) && Holds(FoldAdd(hi, mul(x[i + 1], keys[|x| - i - 2])));
      Regroup(fold(lo), fold(hi), Dot(x[i], keys[|x| - i - 1]), Dot(x[i + 1], keys[|x| - i - 2]), fold(Products(keys, x[i + 2..])));
    }

    lemma AccumulateStart(keys: seq<W>, x: seq<W>)
      requires Linear() && |x| <= |keys|
      ensures Accumulating(none, none, keys, x, 0)
    {
      assert x[0..] == x;
      var t := fold(Products(keys, x));
      assert Holds(Neutral(zero)) && Holds(Commute(zero, t)) && Holds(Neutral(t));
    }

    lemma AccumulateDone(lo: P, hi: P, keys: seq<W>, x: seq<W>)
      requires Linear() && |x| <= |keys| && Accumulating(lo, hi, keys, x, |x|)
      ensures xor(fold(lo), fold(hi)) == fold(Products(keys, x))
    {
      assert x[|x|..] == [];
      assert Holds(Neutral(xor(fold(lo), fold(hi))));
    }
  }

  /** Each further key is a product with the first. */
  method Powers<W(!new), P(!new)>(s: Scheme<W, P>, first: W, n: nat) returns (keys: seq<W>)
    requires s.Associative() && n > 0
    ensures |keys| == n && keys[0] == first && s.KeyPowers(keys)
  {
    keys := [first];
    for i: nat := 1 to n
      invariant |keys| == i && keys[0] == first && s.Successive(keys)
    {
      keys := keys + [s.Dot(keys[i - 1], first)];
    }
    s.SuccessiveArePowers(keys);
  }

  /** A register of two words. */
  datatype Ymm<W> = Ymm(lo: W, hi: W)

  /** Key registers: the higher of two neighbouring powers in the low lane. */
  ghost predicate KeyRegisters<W>(hk: seq<Ymm<W>>, keys: seq<W>)
  {
    2 * |hk| == |keys| && forall i :: 0 <= i < |hk| ==> hk[i] == Ymm(keys[2 * i + 1], keys[2 * i])
  }

  /** Two blocks to a register. */
  ghost predicate Paired<W>(gh: seq<Ymm<W>>, x: seq<W>)
  {
    |x| == 2 * |gh| && forall i :: 0 <= i < |gh| ==> gh[i] == Ymm(x[2 * i], x[2 * i + 1])
  }

  /** The accumulation shared by all widths: the first register meets the highest powers. */
  method Accumulate<W(!new), P(!new)>(s: Scheme<W, P>, gh: seq<Ymm<W>>, hk: seq<Ymm<W>>, ghost keys: seq<W>, ghost x: seq<W>)
    returns (lo: P, hi: P)
    requires s.Linear() && |gh| <= |hk| && KeyRegisters(hk, keys) && Paired(gh, x)
    ensures s.xor(s.fold(lo), s.fold(hi)) == s.fold(s.Products(keys, x))
  {
    lo, hi := s.none, s.none;
    s.AccumulateStart(keys, x);
    for i: nat := 0 to |gh|
      invariant s.Accumulating(lo, hi, keys, x, 2 * i)
    {
      var k := hk[|gh| - 1 - i];
      s.AccumulateStep(lo, hi, keys, x, 2 * i);
      lo := s.add(lo, s.mul(gh[i].lo, k.lo));
      hi := s.add(hi, s.mul(gh[i].hi, k.hi));
    }
    s.AccumulateDone(lo, hi, keys, x);
  }

  /** One hash of a group of registers: as many Horner steps as there are blocks, with one folding of both lanes at the end. */
  method Hash<W(!new), P(!new)>(s: Scheme<W, P>, gh: seq<Ymm<W>>, hk: seq<Ymm<W>>, ghost keys: seq<W>, ghost y: W, ghost x: seq<W>)
    returns (r: W)
    requires s.Linear() && 0 < |gh| <= |hk| && KeyRegisters(hk, keys) && s.KeyPowers(keys)
    requires |x| == 2 * |gh| && Paired(gh, s.Joined(y, x))
    ensures r == s.Horner(keys[0], y, x)
  {
    var lo, hi := Accumulate(s, gh, hk, keys, s.Joined(y, x));
    s.AggregateIsHorner(keys, y, x);
    assert s.Holds(FoldAdd(lo, hi));
    r := s.foldTwo(lo, hi);
  }
}
