/**
 * The hash of Galois/Counter Mode on 256-bit registers. Products of several blocks with descending powers of the key are accumulated
 * without reduction and reduced once; the result is that of as many Horner steps.
 */
module Ghash {
  import opened Aggregate

  /** Words as bit strings, least significant bit first. */
  const HALF: nat := 64

  type Half = s: seq<bool> | |s| == HALF witness seq(HALF, _ => false)

  function XorBits(x: seq<bool>, y: seq<bool>): (z: seq<bool>)
    requires |x| == |y|
    ensures |z| == |x| && forall i :: 0 <= i < |x| ==> z[i] == (x[i] != y[i])
  {
    seq(|x|, i requires 0 <= i < |x| => x[i] != y[i])
  }

  function Left(x: seq<bool>, k: nat): (z: seq<bool>)
    ensures |z| == |x| && forall i :: 0 <= i < |x| ==> z[i] == (i >= k && x[i - k])
  {
    seq(|x|, i requires 0 <= i < |x| => i >= k && x[i - k])
  }

  function Right(x: seq<bool>, k: nat): (z: seq<bool>)
    ensures |z| == |x| && forall i :: 0 <= i < |x| ==> z[i] == (i + k < |x| && x[i + k])
  {
    seq(|x|, i requires 0 <= i < |x| => i + k < |x| && x[i + k])
  }

  /** Sums can be regrouped. */
  lemma Interchange(a: seq<bool>, b: seq<bool>, c: seq<bool>, d: seq<bool>)
    requires |a| == |b| == |c| == |d|
    ensures XorBits(XorBits(a, b), XorBits(c, d)) == XorBits(XorBits(a, c), XorBits(b, d))
  {
  }

  lemma ShiftsLinear(x: seq<bool>, y: seq<bool>, k: nat)
    requires |x| == |y|
    ensures Left(XorBits(x, y), k) == XorBits(Left(x, k), Left(y, k))
    ensures Right(XorBits(x, y), k) == XorBits(Right(x, k), Right(y, k))
  {
  }

  /** A 128-bit word as two halves. */
  datatype Wide = Wide(hi: Half, lo: Half)

  function Xor(x: Wide, y: Wide): Wide
  {
    Wide(XorBits(x.hi, y.hi), XorBits(x.lo, y.lo))
  }

  function None(): Half
  {
    seq(HALF, _ => false)
  }

  function Zero(): Wide
  {
    Wide(None(), None())
  }

  lemma XorLaws(x: Wide, y: Wide, z: Wide)
    ensures Xor(Xor(x, y), z) == Xor(x, Xor(y, z)) && Xor(x, y) == Xor(y, x) && Xor(x, Zero()) == x
  {
    assert Xor(Xor(x, y), z).hi == Xor(x, Xor(y, z)).hi && Xor(Xor(x, y), z).lo == Xor(x, Xor(y, z)).lo;
    assert Xor(x, y).hi == Xor(y, x).hi && Xor(x, y).lo == Xor(y, x).lo;
    assert Xor(x, Zero()).hi == x.hi && Xor(x, Zero()).lo == x.lo;
  }

  lemma XorRegroup(a: Wide, b: Wide, c: Wide, d: Wide)
    ensures Xor(Xor(a, b), Xor(c, d)) == Xor(Xor(a, c), Xor(b, d))
  {
    Interchange(a.hi, b.hi, c.hi, d.hi);
    Interchange(a.lo, b.lo, c.lo, d.lo);
  }

  /** A half in the low part of a double-length word. */
  function Extend(x: Half): (z: seq<bool>)
    ensures |z| == 2 * HALF
  {
    x + None()
  }

  /** Carry-less product, as wide as `a`. */
  function ClmulBits(a: seq<bool>, b: seq<bool>): (z: seq<bool>)
    ensures |z| == |a|
    decreases |b|
  {
    if b == [] then seq(|a|, _ => false)
    else
      var n := |b| - 1;
      XorBits(if b[n] then Left(a, n) else seq(|a|, _ => false), ClmulBits(a, b[..n]))
  }

  lemma {:induction false} ClmulBitsLinear(x: seq<bool>, y: seq<bool>, b: seq<bool>)
    requires |x| == |y|
    ensures ClmulBits(XorBits(x, y), b) == XorBits(ClmulBits(x, b), ClmulBits(y, b))
    decreases |b|
  {
    var none := seq(|x|, _ => false);
    assert XorBits(none, none) == none;
    if b == [] {
    } else {
      var n := |b| - 1;
      ClmulBitsLinear(x, y, b[..n]);
      ShiftsLinear(x, y, n);
      var p, q := if b[n] then Left(x, n) else none, if b[n] then Left(y, n) else none;
      Interchange(p, ClmulBits(x, b[..n]), q, ClmulBits(y, b[..n]));
    }
  }

  /** `clmulepi64`: the carry-less product of two halves. */
  function Clmul(a: Half, b: Half): Wide
  {
    var p := ClmulBits(Extend(a), b);
    Wide(p[HALF..], p[..HALF])
  }

  lemma ClmulLinear(x: Half, y: Half, b: Half)
    ensures Clmul(XorBits(x, y), b) == Xor(Clmul(x, b), Clmul(y, b))
  {
    assert Extend(XorBits(x, y)) == XorBits(Extend(x), Extend(y));
    ClmulBitsLinear(Extend(x), Extend(y), b);
    XorSlices(ClmulBits(Extend(x), b), ClmulBits(Extend(y), b));
  }

  lemma XorSlices(p: seq<bool>, q: seq<bool>)
    requires |p| == |q| == 2 * HALF
    ensures XorBits(p, q)[HALF..] == XorBits(p[HALF..], q[HALF..]) && XorBits(p, q)[..HALF] == XorBits(p[..HALF], q[..HALF])
  {
  }

  /** Unreduced Karatsuba parts: the products of the high halves, of the low halves and of the sums of halves. */
  datatype Parts = Parts(high: Wide, low: Wide, mid: Wide)

  function Multiply(x: Wide, k: Wide): Parts
  {
    Parts(Clmul(x.hi, k.hi), Clmul(x.lo, k.lo), Clmul(XorBits(x.hi, x.lo), XorBits(k.hi, k.lo)))
  }

  function Sum(p: Parts, q: Parts): Parts
  {
    Parts(Xor(p.high, q.high), Xor(p.low, q.low), Xor(p.mid, q.mid))
  }

  /** First phase of the reduction, on one 64-bit lane. */
  function Phase1(v: Half): Half
  {
    XorBits(XorBits(Left(v, 63), Left(v, 62)), Left(v, 57))
  }

  /** Second phase, on one lane. */
  function Phase2(v: Half): Half
  {
    Right(XorBits(Right(XorBits(Right(v, 5), v), 1), v), 1)
  }

  lemma Phase1Linear(x: Half, y: Half)
    ensures Phase1(XorBits(x, y)) == XorBits(Phase1(x), Phase1(y))
  {
    ShiftsLinear(x, y, 63);
    ShiftsLinear(x, y, 62);
    ShiftsLinear(x, y, 57);
    Interchange(Left(x, 63), Left(y, 63), Left(x, 62), Left(y, 62));
    Interchange(XorBits(Left(x, 63), Left(x, 62)), XorBits(Left(y, 63), Left(y, 62)), Left(x, 57), Left(y, 57));
  }

  lemma Phase2Linear(x: Half, y: Half)
    ensures Phase2(XorBits(x, y)) == XorBits(Phase2(x), Phase2(y))
  {
    ShiftsLinear(x, y, 5);
    Interchange(Right(x, 5), Right(y, 5), x, y);
    var p, q := XorBits(Right(x, 5), x), XorBits(Right(y, 5), y);
    ShiftsLinear(p, q, 1);
    Interchange(Right(p, 1), Right(q, 1), x, y);
    ShiftsLinear(XorBits(Right(p, 1), x), XorBits(Right(q, 1), y), 1);
  }

  /** `reduction`: what the first phase shifts out of a lane moves to the lane above, or into the high word. */
  function Reduction(high: Wide, low: Wide): Wide
  {
    var l := Xor(low, Wide(Phase1(low.lo), None()));
    var h := Xor(high, Wide(None(), Phase1(low.hi)));
    Xor(Xor(l, Wide(Phase2(l.hi), Phase2(l.lo))), h)
  }

  /** The middle part is folded into the others. */
  function HighOf(p: Parts): Wide
  {
    Xor(p.high, Wide(None(), Xor(Xor(p.mid, p.high), p.low).hi))
  }

  function LowOf(p: Parts): Wide
  {
    Xor(p.low, Wide(Xor(Xor(p.mid, p.high), p.low).lo, None()))
  }

  /** Then the whole is reduced. */
  function Fold(p: Parts): Wide
  {
    Reduction(HighOf(p), LowOf(p))
  }

  lemma NoneSum()
    ensures XorBits(None(), None()) == None()
  {
  }

  lemma ReductionLinear(a: Wide, b: Wide, x: Wide, y: Wide)
    ensures Reduction(Xor(a, x), Xor(b, y)) == Xor(Reduction(a, b), Reduction(x, y))
  {
    NoneSum();
    Phase1Linear(b.lo, y.lo);
    Phase1Linear(b.hi, y.hi);
    var p, q := Wide(Phase1(b.lo), None()), Wide(Phase1(y.lo), None());
    XorRegroup(b, y, p, q);
    var u, v := Wide(None(), Phase1(b.hi)), Wide(None(), Phase1(y.hi));
    XorRegroup(a, x, u, v);
    var l, k := Xor(b, p), Xor(y, q);
    Phase2Linear(l.hi, k.hi);
    Phase2Linear(l.lo, k.lo);
    var l2, k2 := Wide(Phase2(l.hi), Phase2(l.lo)), Wide(Phase2(k.hi), Phase2(k.lo));
    XorRegroup(l, k, l2, k2);
    XorRegroup(Xor(l, l2), Xor(k, k2), Xor(a, u), Xor(x, v));
  }

  lemma FoldLinear(p: Parts, q: Parts)
    ensures Fold(Sum(p, q)) == Xor(Fold(p), Fold(q))
  {
    NoneSum();
    var m, n := Xor(Xor(p.mid, p.high), p.low), Xor(Xor(q.mid, q.high), q.low);
    XorRegroup(p.mid, q.mid, p.high, q.high);
    XorRegroup(Xor(p.mid, p.high), Xor(q.mid, q.high), p.low, q.low);
    XorRegroup(p.high, q.high, Wide(None(), m.hi), Wide(None(), n.hi));
    XorRegroup(p.low, q.low, Wide(m.lo, None()), Wide(n.lo, None()));
    ReductionLinear(Xor(p.high, Wide(None(), m.hi)), Xor(p.low, Wide(m.lo, None())),
                    Xor(q.high, Wide(None(), n.hi)), Xor(q.low, Wide(n.lo, None())));
  }

  /** The product of one block and one key, `avx2_clmul_gcm`. */
  function Dot(x: Wide, k: Wide): Wide
  {
    Fold(Multiply(x, k))
  }

  lemma DotLinear(x: Wide, y: Wide, k: Wide)
    ensures Dot(Xor(x, y), k) == Xor(Dot(x, k), Dot(y, k))
  {
    ClmulLinear(x.hi, y.hi, k.hi);
    ClmulLinear(x.lo, y.lo, k.lo);
    Interchange(x.hi, y.hi, x.lo, y.lo);
    ClmulLinear(XorBits(x.hi, x.lo), XorBits(y.hi, y.lo), XorBits(k.hi, k.lo));
    FoldLinear(Multiply(x, k), Multiply(y, k));
  }

  lemma FoldZero()
    ensures Fold(Parts(Zero(), Zero(), Zero())) == Zero()
  {
    var z := Parts(Zero(), Zero(), Zero());
    NoneSum();
    FoldLinear(z, z);
    SelfSum(Fold(z));
  }

  lemma SelfSum(x: Wide)
    ensures Xor(x, x) == Zero()
  {
    assert Xor(x, x).hi == None() && Xor(x, x).lo == None();
  }

  /** Both lanes are folded, added, and reduced together. */
  function FoldLanes(p: Parts, q: Parts): Wide
  {
    Reduction(Xor(HighOf(p), HighOf(q)), Xor(LowOf(p), LowOf(q)))
  }

  lemma FoldLanesIs(p: Parts, q: Parts)
    ensures FoldLanes(p, q) == Xor(Fold(p), Fold(q))
  {
    ReductionLinear(HighOf(p), LowOf(p), HighOf(q), LowOf(q));
  }

  /** The arithmetic of the hash as an instance of aggregation; `avx2_clmul_gcm16`, `gcm8`, `gcm4` and `gcm2` are `Hash` with it. */
  function Galois(): Scheme<Wide, Parts>
  {
    Scheme((x, k) => Multiply(x, k), (p, q) => Sum(p, q), p => Fold(p), (p, q) => FoldLanes(p, q), (x, y) => Xor(x, y),
           Parts(Zero(), Zero(), Zero()), Zero())
  }

  lemma GaloisIsLinear()
    ensures Galois().Linear()
  {
    var s := Galois();
    forall law: Law<Wide, Parts>
      ensures s.Holds(law)
    {
      match law
      case FoldAdd(p, q) =>
        FoldLinear(p, q);
        FoldLanesIs(p, q);
      case DotXor(x, y, k) => DotLinear(x, y, k);
      case Assoc(x, y, z) => XorLaws(x, y, z);
      case Commute(x, y) => XorLaws(x, y, x);
      case Neutral(x) =>
        XorLaws(x, x, x);
        FoldZero();
    }
  }
}
