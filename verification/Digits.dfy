/** Little-endian digit sequences in an arbitrary base and the numbers they stand for. */
module Digits {
  import opened Arith

  function Val(s: seq<nat>, base: nat): nat
  {
    if s == [] then 0 else s[0] + base * Val(s[1..], base)
  }

  ghost predicate Bounded(s: seq<nat>, base: nat)
  {
    forall i :: 0 <= i < |s| ==> s[i] < base
  }

  lemma {:induction false} ValAppend(s: seq<nat>, t: seq<nat>, base: nat)
    ensures Val(s + t, base) == Val(s, base) + Pow(base, |s|) * Val(t, base)
  {
    if s == [] {
      assert s + t == t;
    } else {
      assert (s + t)[1..] == s[1..] + t;
      ValAppend(s[1..], t, base);
      var p, v := Pow(base, |s| - 1), Val(t, base);
      assert base * (Val(s[1..], base) + p * v) == base * Val(s[1..], base) + (base * p) * v by {
        Assoc(base, p, v);
      }
    }
  }

  lemma ValSingle(s: seq<nat>, base: nat)
    requires |s| == 1
    ensures Val(s, base) == s[0]
  {
    assert Val(s[1..], base) == 0;
  }

  lemma ValSnoc(s: seq<nat>, d: nat, base: nat)
    ensures Val(s + [d], base) == Val(s, base) + Pow(base, |s|) * d
  {
    ValAppend(s, [d], base);
    assert Val([d], base) == d + base * Val([], base);
  }

  /** Extending a prefix by one digit, in the form loops over an array use it. */
  lemma ValPrefix(s: seq<nat>, i: nat, base: nat)
    requires i < |s|
    ensures Val(s[..i + 1], base) == Val(s[..i], base) + Pow(base, i) * s[i]
  {
    assert s[..i + 1] == s[..i] + [s[i]];
    ValSnoc(s[..i], s[i], base);
  }

  lemma ValSplit(s: seq<nat>, i: nat, base: nat)
    requires i <= |s|
    ensures Val(s, base) == Val(s[..i], base) + Pow(base, i) * Val(s[i..], base)
  {
    assert s == s[..i] + s[i..];
    ValAppend(s[..i], s[i..], base);
  }

  lemma HeadBound(d: nat, v: nat, base: nat, p: nat)
    requires d < base && v < p
    ensures d + base * v < base * p
  {
    MulMono(v + 1, p, base);
    assert (v + 1) * base == v * base + base;
  }

  lemma {:induction false} ValBound(s: seq<nat>, base: nat)
    requires Bounded(s, base)
    ensures Val(s, base) < Pow(base, |s|)
  {
    if s == [] {
    } else {
      assert Bounded(s[1..], base);
      ValBound(s[1..], base);
      HeadBound(s[0], Val(s[1..], base), base, Pow(base, |s| - 1));
    }
  }

  lemma {:induction false} ValZeros(s: seq<nat>, base: nat)
    ensures (forall i :: 0 <= i < |s| ==> s[i] == 0) ==> Val(s, base) == 0
  {
    if s != [] && forall i :: 0 <= i < |s| ==> s[i] == 0 {
      ValZeros(s[1..], base);
    }
  }

  /** Only the zero sequence of digits stands for zero. */
  lemma {:induction false} ValIsZero(s: seq<nat>, base: nat)
    requires base > 0 && Val(s, base) == 0
    ensures forall i :: 0 <= i < |s| ==> s[i] == 0
  {
    if s == [] {
    } else {
      if Val(s[1..], base) > 0 {
        MulMono(1, Val(s[1..], base), base);
      }
      ValIsZero(s[1..], base);
      assert forall i :: 0 < i < |s| ==> s[i] == s[1..][i - 1];
    }
  }

  lemma HighPartZero(lo: nat, hi: nat, p: nat)
    requires lo + p * hi < p
    ensures hi == 0
  {
    if hi > 0 {
      MulMono(1, hi, p);
    }
  }

  /** A number small enough for `n` digits has zeros above them. */
  lemma ValHighZero(s: seq<nat>, n: nat, base: nat)
    requires n <= |s| && base > 0 && Val(s, base) < Pow(base, n)
    ensures forall i :: n <= i < |s| ==> s[i] == 0
    ensures Val(s[..n], base) == Val(s, base)
  {
    ValSplit(s, n, base);
    var high := s[n..];
    HighPartZero(Val(s[..n], base), Val(high, base), Pow(base, n));
    ValIsZero(high, base);
    forall i | n <= i < |s|
      ensures s[i] == 0
    {
      assert s[i] == high[i - n];
    }
  }

  lemma {:induction false} ValInjective(s: seq<nat>, t: seq<nat>, base: nat)
    requires |s| == |t| && Bounded(s, base) && Bounded(t, base) && Val(s, base) == Val(t, base)
    ensures s == t
  {
    if s == [] {
    } else {
      assert base > 0 && s[0] < base && t[0] < base;
      assert Bounded(s[1..], base) && Bounded(t[1..], base);
      DivModUnique(Val(s, base), base, Val(s[1..], base), s[0]);
      DivModUnique(Val(t, base), base, Val(t[1..], base), t[0]);
      ValInjective(s[1..], t[1..], base);
      assert s == [s[0]] + s[1..] && t == [t[0]] + t[1..];
    }
  }

  lemma QuotientBound(v: nat, base: nat, p: nat)
    requires base > 0 && v < base * p
    ensures v / base < p
  {
    var q := v / base;
    assert v == q * base + v % base;
    MulCancelLt(q, p, base);
  }
}
