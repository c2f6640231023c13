/** Polynomials over the field of two elements, as sets of exponents, and congruence modulo one of them. */
module Polynomial {
  type Poly = iset<nat>

  ghost function Plus(p: Poly, q: Poly): Poly
  {
    iset j: nat | (j in p) != (j in q)
  }

  ghost predicate Raised(p: Poly, k: nat, j: nat)
  {
    j >= k && j - k in p
  }

  /** Times the `k`-th power of the indeterminate. */
  ghost function Raise(p: Poly, k: nat): Poly
  {
    iset j: nat | Raised(p, k, j)
  }

  /** Bit `i` of a string is the coefficient of power `i`. */
  ghost function Of(s: seq<bool>): Poly
  {
    iset j: nat | j < |s| && s[j]
  }

  ghost function If(b: bool, p: Poly): Poly
  {
    if b then p else iset{}
  }

  /** The product of a bit string and a polynomial. */
  ghost function Times(s: seq<bool>, p: Poly): Poly
  {
    if s == [] then iset{} else Plus(If(s[0], p), Raise(Times(s[1..], p), 1))
  }

  lemma PlusLaws(p: Poly, q: Poly, r: Poly)
    ensures Plus(p, q) == Plus(q, p) && Plus(Plus(p, q), r) == Plus(p, Plus(q, r)) && Plus(p, iset{}) == p && Plus(p, p) == iset{}
  {
  }

  lemma Swap(a: Poly, b: Poly, c: Poly, d: Poly)
    ensures Plus(Plus(a, b), Plus(c, d)) == Plus(Plus(a, c), Plus(b, d))
  {
  }

  lemma RaisePlus(p: Poly, q: Poly, k: nat)
    ensures Raise(Plus(p, q), k) == Plus(Raise(p, k), Raise(q, k))
  {
  }

  lemma RaiseRaise(p: Poly, a: nat, b: nat)
    ensures Raise(Raise(p, a), b) == Raise(p, a + b)
  {
  }

  lemma {:induction false} TimesNothing(s: seq<bool>)
    ensures Times(s, iset{}) == iset{}
  {
    if s == [] {
    } else {
      TimesNothing(s[1..]);
    }
  }

  lemma {:induction false} TimesPlus(s: seq<bool>, p: Poly, q: Poly)
    ensures Times(s, Plus(p, q)) == Plus(Times(s, p), Times(s, q))
  {
    if s == [] {
    } else {
      TimesPlus(s[1..], p, q);
      RaisePlus(Times(s[1..], p), Times(s[1..], q), 1);
      Swap(If(s[0], p), If(s[0], q), Raise(Times(s[1..], p), 1), Raise(Times(s[1..], q), 1));
    }
  }

  lemma {:induction false} TimesRaise(s: seq<bool>, p: Poly, k: nat)
    ensures Times(s, Raise(p, k)) == Raise(Times(s, p), k)
  {
    if s == [] {
    } else {
      TimesRaise(s[1..], p, k);
      RaiseRaise(Times(s[1..], p), k, 1);
      RaiseRaise(Times(s[1..], p), 1, k);
      RaisePlus(If(s[0], p), Raise(Times(s[1..], p), 1), k);
    }
  }

  lemma {:induction false} TimesTimes(s: seq<bool>, t: seq<bool>, p: Poly)
    ensures Times(s, Times(t, p)) == Times(t, Times(s, p))
  {
    if s == [] {
      TimesNothing(t);
    } else {
      TimesTimes(s[1..], t, p);
      TimesPlus(t, If(s[0], p), Raise(Times(s[1..], p), 1));
      TimesRaise(t, Times(s[1..], p), 1);
      TimesNothing(t);
    }
  }

  lemma {:induction false} TimesOne(s: seq<bool>)
    ensures Times(s, iset{0}) == Of(s)
  {
    if s == [] {
    } else {
      TimesOne(s[1..]);
    }
  }

  /** Either factor may be the bit string. */
  lemma Commute(s: seq<bool>, t: seq<bool>)
    ensures Times(s, Of(t)) == Times(t, Of(s))
  {
    TimesOne(s);
    TimesOne(t);
    TimesTimes(s, t, iset{0});
  }

  lemma {:induction false} TimesAppend(s: seq<bool>, t: seq<bool>, p: Poly)
    ensures Times(s + t, p) == Plus(Times(s, p), Raise(Times(t, p), |s|))
  {
    if s == [] {
      assert s + t == t;
    } else {
      assert (s + t)[1..] == s[1..] + t;
      TimesAppend(s[1..], t, p);
      RaisePlus(Times(s[1..], p), Raise(Times(t, p), |s| - 1), 1);
      RaiseRaise(Times(t, p), |s| - 1, 1);
      PlusLaws(If(s[0], p), Raise(Times(s[1..], p), 1), Raise(Times(t, p), |s|));
    }
  }

  /** The sum of two strings of any lengths. */
  ghost function Sum(s: seq<bool>, t: seq<bool>): seq<bool>
  {
    if s == [] then t else if t == [] then s else [s[0] != t[0]] + Sum(s[1..], t[1..])
  }

  lemma {:induction false} TimesSum(s: seq<bool>, t: seq<bool>, p: Poly)
    ensures Times(Sum(s, t), p) == Plus(Times(s, p), Times(t, p))
  {
    if s == [] {
      PlusLaws(Times(t, p), iset{}, iset{});
    } else if t != [] {
      TimesSum(s[1..], t[1..], p);
      assert Sum(s, t)[1..] == Sum(s[1..], t[1..]);
      RaisePlus(Times(s[1..], p), Times(t[1..], p), 1);
      Swap(If(s[0], p), Raise(Times(s[1..], p), 1), If(t[0], p), Raise(Times(t[1..], p), 1));
    }
  }

  /** Multiples of a modulus. */
  ghost predicate Multiple(p: Poly, m: Poly)
  {
    exists g: seq<bool> :: p == Times(g, m)
  }

  lemma MultipleZero(m: Poly)
    ensures Multiple(iset{}, m)
  {
    assert Times([], m) == iset{};
  }

  lemma MultiplePlus(p: Poly, q: Poly, m: Poly)
    requires Multiple(p, m) && Multiple(q, m)
    ensures Multiple(Plus(p, q), m)
  {
    var g, h :| p == Times(g, m) && q == Times(h, m);
    TimesSum(g, h, m);
  }

  lemma {:induction false} MultipleRaise(p: Poly, k: nat, m: Poly)
    requires Multiple(p, m)
    ensures Multiple(Raise(p, k), m)
  {
    if k == 0 {
      assert Raise(p, 0) == p;
    } else {
      MultipleRaise(p, k - 1, m);
      var g :| Raise(p, k - 1) == Times(g, m);
      assert ([false] + g)[1..] == g;
      assert Times([false] + g, m) == Raise(Raise(p, k - 1), 1);
      RaiseRaise(p, k - 1, 1);
    }
  }

  lemma {:induction false} MultipleTimes(s: seq<bool>, p: Poly, m: Poly)
    requires Multiple(p, m)
    ensures Multiple(Times(s, p), m)
  {
    MultipleZero(m);
    if s == [] {
    } else {
      MultipleTimes(s[1..], p, m);
      MultipleRaise(Times(s[1..], p), 1, m);
      MultiplePlus(If(s[0], p), Raise(Times(s[1..], p), 1), m);
    }
  }

  /** A power of the indeterminate may be cancelled when the modulus has a constant term. */
  lemma {:induction false} MultipleCancel(p: Poly, k: nat, m: Poly)
    requires 0 in m && Multiple(Raise(p, k), m)
    ensures Multiple(p, m)
    decreases k
  {
    if k == 0 {
      assert Raise(p, 0) == p;
    } else {
      RaiseRaise(p, k - 1, 1);
      var g :| Raise(p, k) == Times(g, m);
      CancelOne(Raise(p, k - 1), g, m);
      MultipleCancel(p, k - 1, m);
    }
  }

  lemma CancelOne(p: Poly, g: seq<bool>, m: Poly)
    requires 0 in m && Raise(p, 1) == Times(g, m)
    ensures Multiple(p, m)
  {
    if g == [] {
      assert forall j :: j in p ==> j + 1 in Raise(p, 1);
      assert p == iset{};
      MultipleZero(m);
    } else {
      var q := Times(g[1..], m);
      assert 0 !in Raise(p, 1);
      assert !g[0];
      assert Raise(p, 1) == Raise(q, 1);
      forall j: nat
        ensures j in p <==> j in q
      {
        assert j in p <==> j + 1 in Raise(p, 1);
        assert j in q <==> j + 1 in Raise(q, 1);
      }
      assert p == q;
    }
  }

  /** A multiple is zero or reaches the degree of the modulus. */
  lemma {:induction false} MultipleReaches(g: seq<bool>, m: Poly, d: nat)
    requires d in m && forall j :: j in m ==> j <= d
    ensures Times(g, m) == iset{} || exists j :: j >= d && j in Times(g, m)
  {
    if g == [] {
    } else {
      var q := Times(g[1..], m);
      MultipleReaches(g[1..], m, d);
      if q == iset{} {
        assert Times(g, m) == If(g[0], m);
      } else {
        var j :| j >= d && j in q;
        assert j + 1 in Times(g, m);
      }
    }
  }

  ghost predicate Cong(p: Poly, q: Poly, m: Poly)
  {
    Multiple(Plus(p, q), m)
  }

  lemma CongSame(p: Poly, m: Poly)
    ensures Cong(p, p, m)
  {
    PlusLaws(p, p, p);
    MultipleZero(m);
  }

  lemma CongSwap(p: Poly, q: Poly, m: Poly)
    requires Cong(p, q, m)
    ensures Cong(q, p, m)
  {
    PlusLaws(p, q, p);
  }

  lemma CongTrans(p: Poly, q: Poly, r: Poly, m: Poly)
    requires Cong(p, q, m) && Cong(q, r, m)
    ensures Cong(p, r, m)
  {
    MultiplePlus(Plus(p, q), Plus(q, r), m);
    assert Plus(Plus(p, q), Plus(q, r)) == Plus(p, r);
  }

  lemma CongPlus(p: Poly, q: Poly, p': Poly, q': Poly, m: Poly)
    requires Cong(p, q, m) && Cong(p', q', m)
    ensures Cong(Plus(p, p'), Plus(q, q'), m)
  {
    MultiplePlus(Plus(p, q), Plus(p', q'), m);
    Swap(p, q, p', q');
  }

  lemma CongRaise(p: Poly, q: Poly, k: nat, m: Poly)
    requires Cong(p, q, m)
    ensures Cong(Raise(p, k), Raise(q, k), m)
  {
    MultipleRaise(Plus(p, q), k, m);
    RaisePlus(p, q, k);
  }

  lemma CongTimes(s: seq<bool>, p: Poly, q: Poly, m: Poly)
    requires Cong(p, q, m)
    ensures Cong(Times(s, p), Times(s, q), m)
  {
    MultipleTimes(s, Plus(p, q), m);
    TimesPlus(s, p, q);
  }

  lemma CongCancel(p: Poly, q: Poly, k: nat, m: Poly)
    requires 0 in m && Cong(Raise(p, k), Raise(q, k), m)
    ensures Cong(p, q, m)
  {
    RaisePlus(p, q, k);
    MultipleCancel(Plus(p, q), k, m);
  }

  /** Below the degree of the modulus, congruent polynomials are the same. */
  lemma CongUnique(p: Poly, q: Poly, m: Poly, d: nat)
    requires d in m && (forall j :: j in m ==> j <= d) && Cong(p, q, m)
    requires (forall j :: j in p ==> j < d) && (forall j :: j in q ==> j < d)
    ensures p == q
  {
    var g :| Plus(p, q) == Times(g, m);
    MultipleReaches(g, m, d);
    assert Plus(p, q) == iset{};
    forall j: nat
      ensures j in p <==> j in q
    {
      assert j !in Plus(p, q);
    }
  }
}
