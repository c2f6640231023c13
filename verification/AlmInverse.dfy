/** The almost Montgomery inversion in place: the branching form and the constant-time form, both proved against the same run. */
module AlmInverse {
  import opened Arith
  import opened Digits
  import opened Words
  import opened Bnu
  import opened Kaliski
  import WordMont

  /** The four numbers of a state, side by side in the order u, s, v, t; the last may carry into an extra word. */
  ghost predicate Holds(q: Ptr, n: nat, x: State, ext: nat)
    requires q.Has(4 * n)
    reads q.a
  {
    && Num(q, n) == x.u && Num(q.At(n), n) == x.s && Num(q.At(2 * n), n) == x.v
    && Num(q.At(3 * n), n) + ext * Pow(B, n) == x.t
  }

  /** `u` even: `u = u/2`, `s = 2s`. */
  method HalveU(q: Ptr, n: nat, ghost x: State)
    requires 0 < n && q.Has(4 * n) && Holds(q, n, x, 0) && x.u % 2 == 0 && 2 * x.s < Pow(B, n)
    modifies q.a
    ensures Holds(q, n, Next(x), 0) && Only(q, 4 * n)
  {
    Lsr1(q, q, n);
    var lost := Add(q.At(n), q.At(n), q.At(n), n);
    NoCarry(Num(q.At(n), n), lost, Pow(B, n), 2 * x.s);
  }

  lemma NoCarry(low: nat, carry: nat, p: nat, total: nat)
    requires low + carry * p == total && total < p && carry <= 1
    ensures carry == 0 && low == total
  {
  }

  /** `v` even: `v = v/2`, `t = 2t`. */
  method HalveV(q: Ptr, n: nat, ghost x: State)
    requires 0 < n && q.Has(4 * n) && Holds(q, n, x, 0) && x.u % 2 == 1 && x.v % 2 == 0 && 2 * x.t < Pow(B, n)
    modifies q.a
    ensures Holds(q, n, Next(x), 0) && Only(q, 4 * n)
  {
    Lsr1(q.At(2 * n), q.At(2 * n), n);
    var lost := Add(q.At(3 * n), q.At(3 * n), q.At(3 * n), n);
    NoCarry(Num(q.At(3 * n), n), lost, Pow(B, n), 2 * x.t);
  }

  /** The larger number less the smaller, halved. */
  method SubHalve(w: Ptr, o: Ptr, n: nat)
    requires 0 < n && w.Has(n) && o.Has(n) && Apart(w, n, o, n) && Num(o, n) <= Num(w, n)
    modifies w.a
    ensures Num(w, n) == (old(Num(w, n)) - old(Num(o, n))) / 2 && Only(w, n)
  {
    ghost var x, y := Num(w, n), Num(o, n);
    var borrow := Sub(w, w, o, n);
    NumBound(w, n);
    assert Num(w, n) == x - y;
    Lsr1(w, w, n);
  }

  /** `u > v`: `u = (u-v)/2`, `t = t+s`, `s = 2s`. */
  method SubtractU(q: Ptr, n: nat, ghost x: State)
    requires 0 < n && q.Has(4 * n) && Holds(q, n, x, 0) && x.u % 2 == 1 && x.v % 2 == 1 && x.u > x.v
    requires 2 * x.s < Pow(B, n) && x.t + x.s < Pow(B, n)
    modifies q.a
    ensures Holds(q, n, Next(x), 0) && Only(q, 4 * n)
  {
    hide Val;
    var s, v, t := q.At(n), q.At(2 * n), q.At(3 * n);
    SubHalve(q, v, n);
    var lost := Add(t, t, s, n);
    NoCarry(Num(t, n), lost, Pow(B, n), x.t + x.s);
    lost := Add(s, s, s, n);
    NoCarry(Num(s, n), lost, Pow(B, n), 2 * x.s);
  }

  /** `v >= u`: `v = (v-u)/2`, `s = s+t`, `t = 2t`; only here can the sum exceed the words, and then the carry is handed out. */
  method SubtractV(q: Ptr, n: nat, ghost x: State) returns (carry: nat)
    requires 0 < n && q.Has(4 * n) && Holds(q, n, x, 0) && x.u % 2 == 1 && x.v % 2 == 1 && x.u <= x.v
    requires x.s + x.t < Pow(B, n)
    modifies q.a
    ensures Holds(q, n, Next(x), carry) && carry <= 1 && Only(q, 4 * n)
  {
    hide Val;
    var s, v, t := q.At(n), q.At(2 * n), q.At(3 * n);
    SubHalve(v, q, n);
    var lost := Add(s, s, t, n);
    NoCarry(Num(s, n), lost, Pow(B, n), x.s + x.t);
    carry := Add(t, t, t, n);
  }

  /** What a loop over the states keeps: the run it is part of, and that only a finished state may have a carry. */
  ghost predicate Running(x: State, a: nat, m: nat, ext: nat)
  {
    && Good(x, a, m) && Run(x) == Final(a, m)
    && ext <= 1 && (x.v > 0 ==> ext == 0)
  }

  /** Room for the next cofactors. */
  lemma NextFits(x: State, a: nat, m: nat, p: nat)
    requires Good(x, a, m) && x.v > 0 && m < p
    ensures Good(Next(x), a, m) && Next(x).s < p && (Next(x).v > 0 ==> Next(x).t < p)
    ensures Next(x).u + Next(x).v < x.u + x.v && (x.u % 2 == 0 || x.v % 2 == 0 || x.u > x.v ==> Next(x).v > 0)
  {
    KeepsGood(x, a, m);
  }

  lemma FinishedNoCarry(low: nat, ext: nat, p: nat, t: nat)
    requires low + ext * p == t && t < p && ext <= 1
    ensures ext == 0
  {
  }

  /** One turn in place. */
  method Turn(q: Ptr, n: nat, ghost x: State, ghost a: nat, ghost m: nat) returns (ext: nat)
    requires 0 < n && q.Has(4 * n) && Holds(q, n, x, 0) && Running(x, a, m, 0) && x.v > 0 && m < Pow(B, n)
    modifies q.a
    ensures Holds(q, n, Next(x), ext) && Running(Next(x), a, m, ext) && Only(q, 4 * n)
    ensures Next(x).u + Next(x).v < x.u + x.v && Next(x).k == x.k + 1
  {
    hide Val;
    NextFits(x, a, m, Pow(B, n));
    LowBit(q, n);
    LowBit(q.At(2 * n), n);
    ext := 0;
    if q.a[q.o] % 2 == 0 {
      HalveU(q, n, x);
    } else if q.a[q.o + 2 * n] % 2 == 0 {
      HalveV(q, n, x);
    } else {
      var sign := Cmp(q, q.At(2 * n), n);
      if sign > 0 {
        SubtractU(q, n, x);
      } else {
        ext := SubtractV(q, n, x);
        if Next(x).v > 0 {
          FinishedNoCarry(Num(q.At(3 * n), n), ext, Pow(B, n), Next(x).t);
        }
      }
    }
  }

  /** The starting state: the modulus, one, the number and zero. */
  method Start(q: Ptr, a: Ptr, m: Ptr, n: nat)
    requires 0 < n && q.Has(4 * n) && a.Has(n) && m.Has(n) && Apart(q, 4 * n, a, n) && Apart(q, 4 * n, m, n)
    requires Num(a, n) < Num(m, n)
    modifies q.a
    ensures Holds(q, n, Initial(old(Num(a, n)), old(Num(m, n))), 0) && Only(q, 4 * n)
    ensures Running(Initial(old(Num(a, n)), old(Num(m, n))), old(Num(a, n)), old(Num(m, n)), 0)
  {
    hide Val;
    InitialGood(Num(a, n), Num(m, n));
    CarryFits();
    Copy(q, m, n);
    SetWord(q.At(n), n, 1);
    Copy(q.At(2 * n), a, n);
    SetWord(q.At(3 * n), n, 0);
  }

  lemma CarryFits()
    ensures 1 < B
  {
    Pow2Even(CHUNK_BITS);
  }

  /** The last two subtractions: `t mod m`, then its negation. */
  method Finish(r: Ptr, t: Ptr, m: Ptr, n: nat, ext: nat)
    requires r.Has(n) && t.Has(n) && m.Has(n) && Apart(r, n, t, n) && Apart(r, n, m, n) && ext <= 1 && 0 < Num(m, n)
    requires Num(t, n) + ext * Pow(B, n) < 2 * Num(m, n)
    modifies r.a
    ensures Num(r, n) == old(Num(m, n)) - Rem(old(Num(t, n)) + ext * Pow(B, n), old(Num(m, n))) && Only(r, n)
  {
    ghost var T, M := Num(t, n) + ext * Pow(B, n), Num(m, n);
    WordMont.SubtractInto(r, t, m, n, ext);
    OnceIsRem(Num(r, n), T, M);
    ghost var y := Num(r, n);
    NumBound(m, n);
    var borrow := Sub(r, m, r, n);
    NumBound(r, n);
    NoBorrow(M, y, Num(r, n), borrow, Pow(B, n));
  }

  lemma OnceIsRem(r: nat, v: int, m: nat)
    requires WordMont.Once(r, v, m)
    ensures r == Rem(v, m)
  {
    DivModUnique(v, m, if r == v then 0 else 1, r);
    RemIsMod(v, m);
  }

  lemma NoBorrow(m: nat, y: nat, d: nat, borrow: nat, p: nat)
    requires d - borrow * p == m - y && y < m && d < p && borrow <= 1
    ensures d == m - y
  {
  }

  /**
   * `alm_mont_inv` with its buffer: the number of turns and the almost inverse when there is one, zero otherwise.
   */
  method Invert(r: Ptr, a: Ptr, q: Ptr, m: Ptr, n: nat) returns (k: nat)
    requires 0 < n && q.Has(4 * n) && a.Has(n) && m.Has(n) && r.Has(n)
    requires Apart(q, 4 * n, a, n) && Apart(q, 4 * n, m, n) && Apart(r, n, q, 4 * n) && Apart(r, n, m, n)
    requires Num(m, n) % 2 == 1 && 1 < Num(m, n) && Num(a, n) < Num(m, n)
    modifies r.a, q.a
    ensures var x := Final(old(Num(a, n)), old(Num(m, n))); k == if x.u == 1 then x.k else 0
    ensures var x := Final(old(Num(a, n)), old(Num(m, n))); x.u == 1 ==> Num(r, n) == old(Num(m, n)) - Rem(x.t, old(Num(m, n)))
    ensures OnlyTwo(r, n, q, 4 * n)
  {
    hide Val;
    ghost var av, mv := Num(a, n), Num(m, n);
    AlmostInverse(av, mv);
    NumBound(m, n);
    Start(q, a, m, n);
    var ext: nat;
    k, ext := Loop(q, n, av, mv);
    var one := IsWord(q, n, OneWord());
    if !one {
      k := 0;
    } else {
      Finish(r, q.At(3 * n), m, n, ext);
    }
  }

  function OneWord(): (w: word)
    ensures w == 1
  {
    CarryFits();
    1
  }

  /** The loop, to the state in which `v` is zero. */
  method Loop(q: Ptr, n: nat, ghost a: nat, ghost m: nat) returns (k: nat, ext: nat)
    requires 0 < n && q.Has(4 * n) && m > 0 && m < Pow(B, n) && a < m
    requires Holds(q, n, Initial(a, m), 0) && Running(Initial(a, m), a, m, 0)
    modifies q.a
    ensures Holds(q, n, Final(a, m), ext) && k == Final(a, m).k && ext <= 1 && Only(q, 4 * n)
  {
    hide Val;
    ghost var x := Initial(a, m);
    k, ext := 0, 0;
    var done := IsWord(q.At(2 * n), n, 0);
    while !done
      invariant Holds(q, n, x, ext) && Running(x, a, m, ext) && k == x.k && Only(q, 4 * n)
      invariant done <==> x.v == 0
      decreases x.u + x.v
    {
      var carry := Turn(q, n, x, a, m);
      ext := ext + carry;
      x := Next(x);
      k := k + 1;
      done := IsWord(q.At(2 * n), n, 0);
    }
  }

  /** Scratch numbers of the constant-time form. */
  function X(q: Ptr, n: nat): Ptr
  {
    q.At(4 * n)
  }

  function Y(q: Ptr, n: nat): Ptr
  {
    q.At(5 * n)
  }

  /** Computes a halved number and a doubled cofactor in scratch storage. */
  method Candidates(q: Ptr, n: nat, w: Ptr, c: Ptr) returns (carry: nat)
    requires 0 < n && q.Has(6 * n) && w.Has(n) && c.Has(n) && Apart(X(q, n), 2 * n, w, n) && Apart(X(q, n), 2 * n, c, n)
    modifies q.a
    ensures Num(X(q, n), n) == old(Num(w, n)) / 2 && carry <= 1 && Only(X(q, n), 2 * n)
    ensures Num(Y(q, n), n) + carry * Pow(B, n) == 2 * old(Num(c, n))
  {
    Lsr1(X(q, n), w, n);
    carry := Add(Y(q, n), c, c, n);
  }

  /** The halved difference of two numbers and a doubled cofactor in scratch storage. */
  method DifferenceCandidates(q: Ptr, n: nat, w: Ptr, o: Ptr, c: Ptr) returns (borrow: nat, carry: nat)
    requires 0 < n && q.Has(6 * n) && w.Has(n) && o.Has(n) && c.Has(n)
    requires Apart(X(q, n), 2 * n, w, n) && Apart(X(q, n), 2 * n, o, n) && Apart(X(q, n), 2 * n, c, n)
    modifies q.a
    ensures borrow <= 1 && (borrow == 0 <==> old(Num(o, n)) <= old(Num(w, n))) && carry <= 1 && Only(X(q, n), 2 * n)
    ensures borrow == 0 ==> Num(X(q, n), n) == (old(Num(w, n)) - old(Num(o, n))) / 2
    ensures Num(Y(q, n), n) + carry * Pow(B, n) == 2 * old(Num(c, n))
  {
    hide Val;
    ghost var x, y := Num(w, n), Num(o, n);
    NumBound(w, n);
    NumBound(o, n);
    borrow := Sub(X(q, n), w, o, n);
    NumBound(X(q, n), n);
    assert borrow == 0 ==> Num(X(q, n), n) == x - y;
    Lsr1(X(q, n), X(q, n), n);
    carry := Add(Y(q, n), c, c, n);
  }

  /** First branch under its mask. */
  method HalveUMasked(q: Ptr, n: nat, mask: bool, ghost x: State, ghost ext: nat)
    requires 0 < n && q.Has(6 * n) && Holds(q, n, x, ext)
    requires mask ==> ext == 0 && x.u % 2 == 0 && 2 * x.s < Pow(B, n)
    modifies q.a
    ensures Holds(q, n, if mask then Next(x) else x, ext) && Only(q, 6 * n)
  {
    hide Val;
    var lost := Candidates(q, n, q, q.At(n));
    if mask {
      NoCarry(Num(Y(q, n), n), lost, Pow(B, n), 2 * x.s);
    }
    assert q.At(0) == q;
    Commit(q, 0, X(q, n), n, mask);
    Commit(q, n, Y(q, n), n, mask);
  }

  /** One of the four numbers replaced under a mask, by a candidate or by something elsewhere; all others stay. */
  method Commit(q: Ptr, at: nat, a: Ptr, n: nat, mask: bool)
    requires q.Has(6 * n) && a.Has(n) && at in {0, n, 2 * n, 3 * n} && (a == X(q, n) || a == Y(q, n) || Apart(a, n, q, 6 * n))
    modifies q.a
    ensures Num(q.At(at), n) == if mask then old(Num(a, n)) else old(Num(q.At(at), n))
    ensures at != 0 ==> Num(q, n) == old(Num(q, n))
    ensures at != n ==> Num(q.At(n), n) == old(Num(q.At(n), n))
    ensures at != 2 * n ==> Num(q.At(2 * n), n) == old(Num(q.At(2 * n), n))
    ensures at != 3 * n ==> Num(q.At(3 * n), n) == old(Num(q.At(3 * n), n))
    ensures Num(Y(q, n), n) == old(Num(Y(q, n), n)) && Only(q, 6 * n)
  {
    hide Val;
    Replace(q.At(at), a, n, mask);
  }

  /** Second branch under its mask. */
  method HalveVMasked(q: Ptr, n: nat, mask: bool, ghost x: State, ghost ext: nat)
    requires 0 < n && q.Has(6 * n) && Holds(q, n, x, ext)
    requires mask ==> ext == 0 && x.u % 2 == 1 && x.v % 2 == 0 && 2 * x.t < Pow(B, n)
    modifies q.a
    ensures Holds(q, n, if mask then Next(x) else x, ext) && Only(q, 6 * n)
  {
    hide Val;
    var lost := Candidates(q, n, q.At(2 * n), q.At(3 * n));
    if mask {
      NoCarry(Num(Y(q, n), n), lost, Pow(B, n), 2 * x.t);
    }
    Commit(q, 2 * n, X(q, n), n, mask);
    Commit(q, 3 * n, Y(q, n), n, mask);
  }

  /** Third branch: `v`, `s` and `t` are replaced from scratch storage and the precomputed sum. */
  method CommitV(r: Ptr, q: Ptr, n: nat, mask: bool, ghost x: State, ghost y: State, ghost ext: nat, ghost ext': nat)
    requires q.Has(6 * n) && r.Has(n) && Apart(r, n, q, 6 * n) && Holds(q, n, x, ext)
    requires mask ==> Num(X(q, n), n) == y.v && Num(r, n) == y.s && Num(Y(q, n), n) + ext' * Pow(B, n) == y.t && y.u == x.u
    requires !mask ==> ext' == ext
    modifies q.a
    ensures Holds(q, n, if mask then y else x, ext') && Only(q, 6 * n)
  {
    hide Val;
    Commit(q, 2 * n, X(q, n), n, mask);
    Commit(q, n, r, n, mask);
    Commit(q, 3 * n, Y(q, n), n, mask);
  }

  /** The third branch under its mask, which the borrow decides; the carry counts only when the branch is taken. */
  method SubtractVMasked(r: Ptr, q: Ptr, n: nat, active: bool, ghost x: State, ext: nat) returns (mask: bool, ext': nat)
    requires 0 < n && q.Has(6 * n) && r.Has(n) && Apart(r, n, q, 6 * n) && Holds(q, n, x, ext)
    requires active ==> ext == 0 && x.u % 2 == 1 && x.v % 2 == 1 && Num(r, n) == x.s + x.t
    modifies q.a
    ensures (mask <==> active && x.u <= x.v) && Only(q, 6 * n)
    ensures Holds(q, n, if mask then Next(x) else x, ext') && (if mask then ext' <= 1 else ext' == ext)
  {
    hide Val;
    var borrow, carry := DifferenceCandidates(q, n, q.At(2 * n), q, q.At(3 * n));
    mask := active && borrow == 0;
    ext' := ext + (if mask then carry else 0);
    CommitV(r, q, n, mask, x, Next(x), ext, ext');
  }

  /** Fourth branch: `u`, `t` and `s` are replaced. */
  method CommitU(r: Ptr, q: Ptr, n: nat, mask: bool, ghost x: State, ghost y: State, ghost ext: nat)
    requires q.Has(6 * n) && r.Has(n) && Apart(r, n, q, 6 * n) && Holds(q, n, x, ext)
    requires mask ==> Num(X(q, n), n) == y.u && Num(r, n) == y.t && Num(Y(q, n), n) == y.s && y.v == x.v && ext == 0
    modifies q.a
    ensures Holds(q, n, if mask then y else x, ext) && Only(q, 6 * n)
  {
    hide Val;
    assert q.At(0) == q;
    Commit(q, 0, X(q, n), n, mask);
    Commit(q, 3 * n, r, n, mask);
    Commit(q, n, Y(q, n), n, mask);
  }

  /** The fourth branch under its mask. */
  method SubtractUMasked(r: Ptr, q: Ptr, n: nat, mask: bool, ghost x: State, ghost ext: nat)
    requires 0 < n && q.Has(6 * n) && r.Has(n) && Apart(r, n, q, 6 * n) && Holds(q, n, x, ext)
    requires mask ==> ext == 0 && x.u % 2 == 1 && x.v % 2 == 1 && x.u > x.v && Num(r, n) == x.s + x.t && 2 * x.s < Pow(B, n)
    modifies q.a
    ensures Holds(q, n, if mask then Next(x) else x, ext) && Only(q, 6 * n)
  {
    hide Val;
    var borrow, lost := DifferenceCandidates(q, n, q, q.At(2 * n), q.At(n));
    if mask {
      NoCarry(Num(Y(q, n), n), lost, Pow(B, n), 2 * x.s);
    }
    CommitU(r, q, n, mask, x, Next(x), ext);
  }

  lemma NoExtension(v: int, ext: int, p: int, t: int)
    requires ext == 0 && v + ext * p == t
    ensures v == t
  {
  }

  /** The sum `s + t`, computed ahead of the branches that need it. */
  method SumAhead(r: Ptr, q: Ptr, n: nat, ghost x: State, ghost ext: nat, ghost a: nat, ghost m: nat)
    requires 0 < n && q.Has(6 * n) && r.Has(n) && Apart(r, n, q, 6 * n) && Holds(q, n, x, ext) && Running(x, a, m, ext)
    requires m < Pow(B, n)
    modifies r.a
    ensures Holds(q, n, x, ext) && Only(r, n)
    ensures x.v > 0 && x.u % 2 == 1 && x.v % 2 == 1 ==> Num(r, n) == x.s + x.t
  {
    hide Val;
    if x.v > 0 {
      NoExtension(Num(q.At(3 * n), n), ext, Pow(B, n), x.t);
    }
    var lost := Add(r, q.At(n), q.At(3 * n), n);
    if x.v > 0 && x.u % 2 == 1 && x.v % 2 == 1 {
      SumFits(x, a, m, Pow(B, n));
      NoCarry(Num(r, n), lost, Pow(B, n), x.s + x.t);
    }
  }

  lemma SumFits(x: State, a: nat, m: nat, p: nat)
    requires Good(x, a, m) && x.v > 0 && x.u % 2 == 1 && x.v % 2 == 1 && m < p
    ensures x.s + x.t < p
  {
    NextFits(x, a, m, p);
  }

  /** The four masked branches of one iteration: together they take one turn, or none when the run is over. */
  method MaskedTurn(r: Ptr, q: Ptr, n: nat, ext: nat, update: bool, ghost x: State, ghost a: nat, ghost m: nat) returns (ext': nat)
    requires 0 < n && q.Has(6 * n) && r.Has(n) && Apart(r, n, q, 6 * n) && Holds(q, n, x, ext) && Running(x, a, m, ext)
    requires m < Pow(B, n) && (update <==> x.v > 0)
    requires update && x.u % 2 == 1 && x.v % 2 == 1 ==> Num(r, n) == x.s + x.t
    modifies q.a
    ensures Holds(q, n, if update then Next(x) else x, ext') && (!update ==> ext' == ext) && ext' <= 1 && Only(q, 6 * n)
  {
    hide Val;
    if update {
      NextFits(x, a, m, Pow(B, n));
    }
    LowBit(q, n);
    var first := update && q.a[q.o] % 2 == 0;
    HalveUMasked(q, n, first, x, ext);
    ghost var y := if first then Next(x) else x;
    LowBit(q.At(2 * n), n);
    var second := update && !first && q.a[q.o + 2 * n] % 2 == 0;
    HalveVMasked(q, n, second, y, ext);
    var either := first || second;
    y := if either then Next(x) else x;
    var third;
    third, ext' := SubtractVMasked(r, q, n, update && !either, y, ext);
    y := if either || third then Next(x) else x;
    SubtractUMasked(r, q, n, update && !either && !third, y, ext');
  }

  /** One iteration of `alm_mont_inv_ct`. */
  method Iterate(r: Ptr, q: Ptr, n: nat, ext: nat, k: nat, ghost x: State, ghost a: nat, ghost m: nat)
    returns (ext': nat, k': nat, ghost y: State)
    requires 0 < n && q.Has(6 * n) && r.Has(n) && Apart(r, n, q, 6 * n) && Holds(q, n, x, ext) && Running(x, a, m, ext)
    requires m < Pow(B, n) && k == x.k
    modifies r.a, q.a
    ensures y == (if x.v > 0 then Next(x) else x) && k' == y.k
    ensures Holds(q, n, y, ext') && Running(y, a, m, ext') && OnlyTwo(r, n, q, 6 * n)
  {
    var over := IsWord(q.At(2 * n), n, 0);
    var update := !over;
    SumAhead(r, q, n, x, ext, a, m);
    ext' := MaskedTurn(r, q, n, ext, update, x, a, m);
    k' := if update then k + 1 else k;
    y := if update then Next(x) else x;
    if update {
      NextFits(x, a, m, Pow(B, n));
      if y.v > 0 {
        FinishedNoCarry(Num(q.At(3 * n), n), ext', Pow(B, n), y.t);
      }
    }
  }

  /** All iterations: twice the size of the modulus is always enough, and those left over change nothing. */
  method Iterations(r: Ptr, q: Ptr, n: nat, bits: nat, ghost a: nat, ghost m: nat) returns (k: nat, ext: nat)
    requires 0 < n && q.Has(6 * n) && r.Has(n) && Apart(r, n, q, 6 * n)
    requires a < m < Pow(B, n) && m < Pow(2, bits)
    requires Holds(q, n, Initial(a, m), 0) && Running(Initial(a, m), a, m, 0)
    modifies r.a, q.a
    ensures Holds(q, n, Final(a, m), ext) && k == Final(a, m).k && ext <= 1 && OnlyTwo(r, n, q, 6 * n)
  {
    ghost var x := Initial(a, m);
    k, ext := 0, 0;
    for i: nat := 0 to 2 * bits
      invariant Holds(q, n, x, ext) && Running(x, a, m, ext) && k == x.k && OnlyTwo(r, n, q, 6 * n)
      invariant x.v > 0 ==> x.k == i
    {
      ext, k, x := Iterate(r, q, n, ext, k, x, a, m);
    }
    if x.v > 0 {
      NotYetOver(x, a, m, bits);
    }
  }

  /**
   * `alm_mont_inv_ct` with its buffer: the same number of turns as the branching form, and the same result whenever that is not zero.
   */
  method InvertCt(r: Ptr, a: Ptr, q: Ptr, m: Ptr, n: nat, bits: nat) returns (k: nat)
    requires 0 < n && q.Has(6 * n) && a.Has(n) && m.Has(n) && r.Has(n)
    requires Apart(q, 6 * n, a, n) && Apart(q, 6 * n, m, n) && Apart(r, n, q, 6 * n) && Apart(r, n, m, n)
    requires Num(m, n) % 2 == 1 && 1 < Num(m, n) < Pow(2, bits) && Num(a, n) < Num(m, n)
    modifies r.a, q.a
    ensures var x := Final(old(Num(a, n)), old(Num(m, n))); k == if x.u == 1 then x.k else 0
    ensures var x := Final(old(Num(a, n)), old(Num(m, n))); Num(r, n) == old(Num(m, n)) - Rem(x.t, old(Num(m, n)))
    ensures OnlyTwo(r, n, q, 6 * n)
  {
    hide Val;
    ghost var av, mv := Num(a, n), Num(m, n);
    AlmostInverse(av, mv);
    NumBound(m, n);
    Start(q, a, m, n);
    var ext: nat;
    k, ext := Iterations(r, q, n, bits, av, mv);
    SameNat(m.a, m.o, n);
    var one := Conclude(r, q, m, n, ext, Final(av, mv));
    k := if one then k else 0;
  }

  /** The result of a finished run, and whether it means anything. */
  method Conclude(r: Ptr, q: Ptr, m: Ptr, n: nat, ext: nat, ghost x: State) returns (one: bool)
    requires 0 < n && q.Has(4 * n) && m.Has(n) && r.Has(n) && Apart(r, n, q, 4 * n) && Apart(r, n, m, n)
    requires Holds(q, n, x, ext) && ext <= 1 && 0 < Num(m, n) && x.t < 2 * Num(m, n)
    modifies r.a
    ensures (one <==> x.u == 1) && Num(r, n) == old(Num(m, n)) - Rem(x.t, old(Num(m, n))) && Only(r, n)
  {
    Finish(r, q.At(3 * n), m, n, ext);
    one := IsWord(q, n, OneWord());
  }
}
