/** `cpDiv_BNU32`: long division in place over the half words of the big numbers. */
module Division {
  import opened Arith
  import opened Bits
  import opened Digits
  import opened Words

  type digit = d: nat | d < H witness 0

  /** The number in the digits from `lo` up to `hi`. */
  ghost function Dig(x: array<digit>, lo: nat, hi: nat): nat
    requires lo <= hi <= x.Length
    reads x
  {
    Val(x[lo..hi], H)
  }

  lemma DigSnoc(x: array<digit>, lo: nat, hi: nat)
    requires lo <= hi < x.Length
    ensures Dig(x, lo, hi + 1) == Dig(x, lo, hi) + Pow(H, hi - lo) * x[hi]
  {
    var s := x[lo..hi + 1];
    ValPrefix(s, hi - lo, H);
    assert s[..hi - lo + 1] == s && s[..hi - lo] == x[lo..hi];
  }

  lemma DigSplit(x: array<digit>, lo: nat, mid: nat, hi: nat)
    requires lo <= mid <= hi <= x.Length
    ensures Dig(x, lo, hi) == Dig(x, lo, mid) + Pow(H, mid - lo) * Dig(x, mid, hi)
  {
    var s := x[lo..hi];
    ValSplit(s, mid - lo, H);
    assert s[..mid - lo] == x[lo..mid] && s[mid - lo..] == x[mid..hi];
  }

  lemma DigBound(x: array<digit>, lo: nat, hi: nat)
    requires lo <= hi <= x.Length
    ensures Dig(x, lo, hi) < Pow(H, hi - lo)
  {
    var s: seq<nat> := x[lo..hi];
    assert Bounded(s, H);
    ValBound(s, H);
  }

  lemma DigNone(x: array<digit>, lo: nat)
    requires lo <= x.Length
    ensures Dig(x, lo, lo) == 0
  {
  }

  lemma DigOne(x: array<digit>, lo: nat)
    requires lo < x.Length
    ensures Dig(x, lo, lo + 1) == x[lo]
  {
    DigSnoc(x, lo, lo);
  }

  lemma {:induction false} DigZeros(x: array<digit>, lo: nat, hi: nat)
    requires lo <= hi <= x.Length && forall i :: lo <= i < hi ==> x[i] == 0
    ensures Dig(x, lo, hi) == 0
    decreases hi
  {
    if lo == hi {
    } else {
      DigZeros(x, lo, hi - 1);
      DigSnoc(x, lo, hi - 1);
    }
  }

  /** Digits that did not change stand for the same number. */
  twostate lemma SameDig(x: array<digit>, new lo: nat, new hi: nat)
    requires lo <= hi <= x.Length && forall i :: lo <= i < hi ==> x[i] == old(x[i])
    ensures Dig(x, lo, hi) == old(Dig(x, lo, hi))
  {
    assert x[lo..hi] == old(x[lo..hi]);
  }

  /** Only the digits from `lo` up to `hi` changed. */
  twostate predicate Within(x: array<digit>, lo: nat, hi: nat)
    reads x
  {
    forall i :: 0 <= i < x.Length && (i < lo || hi <= i) ==> x[i] == old(x[i])
  }

  /** `cpFix_BNU32`: the number of digits without leading zeros, at least one. */
  method Fix(x: array<digit>, n: nat) returns (size: nat)
    requires 0 < n <= x.Length
    ensures 1 <= size <= n && (forall i :: size <= i < n ==> x[i] == 0) && (1 < size ==> x[size - 1] != 0)
    ensures Dig(x, 0, size) == Dig(x, 0, n)
  {
    var scan := true;
    size := n;
    for k: nat := n downto 0
      invariant k <= size <= n && (scan ==> size == k) && (!scan ==> 1 <= size && x[size - 1] != 0)
      invariant forall i :: size <= i < n ==> x[i] == 0
    {
      scan := scan && x[k] == 0;
      if scan {
        size := size - 1;
      }
    }
    if scan {
      size := 1;
    }
    DigZeros(x, size, n);
    DigSplit(x, 0, size, n);
  }

  // Division by one digit

  lemma ShortStep(r: nat, y: nat, d: nat, h: nat)
    requires r < y && d < h
    ensures (d + h * r) / y < h && (d + h * r) % y < y
    ensures d + h * r == y * ((d + h * r) / y) + (d + h * r) % y
  {
    var t := d + h * r;
    assert t == t / y * y + t % y;
    MulMono(r + 1, y, h);
    assert (r + 1) * h == h * r + h && h * y == y * h;
    MulCancelLt(t / y, h, y);
  }

  /** The remainder in 64-bit arithmetic, from a product that was formed in 32 bits. */
  lemma LowRemainder(t: nat, q: nat, y: nat, r: nat, h: nat)
    requires 0 < h && t == y * q + r && r < h
    ensures 0 <= t - (q * y) % h && (t - (q * y) % h) % h == r
  {
    var p := q * y;
    assert p == y * q;
    assert p == (p / h) * h + p % h;
    DivModUnique(t - p % h, h, p / h, r);
  }

  lemma DigCons(x: array<digit>, lo: nat, hi: nat)
    requires lo < hi <= x.Length
    ensures Dig(x, lo, hi) == x[lo] + H * Dig(x, lo + 1, hi)
  {
    DigSplit(x, lo, lo + 1, hi);
    DigOne(x, lo);
  }

  lemma ShortTotal(x: nat, y: nat, quot: nat, r: nat, d: nat, q: nat, r': nat, h: nat)
    requires x == y * quot + r && d + h * r == y * q + r'
    ensures d + h * x == y * (q + h * quot) + r'
  {
    assert h * (y * quot + r) == y * (h * quot) + h * r by { Exchange(h, y, quot); }
    assert y * (q + h * quot) == y * q + y * (h * quot);
  }

  /** One step of the division by one digit, in 64-bit arithmetic. */
  method ShortDigit(r: digit, d: digit, y: digit) returns (q: digit, r': digit)
    requires r < y
    ensures d + H * r == y * q + r' && r' < y
  {
    HalfBase();
    ShortStep(r, y, d, H);
    var t := d + H * r;
    q := t / y;
    LowRemainder(t, q, y, t % y, H);
    r' := (t - (q * y) % H) % H;
  }

  /** Division by one digit: the dividend is read, the quotient written where one is asked for. */
  method ShortDivide(q: array?<digit>, x: array<digit>, n: nat, y: digit) returns (r: digit, ghost quot: nat)
    requires 0 < y && n <= x.Length && (q != null ==> q != x && n <= q.Length)
    modifies q
    ensures Dig(x, 0, n) == y * quot + r && r < y
    ensures q != null ==> Dig(q, 0, n) == quot && Within(q, 0, n)
  {
    r, quot := 0, 0;
    for i: nat := n downto 0
      invariant Dig(x, i, n) == y * quot + r && r < y
      invariant q != null ==> Dig(q, i, n) == quot && Within(q, 0, n)
    {
      var d;
      ghost var above, r0, quot0 := Dig(x, i + 1, n), r, quot;
      label Here:
      d, r := ShortDigit(r, x[i], y);
      if q != null {
        q[i] := d;
        DigCons(q, i, n);
        assert q[i + 1..n] == old@Here(q[i + 1..n]);
      }
      DigCons(x, i, n);
      quot := d + H * quot0;
      ShortTotal(above, y, quot0, r0, x[i], d, r, H);
    }
  }

  // One digit of the quotient

  /** Too large a digit: the next lower one is still large enough. */
  lemma StillLarge(q: int, t: int, yh: int, y2: int, x2: int, r: int, h: int)
    requires q * yh + r == t && q * y2 > x2 + h * r
    ensures q * (yh * h + y2) > t * h + x2
  {
    assert q * (yh * h + y2) == q * (yh * h) + q * y2;
    Assoc(q, yh, h);
    assert (q * yh + r) * h == (q * yh) * h + r * h && r * h == h * r;
  }

  lemma SmallEnough(q: int, t: int, yh: int, y2: int, x2: int, r: int, h: int)
    requires q * yh + r == t && q * y2 <= x2 + h * r
    ensures q * (yh * h + y2) <= t * h + x2
  {
    assert q * (yh * h + y2) == q * (yh * h) + q * y2;
    Assoc(q, yh, h);
    assert (q * yh + r) * h == (q * yh) * h + r * h && r * h == h * r;
  }

  /** The quotient by the highest digit alone is large enough. */
  lemma FirstLarge(t: nat, e: nat, yh: nat, y2: nat, x2: nat, h: nat)
    requires 0 < yh && x2 < h && e == t / yh
    ensures t * h + x2 < (e + 1) * (yh * h + y2) && 0 <= t - e * yh < yh
  {
    var q := e + 1;
    assert t == e * yh + t % yh;
    assert q * yh == e * yh + yh;
    MulMono(t + 1, q * yh, h);
    assert (t + 1) * h == t * h + h;
    assert q * (yh * h + y2) == q * (yh * h) + q * y2;
    Assoc(q, yh, h);
    MulMono(0, q, y2);
  }

  /** Once the remainder no longer fits a digit the second digit cannot make a difference, and the quotient does fit. */
  lemma Overflowed(q: int, r: int, t: int, yh: int, y2: int, x1: int, x0: int, x2: int, h: int)
    requires q * yh + r == t && t == x0 + h * x1 && 0 <= x1 <= yh && 0 < yh && 0 <= x0 < h && 0 <= x2 && 0 <= y2 < h
    ensures q >= h ==> r < h
    ensures h <= r && 0 <= q < h ==> q * y2 <= x2 + h * r
  {
    if q >= h {
      MulMono(h, q, yh);
      MulMono(x1, yh, h);
      assert h * x1 == x1 * h && h * yh == yh * h;
    } else if h <= r && 0 <= q {
      MulMono(q, h, y2);
      MulMono(y2, h, h);
      MulMono(h, r, h);
      assert h * y2 == y2 * h && h * r == r * h;
    }
  }

  /** What holds of an estimate `q` with the remainder `r` of the two leading digits, over the base `h`. */
  ghost predicate Estimating(q: int, r: int, t: int, yh: int, low: int, top: int, h: int)
  {
    0 <= q && 0 <= r && q * yh + r == t && (q >= h - 1 || low < (q + 1) * top)
  }

  lemma NotZero(q: int, y: int)
    requires 0 <= q && 0 < q * y
    ensures 1 <= q
  {
  }

  lemma Lowered(q: int, r: int, t: int, yh: int, y2: int, x1: int, x0: int, x2: int, h: int)
    requires Estimating(q, r, t, yh, t * h + x2, yh * h + y2, h) && 0 < h
    requires t == x0 + h * x1 && 0 <= x1 <= yh && 0 < yh && 0 <= x0 < h && 0 <= x2 && 0 <= y2 < h
    requires q >= h || q * y2 > x2 + h * r
    ensures Estimating(q - 1, r + yh, t, yh, t * h + x2, yh * h + y2, h)
    ensures h <= r + yh ==> q - 1 < h && (q - 1) * y2 <= x2 + h * (r + yh)
  {
    if q < h {
      StillLarge(q, t, yh, y2, x2, r, h);
      MulMono(0, r, h);
      assert h * r == r * h;
      NotZero(q, y2);
    }
    assert (q - 1) * yh == q * yh - yh;
    Overflowed(q - 1, r + yh, t, yh, y2, x1, x0, x2, h);
  }

  /**
   * The digit estimated from three digits of the dividend and two of the divisor: with them it is the largest digit that fits.
   */
  method Estimate(x1: digit, x0: digit, x2: digit, yh: digit, y2: digit) returns (q: digit)
    requires 0 < yh && x1 <= yh
    ensures q * (yh * H + y2) <= (x0 + H * x1) * H + x2
    ensures q == H - 1 || (x0 + H * x1) * H + x2 < (q + 1) * (yh * H + y2)
  {
    var t: nat := x0 + H * x1;
    var e: nat := t / yh;
    var r: int := t - e * yh;
    FirstLarge(t, e, yh, y2, x2, H);
    ghost var low, top: int := t * H + x2, yh * H + y2;
    while e >= H || e * y2 > x2 + H * r
      invariant Estimating(e, r, t, yh, low, top, H) && r < H
      decreases e
    {
      Lowered(e, r, t, yh, y2, x1, x0, x2, H);
      e, r := e - 1, r + yh;
      if r >= H {
        break;
      }
    }
    SmallEnough(e, t, yh, y2, x2, r, H);
    q := e;
  }

  lemma Borrowed(v: int, r: int, u: int, l: int, h: int)
    requires h - h * h <= v < h && r == (if v < 0 then v + h * h else v) && r == u * h + l && 0 <= l < h && 0 <= u < h
    ensures l - (if u == 0 then 0 else h - u) * h == v
  {
    assert (h - u) * h == h * h - u * h;
    if v >= 0 && u > 0 {
      MulMono(1, u, h);
      assert false;
    }
  }

  lemma Difference(x: nat, y: nat, q: nat, c: nat, h: nat)
    requires x < h && y < h && q < h && c < h
    ensures h - h * h <= x - y * q - c < h && h <= h * h
  {
    ProductBound(y, q, h);
    MulMono(1, h, h);
    MulMono(0, y, q);
  }

  /** One digit of the multiplied divisor subtracted, in 64-bit arithmetic that wraps below zero. */
  method SubMulDigit(x: digit, y: digit, q: digit, c: digit) returns (c': digit, w: digit)
    ensures w - c' * H == x - y * q - c
  {
    HalfBase();
    Difference(x, y, q, c, H);
    var v: int := x - y * q - c;
    var r: nat := if v < 0 then v + B else v;
    Halves(r);
    var u, l := Hi(r), Lo(r);
    Borrowed(v, r, u, l, H);
    c', w := if u == 0 then 0 else H - u, l;
  }

  lemma SubMulStep(r: int, o: int, y: int, q: int, p: int, c: int, x: int, d: int, w: int, c': int, h: int)
    requires r - c * p == o - q * y && w - c' * h == x - d * q - c
    ensures (r + p * w) - c' * (h * p) == (o + p * x) - q * (y + p * d)
  {
    assert p * (w - c' * h) == p * w - p * (c' * h);
    assert p * (x - d * q - c) == p * x - p * (d * q) - p * c;
    assert p * (c' * h) == c' * (h * p) by { Exchange(p, c', h); }
    assert p * (d * q) == q * (p * d) by { Assoc(p, d, q); }
    assert q * (y + p * d) == q * y + q * (p * d);
  }

  /** `cpSubMulDgt_BNU32`: a multiple of the divisor subtracted `i` digits up. */
  method SubMul(x: array<digit>, i: nat, y: array<digit>, n: nat, q: digit) returns (c: digit)
    requires i + n <= x.Length && n <= y.Length && x != y
    modifies x
    ensures Dig(x, i, i + n) - c * Pow(H, n) == old(Dig(x, i, i + n)) - q * Dig(y, 0, n) && Within(x, i, i + n)
  {
    hide Val;
    DigNone(x, i);
    DigNone(y, 0);
    c := 0;
    for j: nat := 0 to n
      invariant Dig(x, i, i + j) - c * Pow(H, j) == old(Dig(x, i, i + j)) - q * Dig(y, 0, j)
      invariant forall k :: i + j <= k < x.Length ==> x[k] == old(x[k])
      invariant Within(x, i, i + n)
    {
      OldDigSnoc(x, i, i + j);
      DigSnoc(y, 0, j);
      var d, o := y[j], x[i + j];
      ghost var r, s, t, b := Dig(x, i, i + j), old(Dig(x, i, i + j)), Dig(y, 0, j), c;
      var w;
      c, w := SubMulDigit(o, d, q, c);
      Store(x, i, i + j, w);
      SubMulStep(r, s, t, q, Pow(H, j), b, o, d, w, c, H);
    }
  }

  twostate lemma OldDigSnoc(x: array<digit>, new lo: nat, new hi: nat)
    requires lo <= hi < x.Length
    ensures old(Dig(x, lo, hi + 1)) == old(Dig(x, lo, hi)) + Pow(H, hi - lo) * old(x[hi])
  {
    var s := old(x[lo..hi + 1]);
    ValPrefix(s, hi - lo, H);
    assert s[..hi - lo + 1] == s && s[..hi - lo] == old(x[lo..hi]);
  }

  /** Stores a digit above a number. */
  method Store(x: array<digit>, lo: nat, hi: nat, w: digit)
    requires lo <= hi < x.Length
    modifies x
    ensures Dig(x, lo, hi + 1) == old(Dig(x, lo, hi)) + Pow(H, hi - lo) * w && x[hi] == w && Within(x, hi, hi + 1)
  {
    x[hi] := w;
    SameDig(x, lo, hi);
    DigSnoc(x, lo, hi);
  }

  /** `cpAdd_BNU32`: the divisor added back. */
  method AddBack(x: array<digit>, i: nat, y: array<digit>, n: nat) returns (c: digit)
    requires i + n <= x.Length && n <= y.Length && x != y
    modifies x
    ensures Dig(x, i, i + n) + c * Pow(H, n) == old(Dig(x, i, i + n)) + Dig(y, 0, n) && c <= 1 && Within(x, i, i + n)
  {
    hide Val;
    DigNone(x, i);
    DigNone(y, 0);
    HalfBase();
    c := 0;
    for j: nat := 0 to n
      invariant c <= 1 && Dig(x, i, i + j) + c * Pow(H, j) == old(Dig(x, i, i + j)) + Dig(y, 0, j)
      invariant forall k :: i + j <= k < x.Length ==> x[k] == old(x[k])
      invariant Within(x, i, i + n)
    {
      OldDigSnoc(x, i, i + j);
      DigSnoc(y, 0, j);
      var d, o := y[j], x[i + j];
      ghost var r, s, t, b := Dig(x, i, i + j), old(Dig(x, i, i + j)), Dig(y, 0, j), c;
      var w;
      c, w := AddDigit(c, d, o);
      Store(x, i, i + j, w);
      AddStep(r, s, t, Pow(H, j), b, o, d, w, c, H);
    }
  }

  method AddDigit(c: digit, a: digit, b: digit) returns (c': digit, w: digit)
    requires c <= 1
    ensures c' * H + w == c + a + b && c' <= 1
  {
    HalfBase();
    var t: nat := c + a + b;
    MulMono(2, H, H);
    Halves(t);
    c', w := Hi(t), Lo(t);
    if c' >= 2 {
      MulMono(2, c', H);
    }
  }

  lemma AddStep(r: int, o: int, y: int, p: int, c: int, x: int, d: int, w: int, c': int, h: int)
    requires r + c * p == o + y && c' * h + w == c + d + x
    ensures (r + p * w) + c' * (h * p) == (o + p * x) + (y + p * d)
  {
    assert p * (c' * h + w) == p * (c' * h) + p * w && p * (c + d + x) == p * c + p * d + p * x;
    Exchange(p, c', h);
  }

  lemma Multiple(q: int, t: int, w: int, l: int)
    ensures q * (t * w + l) == (q * t) * w + q * l
  {
    assert q * (t * w + l) == q * (t * w) + q * l;
    Assoc(q, t, w);
  }

  /** A digit that fits the leading digits is at most one too large. */
  lemma NotFarAbove(x: int, y: int, t3: int, t2: int, xl: int, yl: int, w: int, q: int, h: int)
    requires x == t3 * w + xl && 0 <= xl && y == t2 * w + yl && 0 <= yl < w && h <= t2 && 0 <= q < h && q * t2 <= t3
    ensures -y <= x - q * y
  {
    Multiple(q, t2, w, yl);
    MulMono(q * t2, t3, w);
    ghost var product := q * yl;
    MulMono(q, h, yl);
    assert h * yl == yl * h;
    MulMono(yl, w, h);
    MulMono(h, t2, w);
    assert w * h == h * w;
  }

  /** If the next digit does not fit the leading digits it does not fit at all. */
  lemma NotBelow(x: int, y: int, t3: int, t2: int, xl: int, yl: int, w: int, q: int)
    requires x == t3 * w + xl && xl < w && y == t2 * w + yl && 0 <= yl < w && 0 <= q && t3 < (q + 1) * t2
    ensures x < (q + 1) * y
  {
    var up := (q + 1) * t2;
    Multiple(q + 1, t2, w, yl);
    MulMono(t3 + 1, up, w);
    assert (t3 + 1) * w == t3 * w + w;
    MulMono(0, q + 1, yl);
  }

  /** The estimate is right or one too large, whatever the digits below the leading ones. */
  lemma Close(x: int, y: int, t3: int, t2: int, xl: int, yl: int, w: int, q: int, h: int)
    requires x == t3 * w + xl && 0 <= xl < w && y == t2 * w + yl && 0 <= yl < w && h <= t2
    requires 0 <= q < h && q * t2 <= t3 && (q == h - 1 || t3 < (q + 1) * t2) && x < h * y
    ensures -y <= x - q * y < y
  {
    NotFarAbove(x, y, t3, t2, xl, yl, w, q, h);
    if q < h - 1 {
      NotBelow(x, y, t3, t2, xl, yl, w, q);
    }
    assert (q + 1) * y == q * y + y;
  }

  /** Whether the subtraction went below zero shows in the digit on top. */
  lemma TopDigit(x: int, l: int, t: int, l': int, c: int, p: int, y: int, qy: int)
    requires x == l + p * t && l' - c * p == l - qy && 0 <= l' < p && -y <= x - qy < y && y < p
    ensures if 0 <= x - qy then t == c && l' == x - qy else t == c - 1 && l' == x - qy + p
  {
    assert p * (t - c) == p * t - c * p;
    var k := t - c;
    assert l' + p * k == x - qy;
    assert k * p == p * k;
    if k >= 1 {
      MulMono(1, k, p);
    } else if k <= -2 {
      MulMono(k, -2, p);
    }
  }

  /** The leading digits of a number. */
  lemma LeadingTwo(y: array<digit>, lo: nat, n: nat)
    requires 2 <= n && lo + n <= y.Length
    ensures Dig(y, lo, lo + n) == (y[lo + n - 1] * H + y[lo + n - 2]) * Pow(H, n - 2) + Dig(y, lo, lo + n - 2)
    ensures Dig(y, lo, lo + n - 2) < Pow(H, n - 2)
  {
    DigSnoc(y, lo, lo + n - 2);
    DigSnoc(y, lo, lo + n - 1);
    DigBound(y, lo, lo + n - 2);
    Gather(Dig(y, lo, lo + n - 2), y[lo + n - 2], y[lo + n - 1], Pow(H, n - 2), H);
  }

  lemma Gather(v: int, a: int, b: int, p: int, h: int)
    ensures v + p * a + (h * p) * b == (b * h + a) * p + v
  {
    assert (b * h + a) * p == (b * h) * p + a * p;
    Assoc(b, h, p);
    assert b * (h * p) == (h * p) * b && a * p == p * a;
  }

  lemma LeadingThree(x: array<digit>, lo: nat, n: nat)
    requires 2 <= n && lo + n < x.Length
    ensures Dig(x, lo, lo + n + 1)
         == ((x[lo + n - 1] + H * x[lo + n]) * H + x[lo + n - 2]) * Pow(H, n - 2) + Dig(x, lo, lo + n - 2)
    ensures Dig(x, lo, lo + n - 2) < Pow(H, n - 2)
  {
    DigSnoc(x, lo, lo + n);
    LeadingTwo(x, lo, n);
    assert Pow(H, n) == H * Pow(H, n - 1) && Pow(H, n - 1) == H * Pow(H, n - 2);
    GatherThree(x[lo + n - 1], x[lo + n], x[lo + n - 2], Pow(H, n - 2), H);
  }

  lemma GatherThree(a: int, b: int, c: int, p: int, h: int)
    ensures ((a + h * b) * h + c) * p == (a * h + c) * p + (h * (h * p)) * b
  {
    assert (a + h * b) * h == a * h + (h * b) * h;
    assert ((a + h * b) * h + c) * p == (a * h + c) * p + ((h * b) * h) * p;
    Assoc(h * b, h, p);
    Assoc(h, b, h * p);
    Exchange(h, b, h * p);
    assert b * (h * (h * p)) == (h * (h * p)) * b;
  }

  /** The dividend's leading digit does not exceed the divisor's. */
  lemma LeadingBound(x: array<digit>, i: nat, y: array<digit>, n: nat)
    requires 0 < n && i + n < x.Length && n <= y.Length && Dig(x, i + 1, i + n + 1) < Dig(y, 0, n)
    ensures x[i + n] <= y[n - 1] && Dig(x, i, i + n + 1) < H * Dig(y, 0, n)
  {
    DigCons(x, i, i + n + 1);
    Below(x[i], Dig(x, i + 1, i + n + 1), Dig(y, 0, n), H);
    DigSnoc(x, i + 1, i + n);
    DigSnoc(y, 0, n - 1);
    DigBound(y, 0, n - 1);
    Leads(Dig(x, i + 1, i + n), Dig(y, 0, n - 1), x[i + n], y[n - 1], Pow(H, n - 1));
  }

  lemma Below(d: int, v: int, y: int, h: int)
    requires 0 <= d < h && v < y
    ensures d + h * v < h * y
  {
    MulMono(v + 1, y, h);
    assert (v + 1) * h == h * v + h && y * h == h * y;
  }

  lemma Leads(v: int, w: int, a: int, b: int, p: int)
    requires 0 <= v && w < p && 0 < p && v + p * a < w + p * b
    ensures a <= b
  {
    assert (b + 1) * p == p * b + p && a * p == p * a;
    if b + 1 <= a {
      MulMono(b + 1, a, p);
    }
  }

  function SubDigit(a: digit, b: digit): digit
  {
    if a >= b then a - b else a + H - b
  }

  function AddCarry(a: digit, c: digit): digit
  {
    if a + c < H then a + c else a + c - H
  }

  /** The leading bit is set. */
  predicate Normal(d: nat)
  {
    H <= 2 * d
  }

  ghost predicate Near(v: int, y: int)
  {
    -y <= v < y
  }

  /** The digit to try: right, or one too large. */
  method Guess(x: array<digit>, i: nat, y: array<digit>, n: nat) returns (q: digit)
    requires 2 <= n && i + n < x.Length && n <= y.Length && Normal(y[n - 1]) && Dig(x, i + 1, i + n + 1) < Dig(y, 0, n)
    ensures Near(Dig(x, i, i + n + 1) - q * Dig(y, 0, n), Dig(y, 0, n))
  {
    hide Val;
    LeadingBound(x, i, y, n);
    LeadingThree(x, i, n);
    LeadingTwo(y, 0, n);
    var x1, x0, x2, yh, y2 := x[i + n], x[i + n - 1], x[i + n - 2], y[n - 1], y[n - 2];
    q := Estimate(x1, x0, x2, yh, y2);
    HalfBase();
    MulMono(1, yh, H);
    Close(Dig(x, i, i + n + 1), Dig(y, 0, n), (x0 + H * x1) * H + x2, yh * H + y2, Dig(x, i, i + n - 2), Dig(y, 0, n - 2),
          Pow(H, n - 2), q, H);
  }

  /** The multiple subtracted with its borrow: a nonzero digit on top tells that it was too large. */
  method Subtract(x: array<digit>, i: nat, y: array<digit>, n: nat, q: digit) returns (extend: digit)
    requires i + n < x.Length && n <= y.Length && x != y
    requires Near(Dig(x, i, i + n + 1) - q * Dig(y, 0, n), Dig(y, 0, n))
    modifies x
    ensures var d := old(Dig(x, i, i + n + 1)) - q * Dig(y, 0, n);
            if 0 <= d then extend == 0 && Dig(x, i, i + n) == d else extend == H - 1 && Dig(x, i, i + n) == d + Pow(H, n)
    ensures x[i + n] == extend && Within(x, i, i + n + 1)
  {
    ghost var whole, low, top := Dig(x, i, i + n + 1), Dig(x, i, i + n), x[i + n];
    DigSnoc(x, i, i + n);
    DigBound(y, 0, n);
    var c := SubMul(x, i, y, n, q);
    DigBound(x, i, i + n);
    TopDigit(whole, low, top, Dig(x, i, i + n), c, Pow(H, n), Dig(y, 0, n), q * Dig(y, 0, n));
    HalfBase();
    extend := SubDigit(x[i + n], c);
    label Subtracted:
    x[i + n] := extend;
    assert x[i..i + n] == old@Subtracted(x[i..i + n]);
  }

  lemma OneLess(q: int, y: int)
    ensures (q - 1) * y == q * y - y
  {
  }

  /** One digit of the quotient, and the remainder one digit further down. */
  method QuotientDigit(x: array<digit>, i: nat, y: array<digit>, n: nat) returns (q: digit)
    requires 2 <= n && i + n < x.Length && n <= y.Length && x != y && Normal(y[n - 1])
    requires Dig(x, i + 1, i + n + 1) < Dig(y, 0, n)
    modifies x
    ensures old(Dig(x, i, i + n + 1)) == q * Dig(y, 0, n) + Dig(x, i, i + n) && Dig(x, i, i + n) < Dig(y, 0, n)
    ensures x[i + n] == 0 && Within(x, i, i + n + 1)
  {
    hide Val;
    ghost var Y := Dig(y, 0, n);
    q := Guess(x, i, y, n);
    var extend := Subtract(x, i, y, n, q);
    if extend != 0 {
      HalfBase();
      var c := AddBack(x, i, y, n);
      label Added:
      DigBound(x, i, i + n);
      x[i + n] := AddCarry(x[i + n], c);
      assert x[i..i + n] == old@Added(x[i..i + n]);
      OneLess(q, Y);
      q := q - 1;
    }
  }

  // All digits of the quotient

  lemma DigitTotal(x: int, low: int, p: int, whole: int, y: int, quot: int, d: int, r: int, h: int)
    requires x == (low + p * whole) + (y * quot) * (h * p) && whole == d * y + r
    ensures x == (low + p * r) + (y * (d + h * quot)) * p
  {
    assert p * whole == p * (d * y) + p * r;
    assert p * (d * y) == (y * d) * p by { assert d * y == y * d; }
    assert (y * (d + h * quot)) * p == (y * d) * p + (y * (h * quot)) * p by { assert y * (d + h * quot) == y * d + y * (h * quot); }
    assert (y * (h * quot)) * p == (y * quot) * (h * p) by {
      assert y * (h * quot) == (y * quot) * h by { Exchange(y, h, quot); }
      Assoc(y * quot, h, p);
    }
  }

  /** A quotient digit stored, if the quotient is wanted. */
  method Record(q: array?<digit>, i: nat, end: nat, d: digit)
    requires q != null ==> i < end <= q.Length
    modifies q
    ensures q != null ==> Dig(q, i, end) == d + H * old(Dig(q, i + 1, end)) && Within(q, i, i + 1)
  {
    if q != null {
      q[i] := d;
      DigCons(q, i, end);
      SameDig(q, i + 1, end);
    }
  }

  /** One turn, seen from the whole number. */
  method Turn(x: array<digit>, i: nat, y: array<digit>, n: nat, ghost X: nat, ghost quot: nat) returns (d: digit)
    requires 2 <= n && i + n < x.Length && n <= y.Length && x != y && Normal(y[n - 1])
    requires Dig(x, i + 1, i + n + 1) < Dig(y, 0, n) && X == Dig(x, 0, i + n + 1) + (Dig(y, 0, n) * quot) * Pow(H, i + 1)
    modifies x
    ensures Dig(x, i, i + n) < Dig(y, 0, n) && X == Dig(x, 0, i + n) + (Dig(y, 0, n) * (d + H * quot)) * Pow(H, i)
    ensures x[i + n] == 0 && Within(x, i, i + n + 1)
  {
    hide Val;
    DigSplit(x, 0, i, i + n + 1);
    ghost var low, whole := Dig(x, 0, i), Dig(x, i, i + n + 1);
    d := QuotientDigit(x, i, y, n);
    SameDig(x, 0, i);
    DigSplit(x, 0, i, i + n);
    DigitTotal(X, low, Pow(H, i), whole, Dig(y, 0, n), quot, d, Dig(x, i, i + n), H);
  }

  /** The loop over the digits of the quotient, the divisor normalised. */
  method LongDivide(q: array?<digit>, x: array<digit>, sx: nat, y: array<digit>, n: nat) returns (ghost quot: nat)
    requires 2 <= n <= sx < x.Length && n <= y.Length && x != y && Normal(y[n - 1])
    requires q != x && q != y && (q != null ==> sx + 1 - n <= q.Length)
    requires Dig(x, sx + 1 - n, sx + 1) < Dig(y, 0, n)
    modifies x, q
    ensures old(Dig(x, 0, sx + 1)) == Dig(y, 0, n) * quot + Dig(x, 0, n) && Dig(x, 0, n) < Dig(y, 0, n)
    ensures (forall k :: n <= k <= sx ==> x[k] == 0) && Within(x, 0, sx + 1)
    ensures q != null ==> Dig(q, 0, sx + 1 - n) == quot && Within(q, 0, sx + 1 - n)
  {
    hide Val;
    var qs := sx + 1 - n;
    ghost var X, Y := Dig(x, 0, sx + 1), Dig(y, 0, n);
    quot := 0;
    if q != null {
      DigNone(q, qs);
    }
    for i: nat := qs downto 0
      invariant Dig(x, i, i + n) < Y && X == Dig(x, 0, i + n) + (Y * quot) * Pow(H, i)
      invariant (forall k :: i + n <= k <= sx ==> x[k] == 0) && Within(x, 0, sx + 1)
      invariant Dig(y, 0, n) == Y && y[n - 1] == old(y[n - 1])
      invariant q != null ==> Dig(q, i, qs) == quot && Within(q, 0, qs)
    {
      var d := Turn(x, i, y, n, X, quot);
      Record(q, i, qs, d);
      ghost var next: int := d + H * quot;
      MulMono(0, H, quot);
      quot := next;
    }
  }

  // Normalisation

  /** `cpNLZ_BNU32`: the leading zeros of a digit. */
  function LeadingZeros(w: nat): (k: nat)
    requires 0 < w < H
    ensures k < HALF_BITS && Normal(w * Pow(2, k)) && w * Pow(2, k) < H
    decreases H - w
  {
    HalfBase();
    if Normal(w) then 0 else (Shifted(w, LeadingZeros(2 * w)); 1 + LeadingZeros(2 * w))
  }

  lemma Shifted(w: nat, k: nat)
    requires 0 < w && 2 * w * Pow(2, k) < H
    ensures w * Pow(2, k + 1) == 2 * w * Pow(2, k) && k + 1 < HALF_BITS
  {
    Exchange(w, 2, Pow(2, k));
    Assoc(2, w, Pow(2, k));
    MulMono(1, w, Pow(2, k + 1));
    if k + 1 >= HALF_BITS {
      PowMono(2, HALF_BITS, k + 1);
    }
  }

  /** `v << k` in 32 bits. */
  function ShiftLeft(v: nat, k: nat): digit
  {
    HalfBase();
    (v * Pow(2, k)) % H
  }

  /** `high << k` and `low >> (32 - k)` put together. */
  function Joined(high: nat, low: nat, k: nat): nat
    requires k <= HALF_BITS
  {
    Or(Shr(low, HALF_BITS - k), ShiftLeft(high, k))
  }

  /** The powers of two a shift splits the base into. */
  lemma Scales(k: nat)
    requires k <= HALF_BITS
    ensures Pow(2, k) * Pow(2, HALF_BITS - k) == H == Pow(2, HALF_BITS - k) * Pow(2, k)
  {
    PowAdd(2, k, HALF_BITS - k);
  }

  lemma KeepsLow(v: nat, d: nat, e: nat)
    requires 0 < d && 0 < e
    ensures (v * d) % (d * e) == (v % e) * d
  {
    var q, r := v / e, v % e;
    assert v == q * e + r;
    assert v * d == q * (d * e) + r * d by {
      assert (q * e + r) * d == (q * e) * d + r * d;
      Assoc(q, e, d);
      assert e * d == d * e;
    }
    MulMono(r, e - 1, d);
    assert (e - 1) * d == d * e - d;
    DivModUnique(v * d, d * e, q, r * d);
  }

  lemma JoinedFits(high: nat, low: nat, d: nat, e: nat)
    requires 0 < e && low < d
    ensures (high % e) * d + low < d * e
  {
    MulMono(high % e, e - 1, d);
    assert (e - 1) * d == d * e - d;
  }

  lemma JoinedIs(high: nat, low: nat, k: nat, d: nat, e: nat)
    requires k <= HALF_BITS && low < H && d == Pow(2, k) && e == Pow(2, HALF_BITS - k)
    ensures low / e < d && Joined(high, low, k) == (high % e) * d + low / e && Joined(high, low, k) < H
  {
    Scales(k);
    ShrIsDiv(low, HALF_BITS - k);
    KeepsLow(high, d, e);
    QuotientBound(low, e, d);
    var h, l := high % e, low / e;
    DisjointAdd(l, h, k);
    JoinedFits(high, low / e, d, e);
  }

  lemma UpStep(v: int, o: int, p: int, u: int, below: int, d: int, e: int, x: nat, w: int, h: int)
    requires 0 < e && d * e == h && v + p * u == d * o + x / e && w == (x % e) * d + below
    ensures (w + h * v) + (h * p) * u == d * (x + h * o) + below
  {
    assert h * (v + p * u) == h * v + h * (p * u) && h * (d * o + x / e) == h * (d * o) + h * (x / e);
    Assoc(h, p, u);
    Exchange(h, d, o);
    assert x == x / e * e + x % e;
    assert d * x == d * (x / e * e) + d * (x % e) && d * (x % e) == (x % e) * d;
    assert d * (x / e * e) == (d * e) * (x / e) by { assert x / e * e == e * (x / e); Assoc(d, e, x / e); }
    assert d * (x + h * o) == d * x + d * (h * o);
  }

  /** Stores a digit below a number. */
  method PutFirst(x: array<digit>, i: nat, n: nat, w: digit)
    requires i < n <= x.Length
    modifies x
    ensures Dig(x, i, n) == w + H * old(Dig(x, i + 1, n)) && Within(x, i, i + 1) && x[i] == w
    ensures old(Dig(x, i, n)) == old(x[i]) + H * old(Dig(x, i + 1, n))
  {
    DigCons(x, i, n);
    x[i] := w;
    DigCons(x, i, n);
    SameDig(x, i + 1, n);
  }

  /** One digit of the shift up, seen from the number above it. */
  method UpTurn(x: array<digit>, i: nat, n: nat, w: digit, ghost below: int, ghost d: nat, ghost e: nat, ghost out: nat, ghost o: nat)
    requires i < n <= x.Length && 0 < e && d * e == H && w == (x[i] % e) * d + below
    requires Dig(x, i + 1, n) + Pow(H, n - i - 1) * out == d * o + x[i] / e
    modifies x
    ensures Dig(x, i, n) + Pow(H, n - i) * out == d * (old(x[i]) + H * o) + below && Within(x, i, i + 1)
  {
    ghost var v, high := Dig(x, i + 1, n), x[i];
    PutFirst(x, i, n, w);
    UpStep(v, o, Pow(H, n - i - 1), out, below, d, e, high, w, H);
  }

  twostate lemma OldDigCons(x: array<digit>, new lo: nat, new hi: nat)
    requires lo < hi <= x.Length
    ensures old(Dig(x, lo, hi)) == old(x[lo]) + H * old(Dig(x, lo + 1, hi))
  {
    var s: seq<nat> := old(x[lo..hi]);
    assert s[1..] == old(x[lo + 1..hi]);
  }

  /** All digits but the lowest shifted up, from the top down. */
  method ShiftHigh(x: array<digit>, n: nat, k: nat, ghost d: nat, ghost e: nat, ghost out: nat)
    requires 0 < n <= x.Length && k <= HALF_BITS && d == Pow(2, k) && e == Pow(2, HALF_BITS - k) && out == x[n - 1] / e
    modifies x
    ensures Dig(x, 1, n) + Pow(H, n - 1) * out == d * old(Dig(x, 1, n)) + x[0] / e && x[0] == old(x[0]) && Within(x, 1, n)
  {
    Scales(k);
    for i: nat := n downto 1
      invariant forall j :: 0 <= j < i ==> x[j] == old(x[j])
      invariant Dig(x, i, n) + Pow(H, n - i) * out == d * old(Dig(x, i, n)) + old(x[i - 1]) / e
      invariant Within(x, 1, n)
    {
      OldDigCons(x, i, n);
      var high: nat, low: nat := x[i], x[i - 1];
      JoinedIs(high, low, k, d, e);
      ghost var below: int := low / e;
      UpTurn(x, i, n, Joined(high, low, k), below, d, e, out, old(Dig(x, i + 1, n)));
    }
  }

  /** The digits shifted up in place; the bits pushed out at the top are dropped. */
  method ShiftUp(x: array<digit>, n: nat, k: nat)
    requires 0 < n <= x.Length && k <= HALF_BITS
    modifies x
    ensures Dig(x, 0, n) + Pow(H, n) * (old(x[n - 1]) / Pow(2, HALF_BITS - k)) == Pow(2, k) * old(Dig(x, 0, n))
    ensures Within(x, 0, n)
  {
    ghost var d, e, o := Pow(2, k), Pow(2, HALF_BITS - k), Dig(x, 1, n);
    ghost var out := x[n - 1] / e;
    DigCons(x, 0, n);
    ShiftHigh(x, n, k, d, e, out);
    var lowest: nat := x[0];
    Scales(k);
    KeepsLow(lowest, d, e);
    UpTurn(x, 0, n, ShiftLeft(lowest, k), 0, d, e, out, o);
  }

  lemma DownStep(v: int, o: int, p: int, first: int, d: int, e: int, x: nat, next: nat, w: int, h: int)
    requires 0 < d && d * e == h && d * v + first == o + p * (x % d) && w == (next % d) * e + x / d
    ensures d * (v + p * w) + first == (o + p * x) + (h * p) * (next % d)
  {
    var t := next % d;
    assert x == x / d * d + x % d;
    assert d * w == h * t + (x / d) * d by {
      assert d * (t * e + x / d) == d * (t * e) + d * (x / d) && d * (x / d) == (x / d) * d;
      Exchange(d, t, e);
      assert t * h == h * t;
    }
    assert d * (v + p * w) == d * v + d * (p * w);
    Exchange(d, p, w);
    assert p * (h * t + (x / d) * d) == p * (h * t) + p * ((x / d) * d);
    assert p * (x / d * d + x % d) == p * (x / d * d) + p * (x % d);
    Exchange(p, h, t);
    Assoc(h, p, t);
  }

  /** The digits shifted down in place, each taking its new high bits from the next. */
  method ShiftDown(x: array<digit>, n: nat, k: nat)
    requires n < x.Length && k <= HALF_BITS
    modifies x
    ensures Pow(2, k) * Dig(x, 0, n) + old(x[0]) % Pow(2, k) == old(Dig(x, 0, n)) + Pow(H, n) * (x[n] % Pow(2, k))
    ensures Within(x, 0, n)
  {
    ghost var d, e := Pow(2, k), Pow(2, HALF_BITS - k);
    ghost var first := x[0] % d;
    Scales(k);
    for i: nat := 0 to n
      invariant forall j :: i <= j < x.Length ==> x[j] == old(x[j])
      invariant d * Dig(x, 0, i) + first == old(Dig(x, 0, i)) + Pow(H, i) * (x[i] % d)
      invariant Within(x, 0, n)
    {
      OldDigSnoc(x, 0, i);
      var low, high := x[i], x[i + 1];
      DownJoined(high, low, k);
      ghost var v, o := Dig(x, 0, i), old(Dig(x, 0, i));
      Store(x, 0, i, Joined(high, low, HALF_BITS - k));
      DownStep(v, o, Pow(H, i), first, d, e, low, high, Joined(high, low, HALF_BITS - k), H);
    }
  }

  lemma DownJoined(high: nat, low: nat, k: nat)
    requires k <= HALF_BITS && low < H
    ensures var d, e := Pow(2, k), Pow(2, HALF_BITS - k);
            Joined(high, low, HALF_BITS - k) == (high % d) * e + low / d && Joined(high, low, HALF_BITS - k) < H
  {
    var j := HALF_BITS - k;
    assert HALF_BITS - j == k;
    JoinedIs(high, low, j, Pow(2, j), Pow(2, k));
  }

  lemma Exactly(v: int, d: int, r: int, new': int, f: int)
    requires v == d * r && d * new' + f == v && 0 <= f < d
    ensures new' == r && f == 0
  {
    assert d * (r - new') == f;
    assert (r - new') * d == f;
    if r - new' >= 1 {
      MulMono(1, r - new', d);
    } else if r - new' <= -1 {
      MulMono(r - new', -1, d);
    }
  }

  /** The lower digits shifted down; the highest takes in zeros. */
  method ShiftAllDown(y: array<digit>, n: nat, k: nat)
    requires 0 < n <= y.Length && k <= HALF_BITS
    modifies y
    ensures Pow(2, k) * Dig(y, 0, n) + old(y[0]) % Pow(2, k) == old(Dig(y, 0, n)) && Within(y, 0, n)
  {
    ghost var d, first, top, o: nat, p := Pow(2, k), y[0] % Pow(2, k), y[n - 1], Dig(y, 0, n - 1), Pow(H, n - 1);
    DigSnoc(y, 0, n - 1);
    ShiftDown(y, n - 1, k);
    ghost var low := Dig(y, 0, n - 1);
    var w := ShiftRight(y[n - 1], k);
    Store(y, 0, n - 1, w);
    LastDown(low, o, p, top, d, first, w);
  }

  function ShiftRight(v: digit, k: nat): (r: digit)
    ensures r == v / Pow(2, k)
  {
    HalfBase();
    ShrIsDiv(v, k);
    QuotientSmaller(v, Pow(2, k), H);
    Shr(v, k)
  }

  /** The divisor shifted back down is what it was. */
  method Restore(y: array<digit>, n: nat, k: nat, ghost Y: nat)
    requires 0 < n <= y.Length && k <= HALF_BITS && Dig(y, 0, n) == Pow(2, k) * Y
    modifies y
    ensures Dig(y, 0, n) == Y && Within(y, 0, n)
  {
    ghost var V, first := Dig(y, 0, n), y[0] % Pow(2, k);
    ShiftAllDown(y, n, k);
    Exactly(V, Pow(2, k), Y, Dig(y, 0, n), first);
  }

  lemma QuotientSmaller(v: nat, d: nat, h: nat)
    requires 0 < d && v < h
    ensures v / d < h
  {
    assert v == v / d * d + v % d;
    MulMono(1, d, v / d);
    assert d * (v / d) == v / d * d;
  }

  lemma LastDown(low: int, o: int, p: int, top: nat, d: int, first: int, w: int)
    requires 0 < d && w == top / d && d * low + first == o + p * (top % d)
    ensures d * (low + p * w) + first == o + p * top
  {
    assert top == w * d + top % d;
    assert p * (w * d + top % d) == p * (w * d) + p * (top % d);
    Exchange(d, p, w);
    assert d * w == w * d;
    assert d * (low + p * w) == d * low + d * (p * w);
  }

  // The whole division

  lemma ScaledTop(v: int, w: int, t: nat, t': nat, p: int, d: nat, y: int)
    requires y == v + p * t && d * y == w + p * t' && 0 <= v && 0 <= w < p && 0 < t
    ensures d * t <= t' && d <= t'
  {
    assert d * (v + p * t) == d * v + d * (p * t);
    Exchange(d, p, t);
    MulMono(0, d, v);
    assert d * v == v * d;
    if t' + 1 <= d * t {
      MulMono(t' + 1, d * t, p);
    }
    assert (t' + 1) * p == p * t' + p && (d * t) * p == p * (d * t);
    MulMono(1, t, d);
    assert t * d == d * t;
  }

  /** The divisor shifted up until its leading bit is set; nothing is lost. */
  method ScaleDivisor(y: array<digit>, n: nat, k: nat)
    requires 0 < n <= y.Length && y[n - 1] != 0 && k == LeadingZeros(y[n - 1])
    modifies y
    ensures Dig(y, 0, n) == Pow(2, k) * old(Dig(y, 0, n)) && Normal(y[n - 1]) && Pow(2, k) <= y[n - 1] && Within(y, 0, n)
  {
    hide Val;
    ghost var Y, t, v, d, e := Dig(y, 0, n), y[n - 1], Dig(y, 0, n - 1), Pow(2, k), Pow(2, HALF_BITS - k);
    if k == 0 {
      return;
    }
    DigSnoc(y, 0, n - 1);
    Scales(k);
    FitsBelow(t, d, e);
    ShiftUp(y, n, k);
    DigSnoc(y, 0, n - 1);
    DigBound(y, 0, n - 1);
    ScaledTop(v, Dig(y, 0, n - 1), t, y[n - 1], Pow(H, n - 1), d, Y);
    assert d * t == t * d;
  }

  lemma FitsBelow(t: nat, d: nat, e: nat)
    requires 0 < d && 0 < e && t * d < d * e
    ensures t / e == 0
  {
    assert d * e == e * d;
    MulCancelLt(t, e, d);
  }

  /** The dividend shifted up by as much, into one digit more. */
  method ScaleDividend(x: array<digit>, n: nat, k: nat)
    requires 0 < n < x.Length && k < HALF_BITS
    modifies x
    ensures Dig(x, 0, n + 1) == Pow(2, k) * old(Dig(x, 0, n)) && x[n] < Pow(2, k) && Within(x, 0, n + 1)
  {
    hide Val;
    ghost var d, e := Pow(2, k), Pow(2, HALF_BITS - k);
    HalfBase();
    if k == 0 {
      Store(x, 0, n, 0);
    } else {
      var high: nat := x[n - 1];
      Scales(k);
      ShrIsDiv(high, HALF_BITS - k);
      QuotientBound(high, e, d);
      PowMono(2, k, HALF_BITS);
      var top := Shr(high, HALF_BITS - k);
      ShiftUp(x, n, k);
      Store(x, 0, n, top);
    }
  }

  lemma {:induction false} HighZeros(x: array<digit>, n: nat, m: nat)
    requires n <= m <= x.Length && forall i :: n <= i < m ==> x[i] == 0
    ensures Dig(x, 0, m) == Dig(x, 0, n)
  {
    DigZeros(x, n, m);
    DigSplit(x, 0, n, m);
  }

  lemma ScaledBack(d: int, x: int, y: int, quot: int, r: int)
    requires 0 < d && d * x == (d * y) * quot + r && 0 <= r < d * y
    ensures r == d * (x - y * quot) && 0 <= x - y * quot < y
  {
    Assoc(d, y, quot);
    assert d * (x - y * quot) == d * x - d * (y * quot);
    var t := x - y * quot;
    assert t * d == d * t && y * d == d * y;
    MulCancelLt(t, y, d);
    MulCancelLt(-1, t, d);
  }

  /** Below a digit that is zero nothing is shifted in. */
  method ShiftClearDown(x: array<digit>, n: nat, k: nat)
    requires n < x.Length && k <= HALF_BITS && x[n] == 0
    modifies x
    ensures Pow(2, k) * Dig(x, 0, n) + old(x[0]) % Pow(2, k) == old(Dig(x, 0, n)) && Within(x, 0, n)
  {
    ShiftDown(x, n, k);
    NothingIn(x[n], Pow(2, k), Pow(H, n));
  }

  lemma NothingIn(v: nat, d: nat, p: nat)
    requires v == 0 && 0 < d
    ensures p * (v % d) == 0
  {
  }

  /** The remainder and the divisor shifted back down. */
  method Unscale(x: array<digit>, sx: nat, y: array<digit>, n: nat, k: nat, ghost r: nat, ghost Y: nat)
    requires 0 < n <= y.Length && sx < x.Length && x != y && k <= HALF_BITS && x[sx] == 0
    requires Dig(x, 0, sx) == Pow(2, k) * r && Dig(y, 0, n) == Pow(2, k) * Y
    modifies x, y
    ensures Dig(x, 0, sx) == r && Dig(y, 0, n) == Y && Within(x, 0, sx) && Within(y, 0, n)
  {
    hide Val;
    ghost var V, first, d := Dig(x, 0, sx), x[0] % Pow(2, k), Pow(2, k);
    if k == 0 {
      return;
    }
    ShiftClearDown(x, sx, k);
    Exactly(V, d, r, Dig(x, 0, sx), first);
    Restore(y, n, k, Y);
  }

  /** More than one digit: normalisation, the digits of the quotient, and back. */
  method Common(q: array?<digit>, x: array<digit>, sx: nat, y: array<digit>, n: nat) returns (ghost quot: nat)
    requires 2 <= n <= sx < x.Length && n <= y.Length && x != y && y[n - 1] != 0
    requires q != x && q != y && (q != null ==> sx + 1 - n <= q.Length)
    modifies x, y, q
    ensures old(Dig(x, 0, sx)) == old(Dig(y, 0, n)) * quot + Dig(x, 0, sx) && Dig(x, 0, sx) < old(Dig(y, 0, n))
    ensures x[sx] == 0 && Dig(y, 0, n) == old(Dig(y, 0, n)) && Within(x, 0, sx + 1) && Within(y, 0, n)
    ensures q != null ==> Dig(q, 0, sx + 1 - n) == quot && Within(q, 0, sx + 1 - n)
  {
    hide Val;
    ghost var X, Y := Dig(x, 0, sx), Dig(y, 0, n);
    var k := LeadingZeros(y[n - 1]);
    ScaleDividend(x, sx, k);
    ScaleDivisor(y, n, k);
    ghost var d := Pow(2, k);
    TopBelow(x, sx, y, n);
    quot := LongDivide(q, x, sx, y, n);
    HighZeros(x, n, sx);
    ScaledBack(d, X, Y, quot, Dig(x, 0, sx));
    Unscale(x, sx, y, n, k, X - Y * quot, Y);
  }

  /** The leading digits of the shifted dividend stay below the divisor. */
  lemma TopBelow(x: array<digit>, sx: nat, y: array<digit>, n: nat)
    requires 0 < n <= sx < x.Length && n <= y.Length && x[sx] < y[n - 1]
    ensures Dig(x, sx + 1 - n, sx + 1) < Dig(y, 0, n)
  {
    DigSnoc(x, sx + 1 - n, sx);
    DigBound(x, sx + 1 - n, sx);
    DigSnoc(y, 0, n - 1);
    Lower(Dig(x, sx + 1 - n, sx), x[sx], Dig(y, 0, n - 1), y[n - 1], Pow(H, n - 1));
  }

  lemma Lower(v: int, a: int, w: int, b: int, p: int)
    requires v < p && 0 <= w && a < b && 0 < p
    ensures v + p * a < w + p * b
  {
    MulMono(a + 1, b, p);
    assert (a + 1) * p == p * a + p && b * p == p * b;
  }

  /** The dividend has a digit in each of its `n` places, so the shifted dividend needs one place more. */
  ghost predicate Spills(x: nat, y: nat, n: nat)
  {
    0 < n && H <= y < Pow(H, n) && Pow(H, n - 1) <= x
  }

  lemma FirstDigit(x: array<digit>, n: nat)
    requires 0 < n <= x.Length
    ensures Dig(x, 0, n) < Pow(H, n) && (x[n - 1] != 0 ==> Pow(H, n - 1) <= Dig(x, 0, n))
  {
    DigBound(x, 0, n);
    DigSnoc(x, 0, n - 1);
    if x[n - 1] != 0 {
      MulMono(1, x[n - 1], Pow(H, n - 1));
    }
  }

  /** What the sizes without leading zeros tell about the numbers. */
  lemma Sizes(x: array<digit>, sizeX: nat, sx: nat, y: array<digit>, n: nat)
    requires 1 <= sx <= sizeX <= x.Length && Dig(x, 0, sx) == Dig(x, 0, sizeX) && (1 < sx ==> x[sx - 1] != 0)
    requires 1 <= n <= y.Length && (1 < n ==> y[n - 1] != 0)
    ensures n == 1 <==> Dig(y, 0, n) < H
    ensures sx < n ==> Dig(x, 0, sizeX) < Dig(y, 0, n)
    ensures Spills(Dig(x, 0, sizeX), Dig(y, 0, n), sizeX) <==> 1 < n <= sx == sizeX
  {
    HalfBase();
    FirstDigit(x, sx);
    FirstDigit(y, n);
    assert Pow(H, 1) == H;
    if 1 < n {
      PowMono(H, 1, n - 1);
    }
    if sx < n {
      PowMono(H, sx, n - 1);
      assert Pow(H, sx) <= Dig(y, 0, n);
    }
    if n <= sx {
      PowMono(H, n, sx);
    }
    if sx < sizeX {
      PowMono(H, sx, sizeX - 1);
    }
  }

  lemma Quotient(x: nat, y: nat, quot: nat, r: nat)
    requires x == y * quot + r && r < y
    ensures x / y == quot && x % y == r
  {
    assert y * quot == quot * y;
    DivModUnique(x, y, quot, r);
  }

  /** The same number in the same digits: nothing changed. */
  twostate lemma SameNumber(y: array<digit>, new n: nat)
    requires n <= y.Length && Within(y, 0, n) && Dig(y, 0, n) == old(Dig(y, 0, n))
    ensures y[..] == old(y[..])
  {
    var s: seq<nat>, t: seq<nat> := y[0..n], old(y[0..n]);
    ValInjective(s, t, H);
    forall i | 0 <= i < y.Length
      ensures y[i] == old(y[i])
    {
      if i < n {
        assert s[i] == t[i];
      }
    }
  }

  /** A divisor of one digit: the remainder goes into the lowest digit. */
  method DivideByDigit(q: array?<digit>, x: array<digit>, sx: nat, y: digit) returns (sizeQ: nat)
    requires 0 < y && 0 < sx <= x.Length && q != x && (q != null ==> sx <= q.Length)
    modifies x, q
    ensures Dig(x, 0, 1) == old(Dig(x, 0, sx)) % y && Within(x, 0, 1) && 1 <= sizeQ <= sx
    ensures q != null ==> Dig(q, 0, sizeQ) == old(Dig(x, 0, sx)) / y
  {
    ghost var X := Dig(x, 0, sx);
    var r;
    ghost var quot;
    r, quot := ShortDivide(q, x, sx, y);
    sizeQ := 1;
    if q != null {
      sizeQ := Fix(q, sx);
    }
    Quotient(X, y, quot, r);
    Store(x, 0, 0, r);
  }

  /** A divisor of several digits. */
  method DivideByMany(q: array?<digit>, x: array<digit>, sx: nat, y: array<digit>, n: nat) returns (size: nat, sizeQ: nat)
    requires 2 <= n <= sx < x.Length && n <= y.Length && x != y && y[n - 1] != 0 && 0 < Dig(y, 0, n)
    requires q != x && q != y && (q != null ==> sx <= q.Length)
    modifies x, y, q
    ensures 1 <= size <= sx && Dig(x, 0, size) == old(Dig(x, 0, sx)) % old(Dig(y, 0, n)) && 1 <= sizeQ <= sx
    ensures (forall i :: size <= i <= sx ==> x[i] == 0) && Within(x, 0, sx + 1) && y[..] == old(y[..])
    ensures q != null ==> Dig(q, 0, sizeQ) == old(Dig(x, 0, sx)) / old(Dig(y, 0, n))
  {
    hide Val;
    ghost var X, Y := Dig(x, 0, sx), Dig(y, 0, n);
    ghost var quot := Common(q, x, sx, y, n);
    SameNumber(y, n);
    Quotient(X, Y, quot, Dig(x, 0, sx));
    size := Fix(x, sx);
    sizeQ := 1;
    if q != null {
      sizeQ := Fix(q, sx + 1 - n);
    }
  }

  /**
   * `cpDiv_BNU32`: the remainder is left in the dividend's digits. A divisor of one digit leaves the digits above the remainder as
   * they were; any other clears them, and clears one digit above the dividend if the dividend has no leading zero.
   */
  method Divide(q: array?<digit>, x: array<digit>, sizeX: nat, y: array<digit>, sizeY: nat) returns (size: nat, sizeQ: nat)
    requires 0 < sizeX <= x.Length && 0 < sizeY <= y.Length && x != y && 0 < Dig(y, 0, sizeY)
    requires Spills(Dig(x, 0, sizeX), Dig(y, 0, sizeY), sizeX) ==> sizeX < x.Length
    requires q != x && q != y && (q != null ==> sizeX <= q.Length)
    modifies x, y, q
    ensures 1 <= size <= sizeX && Dig(x, 0, size) == old(Dig(x, 0, sizeX)) % old(Dig(y, 0, sizeY)) && y[..] == old(y[..])
    ensures q != null ==> 1 <= sizeQ <= sizeX && Dig(q, 0, sizeQ) == old(Dig(x, 0, sizeX)) / old(Dig(y, 0, sizeY))
    ensures old(Dig(y, 0, sizeY)) < H ==> size == 1 && Within(x, 0, 1)
    ensures H <= old(Dig(y, 0, sizeY)) ==> forall i :: size <= i < sizeX ==> x[i] == 0
    ensures if old(Spills(Dig(x, 0, sizeX), Dig(y, 0, sizeY), sizeX)) then x[sizeX] == 0 && Within(x, 0, sizeX + 1)
            else Within(x, 0, sizeX)
  {
    hide Val;
    var n := Fix(y, sizeY);
    var sx := Fix(x, sizeX);
    Sizes(x, sizeX, sx, y, n);
    DigOne(y, 0);
    if sx < n {
      Quotient(Dig(x, 0, sizeX), Dig(y, 0, sizeY), 0, Dig(x, 0, sizeX));
      size, sizeQ := sx, 1;
      if q != null {
        DigNone(q, 0);
        Store(q, 0, 0, 0);
      }
    } else if n == 1 {
      sizeQ := DivideByDigit(q, x, sx, y[0]);
      size := 1;
    } else {
      size, sizeQ := DivideByMany(q, x, sx, y, n);
    }
  }
}
