/** Machine words of the big-number code and the carry-propagating word macros. */
module Words {
  import opened Arith

  /** Half of `BNU_CHUNK_BITS`: 32 or 16 in the library, any number of bits here. */
  type HalfBits = b: nat | b >= 1 witness 32

  const HALF_BITS: HalfBits

  type ChunkBits = b: nat | b >= 2 witness 64

  const CHUNK_BITS: ChunkBits := 2 * HALF_BITS

  const B: nat := Pow(2, CHUNK_BITS)

  /** `BNU_CHUNK_2H`: the base of half words. */
  const H: nat := Pow(2, HALF_BITS)

  lemma HalfBase()
    ensures B == H * H && H >= 2
  {
    PowAdd(2, HALF_BITS, HALF_BITS);
    assert Pow(2, HALF_BITS) == 2 * Pow(2, HALF_BITS - 1);
  }

  type word = w: nat | w < B witness 0

  /** The difference of two words, wrapping below zero. */
  function SubWrap(a: word, b: word): (r: word)
    ensures r == 0 <==> a == b
  {
    if a >= b then a - b else a + B - b
  }

  /** `ADD_AB`: the carry is recognised by the sum wrapping below an operand. */
  method AddAB(a: word, b: word) returns (carry: word, r: word)
    ensures carry * B + r == a + b && carry <= 1
  {
    Pow2Even(CHUNK_BITS);
    var s := if a + b < B then a + b else a + b - B;
    carry := if s < a then 1 else 0;
    r := s;
  }

  /** `ADD_ABC`: two such comparisons add up to the carry of a three-word sum. */
  method AddABC(a: word, b: word, c: word) returns (carry: nat, r: word)
    ensures carry * B + r == a + b + c && carry <= 2
  {
    var c1, s := AddAB(a, b);
    var c2, t := AddAB(s, c);
    carry, r := c1 + c2, t;
    assert c1 * B + c2 * B == carry * B;
  }

  /** `SUB_ABC`: the borrow of a difference of three words. */
  method SubABC(a: word, b: word, c: word) returns (borrow: nat, r: word)
    ensures a - b - c == r - borrow * B && borrow <= 2
  {
    var s := SubWrap(a, b);
    var b1 := if s > a then 1 else 0;
    r := SubWrap(s, c);
    var b2 := if r > s then 1 else 0;
    borrow := b1 + b2;
    assert b1 * B + b2 * B == borrow * B;
  }

  lemma ProductBound(x: nat, y: nat, h: nat)
    requires x < h && y < h
    ensures x * y <= (h - 1) * (h - 1) && (h - 1) * (h - 1) == h * h - 2 * h + 1
  {
    MulMono(x, h - 1, y);
    MulMono(y, h - 1, h - 1);
  }

  lemma DoubleWord(a: nat, b: nat, bb: nat)
    requires a < bb && b < bb
    ensures a * b / bb < bb && a * b % bb < bb && a * b / bb * bb + a * b % bb == a * b
  {
    var p := a * b;
    MacFits(a, b, 0, 0, p / bb, p % bb, bb);
  }

  /** `HI_CHUNK` and `LO_CHUNK`. */
  function Hi(a: nat): nat
  {
    Shr(a, HALF_BITS)
  }

  function Lo(a: nat): (r: int)
  {
    Rem(a, H)
  }

  lemma Halves(a: nat)
    ensures a == Hi(a) * H + Lo(a) && 0 <= Lo(a) < H && (a < B ==> Hi(a) < H)
  {
    hide Rem, Shr;
    HalfBase();
    ShrIsDiv(a, HALF_BITS);
    RemIsMod(a, H);
    if a < B {
      QuotientFits(a, H);
    }
  }

  lemma QuotientFits(a: nat, h: nat)
    requires 0 < h && a < h * h
    ensures a / h < h
  {
    if a / h >= h {
      MulMono(h, a / h, h);
    }
  }

  /** The product of two words from the products of their halves. */
  lemma CrossProducts(al: int, ah: int, bl: int, bh: int, h: int)
    ensures (ah * h + al) * (bh * h + bl) == (ah * bh) * (h * h) + (al * bh + ah * bl) * h + al * bl
  {
    var x := ah * h;
    assert (x + al) * (bh * h + bl) == x * (bh * h) + x * bl + al * (bh * h) + al * bl;
    assert x * (bh * h) == (ah * bh) * (h * h) by {
      Exchange(x, bh, h);
      Assoc(ah, h, h);
      Exchange(bh, ah, h * h);
      Assoc(ah, bh, h * h);
    }
    assert x * bl == (ah * bl) * h by { Exchange(bl, ah, h); }
    assert al * (bh * h) == (al * bh) * h by { Assoc(al, bh, h); }
    assert (al * bh + ah * bl) * h == (al * bh) * h + (ah * bl) * h;
  }

  /** The two words put together from the partial products: `x` is the middle sum less its carry `c`. */
  lemma Assembled(x3: int, s: int, x0: int, p: int, q: int, c: int, x: int, r: int, t: int, h: int)
    requires x0 == p * h + q && s + p == c * (h * h) + x && x == r * h + t
    ensures (x3 + c * h + r) * (h * h) + (t * h + q) == x3 * (h * h) + s * h + x0
  {
    var hh := h * h;
    assert (s + p) * h == s * h + p * h;
    assert (c * hh + x) * h == (c * hh) * h + x * h;
    assert (c * hh) * h == (c * h) * hh by {
      Assoc(c, hh, h);
      Exchange(h, h, h);
      Assoc(c, h, hh);
    }
    assert (r * h + t) * h == r * hh + t * h by { Assoc(r, h, h); }
    assert (x3 + c * h + r) * hh == x3 * hh + (c * h) * hh + r * hh;
  }

  lemma LowFits(t: int, x: int, h: int)
    requires t < h && x < h && 0 < h
    ensures t * h + x < h * h
  {
    MulMono(t, h - 1, h);
    assert (h - 1) * h == h * h - h;
  }

  /** No partial sum but the middle one can exceed a word. */
  lemma PartialFits(a: int, b: int, p: int, h: int)
    requires 0 <= a < h && 0 <= b < h && p < h
    ensures 0 <= a * b && a * b + p < h * h
  {
    ProductBound(a, b, h);
  }

  /** `MUL_AB`: the double-word product from products of half words, with the carry of the middle sum found by comparison. */
  method MulAB(a: word, b: word) returns (high: word, low: word)
    ensures high * B + low == a * b
  {
    hide Rem, Shr, Hi, Lo;
    PartialProducts(a, b);
    var al, ah, bl, bh := Lo(a), Hi(a), Lo(b), Hi(b);
    var x0, x2, x3 := al * bl, ah * bl, ah * bh;
    var y: word := al * bh + Hi(x0);
    var x: word := if y + x2 < B then y + x2 else y + x2 - B;
    MulHalves(a, b, Hi(x0), x, if y + x2 < B then 0 else 1);
    if x < x2 {
      x3 := x3 + H;
    }
    high, low := x3 + Hi(x), Lo(x) * H + Lo(x0);
  }

  lemma Parts(a: int, b: int, al: int, ah: int, bl: int, bh: int, p: int, q: int, c: int, x: int, r: int, t: int, h: int)
    requires a == ah * h + al && b == bh * h + bl && 0 <= a < h * h && 0 <= b < h * h && 0 < h
    requires al * bl == p * h + q && (al * bh + ah * bl) + p == c * (h * h) + x && x == r * h + t && 0 <= q < h && 0 <= t < h
    ensures var high, low := ah * bh + c * h + r, t * h + q; high * (h * h) + low == a * b && 0 <= high < h * h && 0 <= low < h * h
  {
    CrossProducts(al, ah, bl, bh, h);
    Assembled(ah * bh, al * bh + ah * bl, al * bl, p, q, c, x, r, t, h);
    LowFits(t, q, h);
    MulMono(0, t, h);
    HighFits(ah * bh + c * h + r, t * h + q, a, b, h * h);
  }

  lemma PartialProducts(a: word, b: word)
    ensures 0 <= Lo(a) * Lo(b) < B && 0 <= Hi(a) * Lo(b) < B && 0 <= Hi(a) * Hi(b)
    ensures 0 <= Lo(a) * Hi(b) && 0 <= Lo(a) * Hi(b) + Hi(Lo(a) * Lo(b)) < B
  {
    hide Rem, Shr;
    HalfBase();
    Halves(a);
    Halves(b);
    PartialFits(Lo(a), Lo(b), 0, H);
    Halves(Lo(a) * Lo(b));
    PartialFits(Lo(a), Hi(b), Hi(Lo(a) * Lo(b)), H);
    PartialFits(Hi(a), Lo(b), 0, H);
    PartialFits(Hi(a), Hi(b), 0, H);
  }

  /** What makes `MUL_AB` right: the parts make up the product. */
  lemma MulHalves(a: word, b: word, p: nat, x: nat, c: nat)
    requires 0 <= Lo(a) * Lo(b) && p == Hi(Lo(a) * Lo(b)) && c <= 1
    requires (Lo(a) * Hi(b) + Hi(a) * Lo(b)) + p == c * B + x && x < B
    ensures var high, low := Hi(a) * Hi(b) + c * H + Hi(x), Lo(x) * H + Lo(Lo(a) * Lo(b));
            high * B + low == a * b && 0 <= high < B && 0 <= low < B
  {
    hide Rem, Shr;
    HalfBase();
    Halves(a);
    Halves(b);
    Halves(Lo(a) * Lo(b));
    Halves(x);
    Parts(a, b, Lo(a), Hi(a), Lo(b), Hi(b), p, Lo(Lo(a) * Lo(b)), c, x, Hi(x), Lo(x), H);
  }

  lemma HighFits(high: int, low: int, a: nat, b: nat, base: nat)
    requires a < base && b < base && high * base + low == a * b && 0 <= low < base
    ensures 0 <= high < base
  {
    if high < 0 {
      MulMono(high, -1, base);
    } else {
      MacFits(a, b, 0, 0, high, low, base);
    }
  }

  /** One 32-bit step of a comparison in 64-bit arithmetic: the borrow is the top bit of the wrapped difference. */
  method SubHalf(x: nat, y: nat, borrow: nat) returns (borrow': nat, low: int)
    requires x < H && y < H && borrow <= 1
    ensures x - y - borrow == low - borrow' * H && borrow' <= 1 && 0 <= low < H
  {
    HalfBase();
    MulMono(2, H, H);
    var d: nat := if x - y - borrow < 0 then x - y - borrow + B else x - y - borrow;
    TopBit(d);
    if x - y - borrow < 0 {
      assert (H - 1) * H == H * H - H;
      DivModUnique(d, H, H - 1, x - y - borrow + H);
    } else {
      DivModUnique(d, H, 0, d);
    }
    RemIsMod(d, H);
    low := Lo(d);
    borrow' := Shr(d, CHUNK_BITS - 1);
  }

  lemma TopBit(d: nat)
    requires d < B
    ensures Shr(d, CHUNK_BITS - 1) == if 2 * d < B then 0 else 1
  {
    var p := Pow(2, CHUNK_BITS - 1);
    assert B == 2 * p;
    ShrIsDiv(d, CHUNK_BITS - 1);
    DivModUnique(d, p, if d < p then 0 else 1, if d < p then d else d - p);
  }

  lemma TwoSteps(ah: int, al: int, bh: int, bl: int, c: int, l: int, c1: int, u: int, c2: int, h: int)
    requires al - bl - c == l - c1 * h && ah - bh - c1 == u - c2 * h
    ensures (ah * h + al) - (bh * h + bl) - c == (u * h + l) - c2 * (h * h)
  {
    assert (ah - bh - c1) * h == ah * h - bh * h - c1 * h;
    assert (u - c2 * h) * h == u * h - (c2 * h) * h;
    Assoc(c2, h, h);
  }

  /** Both steps of a word. */
  method SubHalves(a: word, b: word, borrow: nat) returns (borrow': nat, differ: bool, ghost w: word)
    requires borrow <= 1
    ensures a - b - borrow == w - borrow' * B && borrow' <= 1 && (differ <==> w != 0)
  {
    hide Rem, Shr, Hi, Lo;
    HalfBase();
    Halves(a);
    Halves(b);
    var c1, l := SubHalf(Lo(a), Lo(b), borrow);
    var c2, u := SubHalf(Hi(a), Hi(b), c1);
    TwoSteps(Hi(a), Lo(a), Hi(b), Lo(b), borrow, l, c1, u, c2, H);
    LowFits(u, l, H);
    NotBothZero(u, l, H);
    borrow', differ := c2, l != 0 || u != 0;
    w := u * H + l;
  }

  lemma NotBothZero(u: int, l: int, h: int)
    requires 0 <= u && 0 <= l && 0 < h
    ensures 0 <= u * h + l && (u * h + l == 0 <==> u == 0 && l == 0)
  {
    if u > 0 {
      MulMono(1, u, h);
    }
  }

  /** A word product plus two words still fits in two words. */
  lemma MacFits(a: nat, b: nat, c: nat, d: nat, high: nat, low: nat, bb: nat)
    requires a < bb && b < bb && c < bb && d < bb && a * b + c + d == high * bb + low
    ensures high < bb
  {
    ProductBound(a, b, bb);
    if high >= bb {
      MulMono(bb, high, bb);
    }
  }

  /** `MUL_AB` followed by `ADD_ABC` and the addition of the high word: `a * b + c + carry` in two words. */
  method MulAddAdd(a: word, b: word, c: word, carry: word) returns (high: word, low: word)
    ensures high * B + low == a * b + c + carry
  {
    var h, l := MulAB(a, b);
    var k, r := AddABC(c, l, carry);
    assert (k + h) * B == k * B + h * B;
    MacFits(a, b, c, carry, k + h, r, B);
    high, low := k + h, r;
  }
}
