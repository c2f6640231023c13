/** Reading 5-bit windows out of an exponent stored as 64-bit words. */
module Windows {
  import opened Arith
  import opened Digits
  import opened Bits
  import opened Lanes

  const WIN: nat := 5

  /** The window at bit `bit`: it may straddle two words. The top word of `e` is zero padding. */
  function Window(e: seq<u64>, bit: nat): (idx: nat)
    requires bit / 64 + 1 < |e|
  {
    WindowAt(e, bit / 64, bit % 64)
  }

  function WindowAt(e: seq<u64>, chunk: nat, shift: nat): (idx: nat)
    requires chunk + 1 < |e| && shift < 64
  {
    Xor(Shr(e[chunk], shift), FromNext(e[chunk + 1], shift)) % 32
  }

  /** The bits of the next word shifted in above the current one, wrapping at 64 bits. */
  function FromNext(w: u64, shift: nat): nat
    requires shift < 64
  {
    if shift == 0 then 0 else (w * Pow(2, 64 - shift)) % W64
  }

  lemma Pow2Word()
    ensures Pow(2, 64) == W64
  {
    assert Pow(2, 8) == 0x100;
    PowAdd(2, 8, 8);
    PowAdd(2, 16, 16);
    PowAdd(2, 32, 32);
  }

  /** Dropping the words below `chunk` is a shift by `64 * chunk` bits. */
  lemma ShiftWords(e: seq<nat>, chunk: nat)
    requires chunk <= |e| && Bounded(e, W64)
    ensures Shr(Val(e, W64), 64 * chunk) == Val(e[chunk..], W64)
  {
    Pow2Word();
    PowPow(2, 64, chunk);
    ValSplit(e, chunk, W64);
    assert Bounded(e[..chunk], W64);
    ValBound(e[..chunk], W64);
    ShrExact(Val(e, W64), 64 * chunk, Val(e[chunk..], W64), Val(e[..chunk], W64));
  }

  /** Shifting a word followed by higher words right by `s < 64` bits. */
  lemma ShiftBits(w: nat, high: nat, s: nat)
    requires w < W64 && s <= 64
    ensures (w + W64 * high) / Pow(2, s) == w / Pow(2, s) + Pow(2, 64 - s) * high
  {
    Pow2Word();
    PowAdd(2, s, 64 - s);
    ShiftSum(w, high, Pow(2, s), Pow(2, 64 - s));
  }

  lemma ShiftSum(w: nat, high: nat, p: nat, q: nat)
    requires p > 0
    ensures (w + (p * q) * high) / p == w / p + q * high
  {
    var d := w / p;
    assert w == d * p + w % p;
    assert (p * q) * high == p * (q * high) by { Assoc(p, q, high); }
    DivModUnique(w + (p * q) * high, p, d + q * high, w % p);
  }

  lemma TruncatedMultiple(w: nat, p: nat, f: nat)
    requires p > 0 && f > 0
    ensures p * f > 0 && (w * p) % (p * f) == (w % f) * p && w * p == (w / f) * (p * f) + (w % f) * p
  {
    var d, r := w / f, w % f;
    assert w == d * f + r;
    assert (d * f + r) * p == d * (p * f) + r * p by { Assoc(d, f, p); }
    MulMono(r, f - 1, p);
    DivModUnique(w * p, p * f, d, r * p);
  }

  /** The wrapped left shift of the next word: a multiple of the gap, with the right low bits. */
  lemma WrappedShift(w: nat, g: nat)
    requires g <= 64
    ensures (w * Pow(2, g)) % W64 == (w % Pow(2, 64 - g)) * Pow(2, g)
    ensures Cong((w * Pow(2, g)) % W64, w * Pow(2, g), 32)
  {
    Pow2Word();
    PowAdd(2, g, 64 - g);
    TruncatedMultiple(w, Pow(2, g), Pow(2, 64 - g));
    var d, t := w / Pow(2, 64 - g), (w * Pow(2, g)) % W64;
    CongIntro(w * Pow(2, g), t, d * 0x800_0000_0000_0000, 32);
  }

  /** Whole words above the window do not reach its five bits. */
  lemma HighWordsVanish(low: nat, w: nat, rest: nat, g: nat)
    ensures Cong(low + Pow(2, g) * (w + W64 * rest), low + w * Pow(2, g), 32)
  {
    var p := Pow(2, g);
    assert p * (w + W64 * rest) == w * p + W64 * (p * rest) by { Assoc(p, W64, rest); Assoc(W64, p, rest); }
    CongIntro(low + p * (w + W64 * rest), low + w * p, 0x800_0000_0000_0000 * (p * rest), 32);
  }

  /** The words `w`, `w1` and `rest` above them, shifted right by `shift` bits. */
  ghost function Shifted(w: nat, w1: nat, rest: nat, shift: nat): nat
    requires shift < 64
  {
    Shr(w, shift) + Pow(2, 64 - shift) * (w1 + W64 * rest)
  }

  lemma ShiftedExponent(e: seq<u64>, chunk: nat, shift: nat)
    requires chunk + 1 < |e| && shift < 64
    ensures Shr(Val(e, W64), 64 * chunk + shift) == Shifted(e[chunk], e[chunk + 1], Val(e[chunk + 2..], W64), shift)
  {
    ShrAdd(Val(e, W64), 64 * chunk, shift);
    ShiftWords(e, chunk);
    TwoWords(e[chunk..]);
    assert e[chunk..][2..] == e[chunk + 2..];
    ShiftTwo(e[chunk], e[chunk + 1], Val(e[chunk + 2..], W64), shift);
  }

  lemma ShiftTwo(w: u64, w1: u64, rest: nat, shift: nat)
    requires shift < 64
    ensures Shr(w + W64 * (w1 + W64 * rest), shift) == Shifted(w, w1, rest, shift)
  {
    ShrIsDiv(w + W64 * (w1 + W64 * rest), shift);
    ShrIsDiv(w, shift);
    ShiftBits(w, w1 + W64 * rest, shift);
  }

  lemma TwoWords(e: seq<nat>)
    requires |e| >= 2
    ensures Val(e, W64) == e[0] + W64 * (e[1] + W64 * Val(e[2..], W64))
  {
    assert e[1..][1..] == e[2..];
  }

  /** Joining the two shifted words by exclusive or gives the low five bits of their sum. */
  lemma JoinWords(low: nat, w1: u64, shift: nat)
    requires shift < 64 && low < Pow(2, 64 - shift)
    ensures Cong(Xor(low, FromNext(w1, shift)), low + w1 * Pow(2, 64 - shift), 32)
  {
    if shift == 0 {
      Pow2Word();
      XorZeroRight(low);
      CongIntro(low + w1 * Pow(2, 64), low, w1 * 0x800_0000_0000_0000, 32);
    } else {
      var g := 64 - shift;
      WrappedShift(w1, g);
      DisjointAdd(low, w1 % Pow(2, shift), g);
      CongAdd(low, low, (w1 * Pow(2, g)) % W64, w1 * Pow(2, g), 32);
    }
  }

  /** The extracted window is bits `bit` to `bit + 4` of the exponent, also across a word boundary. */
  lemma WindowIsBits(e: seq<u64>, bit: nat)
    requires bit / 64 + 1 < |e|
    ensures Window(e, bit) == Shr(Val(e, W64), bit) % 32
  {
    WindowAtIsBits(e, bit / 64, bit % 64);
    assert bit == 64 * (bit / 64) + bit % 64;
  }

  lemma WindowAtIsBits(e: seq<u64>, chunk: nat, shift: nat)
    requires chunk + 1 < |e| && shift < 64
    ensures WindowAt(e, chunk, shift) == Shr(Val(e, W64), 64 * chunk + shift) % 32
  {
    ShiftedExponent(e, chunk, shift);
    WindowOfParts(e[chunk], e[chunk + 1], Val(e[chunk + 2..], W64), shift);
  }

  lemma WindowOfParts(w: u64, w1: u64, rest: nat, shift: nat)
    requires shift < 64
    ensures Xor(Shr(w, shift), FromNext(w1, shift)) % 32 == Shifted(w, w1, rest, shift) % 32
  {
    var low := Shr(w, shift);
    LowBits(w, shift);
    HighWordsVanish(low, w1, rest, 64 - shift);
    JoinWords(low, w1, shift);
    CongIsMod(Xor(low, FromNext(w1, shift)), Shifted(w, w1, rest, shift), 32);
  }

  lemma LowBits(w: u64, s: nat)
    requires s <= 64
    ensures Shr(w, s) < Pow(2, 64 - s)
  {
    ShrIsDiv(w, s);
    Pow2Word();
    PowAdd(2, s, 64 - s);
    QuotientBound(w, Pow(2, s), Pow(2, 64 - s));
  }

  lemma {:induction false} XorZeroRight(x: nat)
    ensures Xor(x, 0) == x
  {
    if x == 0 {
    } else {
      XorZeroRight(x / 2);
    }
  }

  /** The first, short window: the top bits of the top word. */
  lemma FirstWindow(e: seq<u64>, words: nat, delta: nat)
    requires 0 < words && |e| == words + 1 && e[words] == 0 && 0 < delta <= WIN
    ensures Shr(e[words - 1], 64 - delta) == Shr(Val(e, W64), 64 * words - delta)
    ensures Shr(e[words - 1], 64 - delta) < 32
  {
    var s := 64 - delta;
    ShrAdd(Val(e, W64), 64 * (words - 1), s);
    ShiftWords(e, words - 1);
    assert e[words - 1..] == [e[words - 1], 0];
    TwoWords(e[words - 1..]);
    LowBits(e[words - 1], s);
    assert Pow(2, 5) == 32;
    PowMono(2, delta, 5);
  }

  /** A window prepends five bits to the exponent consumed so far. */
  lemma WindowStep(e: nat, bit: nat)
    ensures Shr(e, bit) == 32 * Shr(e, bit + 5) + Shr(e, bit) % 32
  {
    ShrAdd(e, bit, 5);
    ShrIsDiv(Shr(e, bit), 5);
    assert Pow(2, 5) == 32;
  }
}
