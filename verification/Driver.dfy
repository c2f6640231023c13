/** The RSA driver: from 64-bit words and a radix-2^64 converter to the radix-2^52 dual exponentiation and back. */
module Driver {
  import opened Arith
  import opened Digits
  import opened Lanes
  import opened Amm
  import opened Montgomery
  import opened Windows
  import opened Exp
  import Packing
  import opened DualExp

  /** Number of significant bits. */
  function BitLen(v: nat): (n: nat)
  {
    if v == 0 then 0 else 1 + BitLen(v / 2)
  }

  lemma {:induction false} BitLenBounds(v: nat)
    ensures v < Pow(2, BitLen(v))
    ensures v > 0 ==> BitLen(v) > 0 && Pow(2, BitLen(v) - 1) <= v
  {
    if v == 0 {
    } else {
      BitLenBounds(v / 2);
    }
  }

  /** The kernel chosen for a modulus size: digits, lanes and mask-register width. */
  datatype Kernel = Kernel(n: nat, lanes: nat, width: nat) | Unsupported

  function KernelFor(bits: nat): Kernel
  {
    var redLen := (bits + 2 + 51) / 52;
    var lanes := (redLen + 3) / 4 * 4;
    if bits == 1024 then Kernel(redLen, lanes, 32)
    else if bits == 1536 then Kernel(redLen, lanes, 32)
    else if bits == 2048 then Kernel(redLen, lanes, 64)
    else Unsupported
  }

  /** Exponent of the correction between the two Montgomery radixes. */
  function ConvBits(bits: nat, n: nat): int
  {
    4 * (52 * n - bits)
  }

  lemma KernelSizes(bits: nat)
    requires KernelFor(bits).Kernel?
    ensures var k := KernelFor(bits);
      && k.n <= k.lanes <= k.width && 2 <= k.n <= 40 && bits + 2 <= 52 * k.n
      && 0 <= ConvBits(bits, k.n) <= 128 && ConvBits(bits, k.n) / 52 < k.n
      && bits % 64 == 0 && 1024 <= bits
  {
  }

  /** The supported sizes, with digits, lanes and mask-register width. */
  lemma Kernels(bits: nat)
    ensures bits == 1024 ==> KernelFor(bits) == Kernel(20, 20, 32)
    ensures bits == 1536 ==> KernelFor(bits) == Kernel(30, 32, 32)
    ensures bits == 2048 ==> KernelFor(bits) == Kernel(40, 40, 64)
    ensures KernelFor(bits).Kernel? <==> bits == 1024 || bits == 1536 || bits == 2048
  {
  }

  /** The digit array with only bit `bit` set, counting 52 bits to a digit. */
  method SetBit(red: array<u64>, bit: nat)
    requires bit / 52 < red.Length
    modifies red
    ensures Bounded(red[..], W52) && Val(red[..], W52) == Pow(2, bit)
  {
    forall j | 0 <= j < red.Length { red[j] := 0; }
    var slot := bit / 52;
    BitInDigit(bit % 52);
    red[slot] := Pow(2, bit % 52);
    SingleDigit(red[..], slot);
    Pow2Digit();
    PowPow(2, 52, slot);
    PowAdd(2, 52 * slot, bit % 52);
    assert bit == 52 * slot + bit % 52;
  }

  lemma BitInDigit(b: nat)
    requires b < 52
    ensures Pow(2, b) < W52
  {
    Pow2Digit();
    PowMono(2, b, 51);
    assert Pow(2, 52) == 2 * Pow(2, 51);
  }

  /** A digit sequence with one non-zero digit. */
  lemma SingleDigit(s: seq<nat>, slot: nat)
    requires slot < |s| && forall j :: 0 <= j < |s| && j != slot ==> s[j] == 0
    ensures Val(s, W52) == Pow(W52, slot) * s[slot]
  {
    ValSplit(s, slot, W52);
    ValZeros(s[..slot], W52);
    ValZeros(s[slot + 1..], W52);
    assert s[slot..][1..] == s[slot + 1..];
  }

  lemma WordsFit(x: seq<u64>, len: nat)
    requires |x| <= len
    ensures Val(x, W64) < Pow(W64, len)
  {
    assert Bounded(x, W64);
    ValBound(x, W64);
    PowMono(W64, |x|, len);
  }

  /** `ZEXPAND_COPY_BNU` into the conversion buffer. */
  method Extended(words: array<u64>, len: nat) returns (buffer: array<u64>)
    requires words.Length <= len
    ensures fresh(buffer) && buffer.Length == len && Val(buffer[..], W64) == Val(words[..], W64)
  {
    buffer := new u64[len](_ => 0);
    for i: nat := 0 to words.Length
      invariant buffer[..i] == words[..i] && forall j :: i <= j < len ==> buffer[j] == 0
    {
      buffer[i] := words[i];
    }
    ValSplit(buffer[..], words.Length, W64);
    ValZeros(buffer[words.Length..], W64);
    assert buffer[..][..words.Length] == words[..] && buffer[..][words.Length..] == buffer[words.Length..];
  }

  lemma WordBytesPower(size: nat)
    ensures Pow(0x100, 8 * size) == Pow(W64, size) && 64 * size / 8 == 8 * size
  {
    Packing.BytePowers();
    PowPow(0x100, 8, size);
  }

  lemma NotThirteen(size: nat)
    requires size % 13 != 0
    ensures 8 * size % 104 != 0
  {
    DivModUnique(8 * size, 104, size / 13, 8 * (size % 13));
  }

  /** At most `size` 64-bit words into 52-bit digits of the same value. */
  method ToRedundant(red: array<u64>, words: array<u64>, size: nat)
    requires red != words && words.Length <= size < red.Length && 64 * size <= 52 * red.Length
    modifies red
    ensures Bounded(red[..], W52) && Val(red[..], W52) == Val(words[..], W64)
  {
    var buffer := Extended(words, red.Length);
    WordsFit(words[..], size);
    WordBytesPower(size);
    Packing.MemoryIs(buffer[..]);
    Packing.RegularDig52(red, Packing.Memory(buffer[..]), 64 * size);
  }

  /** 52-bit digits into 64-bit words of the same value. */
  method ToRegular(words: array<u64>, red: array<u64>)
    requires red != words && Bounded(red[..], W52) && Val(red[..], W52) < Pow(W64, words.Length)
    requires words.Length % 13 != 0 && 64 * words.Length <= 52 * red.Length
    modifies words
    ensures Val(words[..], W64) == Val(red[..], W52)
  {
    var b := new Packing.u8[8 * words.Length](_ => 0);
    WordBytesPower(words.Length);
    NotThirteen(words.Length);
    Packing.Dig52Regular(b, red[..]);
    Packing.Words(words, b);
  }

  /** `BITSIZE_BNU`: bits in all words below the top one, plus the significant bits of the top word. */
  function SizeInBits(m: seq<nat>): nat
    requires |m| > 0
  {
    64 * (|m| - 1) + BitLen(m[|m| - 1])
  }

  lemma Bracket(low: nat, p: nat, top: nat, lo: nat, hi: nat)
    requires low < p && lo <= top < hi
    ensures lo * p <= low + p * top < hi * p
  {
    MulMono(lo, top, p);
    MulMono(top + 1, hi, p);
  }

  /** The size of a number without leading zero words brackets its value between two powers of two. */
  lemma SizeBrackets(m: seq<nat>)
    requires |m| > 0 && Bounded(m, W64) && m[|m| - 1] > 0
    ensures SizeInBits(m) > 0 && Pow(2, SizeInBits(m) - 1) <= Val(m, W64) < Pow(2, SizeInBits(m))
    ensures 64 * (|m| - 1) < SizeInBits(m) <= 64 * |m|
  {
    var n, top := |m| - 1, m[|m| - 1];
    var bits := BitLen(top);
    BitLenBounds(top);
    TopWord(top);
    Pow2Word();
    PowPow(2, 64, n);
    assert Bounded(m[..n], W64);
    ValBound(m[..n], W64);
    ValPrefix(m, n, W64);
    assert m[..n + 1] == m;
    Bracket(Val(m[..n], W64), Pow(2, 64 * n), top, Pow(2, bits - 1), Pow(2, bits));
    PowAdd(2, bits - 1, 64 * n);
    PowAdd(2, bits, 64 * n);
    assert bits - 1 + 64 * n == SizeInBits(m) - 1 && bits + 64 * n == SizeInBits(m);
  }

  lemma TopWord(top: nat)
    requires 0 < top < W64
    ensures BitLen(top) <= 64
  {
    BitLenBounds(top);
    Pow2Word();
    if BitLen(top) > 64 {
      PowMono(2, 64, BitLen(top) - 1);
    }
  }

  /** What the driver reads of an engine: modulus words, the square of the word radix, and the factor. */
  datatype Constants = Constants(modulus: array<u64>, rr: array<u64>, k0: u64)
  {
    ghost function M(): nat
      reads modulus
    {
      Val(modulus[..], W64)
    }

    /** A modulus without leading zero words, its converter 2^(2L), and the negated inverse of its low word. */
    ghost predicate Valid()
      reads modulus, rr
    {
      && 0 < modulus.Length == rr.Length && modulus[modulus.Length - 1] > 0 && M() > 0
      && Val(rr[..], W64) < M() && Cong(Val(rr[..], W64), Pow(2, 2 * (64 * modulus.Length)), M())
      && Cong(k0 * modulus[0] + 1, 0, W64)
    }
  }

  /** Two spare bits above the modulus remain in the redundant representation. */
  lemma SpareBits(m: nat, bits: nat)
    requires KernelFor(bits).Kernel? && m < Pow(2, bits)
    ensures 4 * m <= Radix(KernelFor(bits).n) && Pow(2, bits) <= Radix(KernelFor(bits).n)
  {
    KernelSizes(bits);
    var n := KernelFor(bits).n;
    RadixIsPow2(n);
    PowMono(2, bits + 2, 52 * n);
    PowAdd(2, bits, 2);
    assert Pow(2, 2) == 4;
  }

  /** The 64-bit factor is also a factor for 52-bit digits. */
  lemma FactorCarries(k0: nat, words: seq<nat>, digits: seq<nat>)
    requires |words| > 0 && |digits| > 0 && Val(words, W64) == Val(digits, W52)
    requires Cong(k0 * words[0] + 1, 0, W64)
    ensures Cong(k0 * digits[0] + 1, 0, W52)
  {
    var m, w0, d0 := Val(words, W64), words[0], digits[0];
    var q := CongElim(k0 * w0 + 1, 0, W64);
    CongIntro(k0 * w0 + 1, 0, q * 0x1000, W52);
    CongIntro(m, w0, 0x1000 * Val(words[1..], W64), W52);
    CongIntro(m, d0, Val(digits[1..], W52), W52);
    CongMul(w0, d0, k0, W52);
    CongAdd(k0 * w0, k0 * d0, 1, 1, W52);
  }

  /** The converter arithmetic: 2^(2L) becomes 2^(2D) through two products and the correction 2^(4(D-L)). */
  lemma ConverterShift(rr: nat, r1: nat, r2: nat, coeff: nat, m: nat, n: nat, L: nat, y1: nat, y2: nat)
    requires m > 0 && m % 2 == 1 && L <= 52 * n
    requires Cong(rr, Pow(2, 2 * L), m) && coeff == Pow(2, 4 * (52 * n - L))
    requires AlmostProduct(r1, rr * rr, m, n, y1) && AlmostProduct(r2, r1 * coeff, m, n, y2)
    ensures Cong(r2, Radix(n) * Radix(n), m)
  {
    hide Pow, AlmostProduct;
    var R := Radix(n);
    RadixIsPow2(n);
    ProductCong(r1, rr * rr, m, n, y1);
    ProductCong(r2, r1 * coeff, m, n, y2);
    CongMul2(rr, Pow(2, 2 * L), rr, Pow(2, 2 * L), m);
    PowAdd(2, 2 * L, 2 * L);
    assert Cong(r1 * R, Pow(2, 4 * L), m);
    ConverterChain(r1, r2, R, coeff, Pow(2, 4 * L), m);
    PowAdd(2, 4 * L, 4 * (52 * n - L));
    PowAdd(2, 52 * n, 52 * n);
    PowAdd(2, 104 * n, 104 * n);
    assert Pow(2, 4 * L) * coeff == (R * R) * (R * R);
    Assoc(R * R, R, R);
    Assoc(r2, R, R);
    assert Cong(r2 * R * R, (R * R) * R * R, m);
    RadixCancel(r2 * R, (R * R) * R, n, m);
    RadixCancel(r2, R * R, n, m);
  }

  lemma ConverterChain(r1: nat, r2: nat, R: nat, coeff: nat, p: nat, m: nat)
    requires m > 0 && Cong(r1 * R, p, m) && Cong(r2 * R, r1 * coeff, m)
    ensures Cong((r2 * R) * R, p * coeff, m)
  {
    CongMul(r2 * R, r1 * coeff, R, m);
    CongMul(r1 * R, p, coeff, m);
    assert (r1 * coeff) * R == (r1 * R) * coeff by { Assoc(r1, coeff, R); Assoc(r1, R, coeff); }
  }

  /** Turns the engine's converter into a converter for radix 2^52, in place. */
  method ConvertConverter(redRR: array<u64>, redCoeff: array<u64>, redM: array<u64>, c: Context, ghost L: nat)
    requires c.Valid() && redM[..] == c.m && redRR != redM && redRR != redCoeff
    requires redRR.Length == redM.Length == redCoeff.Length
    requires Bounded(redRR[..], W52) && Bounded(redCoeff[..], W52)
    requires Val(redRR[..], W52) < Val(c.m, W52) && Cong(Val(redRR[..], W52), Pow(2, 2 * L), Val(c.m, W52))
    requires L <= 52 * c.n && 4 * (52 * c.n - L) + 1 <= 52 * c.n
    requires Val(redCoeff[..], W52) == Pow(2, 4 * (52 * c.n - L))
    modifies redRR
    ensures Bounded(redRR[..], W52) && Val(redRR[..], W52) < 2 * Val(c.m, W52)
    ensures Cong(Val(redRR[..], W52), Radix(c.n) * Radix(c.n), Val(c.m, W52))
  {
    ghost var m, rr, coeff := Val(c.m, W52), Val(redRR[..], W52), Val(redCoeff[..], W52);
    OperandsFit(rr, rr, m, c.n);
    ghost var y1 := Multiply(redRR, redRR, redRR, redM, c.k0, c.n, c.width);
    ghost var r1 := Val(redRR[..], W52);
    assert redM[..] == c.m && redCoeff[..] == old(redCoeff[..]);
    CorrectionFits(r1, coeff, m, c.n, L);
    ghost var y2 := Multiply(redRR, redRR, redCoeff, redM, c.k0, c.n, c.width);
    FactorMakesOdd(c.m, c.k0);
    ConverterShift(rr, r1, Val(redRR[..], W52), coeff, m, c.n, L, y1, y2);
  }

  lemma CorrectionFits(r1: nat, coeff: nat, m: nat, n: nat, L: nat)
    requires r1 < 2 * m && L <= 52 * n && 4 * (52 * n - L) + 1 <= 52 * n
    requires coeff == Pow(2, 4 * (52 * n - L))
    ensures coeff < Radix(n) && r1 * coeff < m * Radix(n)
  {
    RadixIsPow2(n);
    var d := 4 * (52 * n - L);
    PowMono(2, d + 1, 52 * n);
    HalfProduct(r1, coeff, m, Radix(n));
  }

  lemma HalfProduct(r: nat, c: nat, m: nat, R: nat)
    requires r < 2 * m && 0 < c && 2 * c <= R
    ensures c < R && r * c < m * R
  {
    MulMono(r + 1, 2 * m, c);
    MulMono(2 * c, R, m);
    assert (2 * m) * c == (2 * c) * m;
  }

  /** One half prepared for exponentiation: redundant operand, modulus and converter, and the kernel's view of the modulus. */
  ghost predicate Half(x: seq<u64>, m: seq<u64>, rr: seq<u64>, c: Context, vx: nat, vm: nat, k: Kernel)
  {
    && k.Kernel? && c.Valid() && c.n == k.n && c.width == k.width && c.m == m && |m| == k.lanes
    && Entry(x, rr, c) && Val(x, W52) == vx && Val(m, W52) == vm
  }

  /** The size of a supported modulus fills its words, and its value has exactly that many bits. */
  lemma WholeWords(bits: nat, n: nat)
    requires bits % 64 == 0 && 64 * (n - 1) < bits <= 64 * n
    ensures bits == 64 * n
  {
  }

  lemma SupportedSize(m: seq<nat>)
    requires |m| > 0 && Bounded(m, W64) && m[|m| - 1] > 0 && KernelFor(SizeInBits(m)).Kernel?
    ensures SizeInBits(m) == 64 * |m| && Val(m, W64) < Pow(2, 64 * |m|) <= 2 * Val(m, W64)
    ensures Pow(W64, |m|) == Pow(2, 64 * |m|)
  {
    hide Val, SizeInBits, KernelFor;
    var bits := SizeInBits(m);
    SizeBrackets(m);
    KernelSizes(bits);
    WholeWords(bits, |m|);
    Pow2Word();
    PowPow(2, 64, |m|);
    assert Pow(2, bits) == 2 * Pow(2, bits - 1);
  }

  /** A kernel has room for the words of a modulus: two spare bits above it, and a correction below one radix. */
  ghost predicate SizedFor(words: seq<nat>, k: Kernel)
  {
    && k.Kernel? && 0 < k.n <= k.lanes <= k.width && k.n <= 1023 && |words| < k.lanes && |words| % 13 != 0
    && 64 * |words| <= 52 * k.n && 4 * (52 * k.n - 64 * |words|) + 1 <= 52 * k.n
    && Pow(W64, |words|) <= Pow(W52, k.lanes)
    && Pow(W64, |words|) <= 2 * Val(words, W64) && 4 * Val(words, W64) <= Radix(k.n)
  }

  lemma KernelIsSized(words: seq<nat>)
    requires |words| > 0 && Bounded(words, W64) && words[|words| - 1] > 0 && KernelFor(SizeInBits(words)).Kernel?
    ensures SizedFor(words, KernelFor(SizeInBits(words))) && SizeInBits(words) == 64 * |words|
  {
    var k := KernelFor(SizeInBits(words));
    KernelSizes(SizeInBits(words));
    SupportedSize(words);
    WordRoom(|words|);
    SpareBits(Val(words, W64), SizeInBits(words));
    PowMono(W52, k.n, k.lanes);
  }

  /** Room in the digits beyond the words, and a word count that keeps every 64-bit store inside them. */
  lemma WordRoom(len: nat)
    requires KernelFor(64 * len).Kernel?
    ensures len < KernelFor(64 * len).lanes && len % 13 != 0
  {
    assert len == 16 || len == 24 || len == 32;
  }

  lemma HalfModulus(words: seq<nat>, m: seq<nat>, k0: nat, k: Kernel)
    requires |words| > 0 && Cong(k0 * words[0] + 1, 0, W64)
    requires SizedFor(words, k) && |m| == k.lanes && Val(words, W64) > 0
    requires Bounded(m, W52) && Val(m, W52) == Val(words, W64)
    ensures ExpModulus(m, k.n, k0)
  {
    FactorCarries(k0, words, m);
  }

  /** Operand, modulus and the unconverted converter of one half, in redundant form. */
  method ConvertOperands(dataX: array<u64>, eng: Constants, k: Kernel)
    returns (redX: array<u64>, redM: array<u64>, redRR: array<u64>, c: Context)
    requires eng.Valid() && SizedFor(eng.modulus[..], k)
    requires dataX.Length <= eng.modulus.Length
    ensures fresh(redX) && fresh(redM) && fresh(redRR) && redX != redM && redRR != redM && redX != redRR
    ensures redX.Length == redRR.Length == k.lanes && c == Context(redM[..], k.n, eng.k0, k.width)
    ensures c.Valid() && |c.m| == k.lanes && Val(c.m, W52) == eng.M()
    ensures Bounded(redX[..], W52) && Val(redX[..], W52) == Val(dataX[..], W64) < 2 * eng.M()
    ensures Bounded(redRR[..], W52) && Val(redRR[..], W52) == Val(eng.rr[..], W64)
  {
    WordsFit(dataX[..], eng.modulus.Length);
    WordsFit(eng.modulus[..], eng.modulus.Length);
    WordsFit(eng.rr[..], eng.modulus.Length);
    redX := new u64[k.lanes](_ => 0);
    ToRedundant(redX, dataX, eng.modulus.Length);
    redM := new u64[k.lanes](_ => 0);
    ToRedundant(redM, eng.modulus, eng.modulus.Length);
    redRR := new u64[k.lanes](_ => 0);
    ToRedundant(redRR, eng.rr, eng.modulus.Length);
    HalfModulus(eng.modulus[..], redM[..], eng.k0, k);
    c := Context(redM[..], k.n, eng.k0, k.width);
  }

  /** Converts one half, including the converter itself. */
  method PrepareHalf(dataX: array<u64>, eng: Constants, redCoeff: array<u64>, k: Kernel)
    returns (redX: array<u64>, redM: array<u64>, redRR: array<u64>, c: Context)
    requires eng.Valid() && SizedFor(eng.modulus[..], k)
    requires dataX.Length <= eng.modulus.Length
    requires redCoeff.Length == k.lanes && Bounded(redCoeff[..], W52)
    requires Val(redCoeff[..], W52) == Pow(2, 4 * (52 * k.n - 64 * eng.modulus.Length))
    ensures fresh(redX) && fresh(redM) && fresh(redRR) && redX != redM && redRR != redM && redX != redRR
    ensures Half(redX[..], redM[..], redRR[..], c, Val(dataX[..], W64), eng.M(), k)
  {
    redX, redM, redRR, c := ConvertOperands(dataX, eng, k);
    ghost var xs := redX[..];
    assert redCoeff[..] == old(redCoeff[..]) && dataX[..] == old(dataX[..]);
    ConvertConverter(redRR, redCoeff, redM, c, 64 * eng.modulus.Length);
    assert redX[..] == xs && redM[..] == c.m;
  }

  /** The result of one half: at most the modulus, and congruent to the power. */
  ghost predicate ReducedPower(y: nat, x: nat, e: nat, m: nat)
    requires m > 0
  {
    y <= m && Cong(y, Pow(x, e), m)
  }

  method FinishHalf(dataY: array<u64>, red: array<u64>, c: Context, ghost x: nat, ghost e: nat)
    requires dataY != red && Reduced(red[..], Pow(x, e), c) && Val(c.m, W52) < Pow(W64, dataY.Length)
    requires dataY.Length % 13 != 0 && 64 * dataY.Length <= 52 * red.Length
    modifies dataY
    ensures ReducedPower(Val(dataY[..], W64), x, e, Val(c.m, W52))
  {
    ToRegular(dataY, red);
  }

  /** What the caller hands over for each half. */
  ghost predicate Call(dataY: Pair<array<u64>>, dataX: Pair<array<u64>>, dataE: Pair<array<u64>>, eng: Pair<Constants>)
    reads eng.l.modulus, eng.r.modulus, eng.l.rr, eng.r.rr
  {
    && eng.l.Valid() && eng.r.Valid() && SizeInBits(eng.l.modulus[..]) == SizeInBits(eng.r.modulus[..])
    && eng.l.modulus.Length == eng.r.modulus.Length
    && dataY.l.Length == dataE.l.Length == eng.l.modulus.Length && dataX.l.Length <= eng.l.modulus.Length
    && dataY.r.Length == dataE.r.Length == eng.r.modulus.Length && dataX.r.Length <= eng.r.modulus.Length
    && dataY.l != dataY.r && {dataY.l, dataY.r} !! {eng.l.modulus, eng.r.modulus, eng.l.rr, eng.r.rr}
  }

  /** The converters and everything else, up to the redundant results. */
  method DualExpInRedundantForm(dataX: Pair<array<u64>>, dataE: Pair<array<u64>>, eng: Pair<Constants>, k: Kernel, bits: nat,
                                ghost x: Pair<nat>, ghost e: Pair<nat>)
    returns (red: Pair<array<u64>>, c: Pair<Context>)
    requires eng.l.Valid() && eng.r.Valid()
    requires SizedFor(eng.l.modulus[..], k) && SizedFor(eng.r.modulus[..], k)
    requires bits == 64 * eng.l.modulus.Length == 64 * eng.r.modulus.Length
    requires dataE.l.Length == eng.l.modulus.Length && dataX.l.Length <= eng.l.modulus.Length
    requires dataE.r.Length == eng.r.modulus.Length && dataX.r.Length <= eng.r.modulus.Length
    requires x == Pair(Val(dataX.l[..], W64), Val(dataX.r[..], W64))
    requires e == Pair(Val(dataE.l[..], W64), Val(dataE.r[..], W64))
    ensures fresh(red.l) && fresh(red.r) && red.l.Length == red.r.Length == k.lanes
    ensures Reduced(red.l[..], Pow(x.l, e.l), c.l) && Val(c.l.m, W52) == eng.l.M()
    ensures Reduced(red.r[..], Pow(x.r, e.r), c.r) && Val(c.r.m, W52) == eng.r.M()
  {
    var redCoeff := new u64[k.lanes](_ => 0);
    SetBit(redCoeff, ConvBits(bits, k.n));
    ghost var coeff := redCoeff[..];
    var xl, ml, rl, cl := PrepareHalf(dataX.l, eng.l, redCoeff, k);
    assert redCoeff[..] == coeff;
    var xr, mr, rr, cr := PrepareHalf(dataX.r, eng.r, redCoeff, k);
    red, c := Pair(rl, rr), Pair(cl, cr);
    ExponentiateDual(red, Pair(xl, xr), dataE, Pair(ml, mr), red, c, bits);
  }

  /** The exponentiation of a supported size: through the redundant form and back. */
  method DualExpSupported(dataY: Pair<array<u64>>, dataX: Pair<array<u64>>, dataE: Pair<array<u64>>, eng: Pair<Constants>,
                          k: Kernel, bits: nat)
    requires Call(dataY, dataX, dataE, eng) && SizedFor(eng.l.modulus[..], k) && SizedFor(eng.r.modulus[..], k)
    requires bits == 64 * eng.l.modulus.Length
    modifies dataY.l, dataY.r
    ensures ReducedPower(Val(dataY.l[..], W64), old(Val(dataX.l[..], W64)), old(Val(dataE.l[..], W64)), eng.l.M())
    ensures ReducedPower(Val(dataY.r[..], W64), old(Val(dataX.r[..], W64)), old(Val(dataE.r[..], W64)), eng.r.M())
  {
    hide Val, SizeInBits;
    WordsFit(eng.l.modulus[..], eng.l.modulus.Length);
    WordsFit(eng.r.modulus[..], eng.r.modulus.Length);
    ghost var x := Pair(Val(dataX.l[..], W64), Val(dataX.r[..], W64));
    ghost var e := Pair(Val(dataE.l[..], W64), Val(dataE.r[..], W64));
    var red, c := DualExpInRedundantForm(dataX, dataE, eng, k, bits, x, e);
    ghost var rr := red.r[..];
    FinishHalf(dataY.l, red.l, c.l, x.l, e.l);
    ghost var yl := dataY.l[..];
    assert red.r[..] == rr;
    FinishHalf(dataY.r, red.r, c.r, x.r, e.r);
    assert dataY.l[..] == yl;
  }

  /**
   * Both halves of an RSA private exponentiation. Moduli of 1024, 1536 and 2048 bits are supported; any other size returns zero and
   * leaves the outputs alone. Each output is at most its modulus and congruent to its power. Outputs may be the bases or the exponents.
   */
  method DualExpWin(dataY: Pair<array<u64>>, dataX: Pair<array<u64>>, dataE: Pair<array<u64>>, eng: Pair<Constants>)
    returns (len: nat)
    requires Call(dataY, dataX, dataE, eng)
    modifies dataY.l, dataY.r
    ensures var bits := SizeInBits(eng.l.modulus[..]);
            if bits == 1024 || bits == 1536 || bits == 2048 then
              && len == 2 * (bits / 64)
              && ReducedPower(Val(dataY.l[..], W64), old(Val(dataX.l[..], W64)), old(Val(dataE.l[..], W64)), eng.l.M())
              && ReducedPower(Val(dataY.r[..], W64), old(Val(dataX.r[..], W64)), old(Val(dataE.r[..], W64)), eng.r.M())
            else len == 0 && dataY.l[..] == old(dataY.l[..]) && dataY.r[..] == old(dataY.r[..])
  {
    hide Val, SizeInBits, KernelFor, ReducedPower, SizedFor, Pow, Rem;
    var bits := SizeInBits(eng.l.modulus[..]);
    var k := KernelFor(bits);
    Kernels(bits);
    if k.Unsupported? {
      return 0;
    }
    KernelIsSized(eng.l.modulus[..]);
    KernelIsSized(eng.r.modulus[..]);
    DualExpSupported(dataY, dataX, dataE, eng, k, bits);
    return eng.l.modulus.Length + eng.r.modulus.Length;
  }
}
