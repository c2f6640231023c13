/**
 * Between 64-bit words and 52-bit digits through bytes in memory: two digits take thirteen bytes, read and written with overlapping
 * 64-bit accesses, and the last one or two digits byte by byte.
 */
module Packing {
  import opened Arith
  import opened Digits
  import opened Lanes

  type u8 = x: nat | x < 0x100

  /** A word as it stands in memory. */
  function WordBytes(w: u64): (s: seq<u8>)
    ensures |s| == 8
  {
    Cut(w, 8)
  }

  /** The low bytes of a number. */
  function Cut(v: nat, len: nat): (s: seq<u8>)
    ensures |s| == len
    decreases v, len
  {
    if len == 0 then [] else [v % 0x100] + Cut(v / 0x100, len - 1)
  }

  lemma {:induction false} CutIs(v: nat, len: nat)
    requires v < Pow(0x100, len)
    ensures Val(Cut(v, len), 0x100) == v
    decreases len
  {
    if len == 0 {
    } else {
      CutIs(v / 0x100, len - 1);
      assert Cut(v, len)[1..] == Cut(v / 0x100, len - 1);
    }
  }

  lemma BytePowers()
    ensures Pow(0x100, 6) == 0x1_0000_0000_0000 && Pow(0x100, 7) == 0x100_0000_0000_0000 && Pow(0x100, 8) == W64
    ensures Pow(0x100, 1) == 0x100
  {
    assert Pow(0x100, 2) == 0x1_0000;
    PowAdd(0x100, 2, 2);
    PowAdd(0x100, 4, 2);
    PowAdd(0x100, 6, 1);
    PowAdd(0x100, 7, 1);
  }

  function Memory(words: seq<u64>): (s: seq<u8>)
    ensures |s| == 8 * |words|
  {
    if words == [] then [] else WordBytes(words[0]) + Memory(words[1..])
  }

  /** Words and their bytes stand for the same number. */
  lemma {:induction false} MemoryIs(words: seq<u64>)
    ensures Val(Memory(words), 0x100) == Val(words, W64)
  {
    if words == [] {
    } else {
      BytePowers();
      CutIs(words[0], 8);
      MemoryIs(words[1..]);
      ValAppend(WordBytes(words[0]), Memory(words[1..]), 0x100);
    }
  }

  /** `getDig52`: bytes from the top down. */
  method GetDig52(b: seq<u8>, p: nat, len: nat) returns (digit: u64)
    requires len <= 7 && p + len <= |b|
    ensures digit == Val(b[p..p + len], 0x100)
  {
    digit := 0;
    var n: nat := len;
    assert b[p + len..p + len] == [];
    while n > 0
      invariant n <= len && digit == Val(b[p + n..p + len], 0x100) < Pow(0x100, len - n)
    {
      ghost var tail := b[p + n..p + len];
      assert b[p + n - 1..p + len][1..] == tail;
      ByteShift(digit, len - n);
      digit := digit * 0x100 % W64;
      digit := digit + b[p + n - 1];
      n := n - 1;
    }
  }

  lemma ByteShift(digit: nat, k: nat)
    requires digit < Pow(0x100, k) && k <= 6
    ensures digit * 0x100 + 0xFF < Pow(0x100, k + 1) <= 0x100_0000_0000_0000 && digit * 0x100 % W64 == digit * 0x100
  {
    BytePowers();
    PowMono(0x100, k + 1, 7);
    assert Pow(0x100, k + 1) == 0x100 * Pow(0x100, k);
  }

  /** A 64-bit load from any byte. */
  function Load(b: seq<u8>, p: nat): nat
    requires p + 8 <= |b|
  {
    Val(b[p..p + 8], 0x100)
  }

  lemma ValBytes(s: seq<u8>)
    ensures Val(s, 0x100) < Pow(0x100, |s|)
  {
    assert Bounded(s, 0x100);
    ValBound(s, 0x100);
  }

  /** Fourteen bytes, as six, one, six and one. */
  lemma FourteenBytes(r: seq<u8>)
    requires |r| >= 14
    ensures var a, b: nat, c, d: nat, e: nat := Val(r[..6], 0x100), r[6], Val(r[7..13], 0x100), r[7], r[13];
            && a < 0x1_0000_0000_0000 && c < 0x1_0000_0000_0000
            && Val(r, 0x100) == a + 0x1_0000_0000_0000 * b + 0x100_0000_0000_0000 * c + W52 * W52 * Val(r[13..], 0x100)
            && Load(r, 0) == a + 0x1_0000_0000_0000 * b + 0x100_0000_0000_0000 * d
            && Load(r, 6) == b + 0x100 * c + 0x100_0000_0000_0000 * e
  {
    BytePowers();
    ValBytes(r[..6]);
    ValBytes(r[7..13]);
    ValSplit(r, 6, 0x100);
    assert r[6..][1..] == r[7..];
    ValSplit(r[7..], 6, 0x100);
    assert r[7..][..6] == r[7..13] && r[7..][6..] == r[13..];
    ValSplit(r[0..8], 6, 0x100);
    assert r[0..8][..6] == r[..6] && r[0..8][6..] == [r[6], r[7]];
    assert [r[6], r[7]][1..] == [r[7]];
    ValSingle([r[7]], 0x100);
    assert r[6..14][1..] == r[7..13] + [r[13]];
    ValSnoc(r[7..13], r[13], 0x100);
  }

  /** Two digits from fourteen bytes. */
  lemma PairOfDigits(a: nat, b: nat, c: nat, d: nat, e: nat, x: nat, y: nat)
    requires a < 0x1_0000_0000_0000 && b < 0x100 && c < 0x1_0000_0000_0000
    requires x == a + 0x1_0000_0000_0000 * b + 0x100_0000_0000_0000 * d && y == b + 0x100 * c + 0x100_0000_0000_0000 * e
    ensures x % W52 + W52 * (y / 16 % W52) == a + 0x1_0000_0000_0000 * b + 0x100_0000_0000_0000 * c
  {
    var q, s := b / 16, b % 16;
    DivModUnique(x, W52, q + 16 * d, a + 0x1_0000_0000_0000 * s);
    DivModUnique(y, 16, q + 16 * c + W52 * e, s);
    DivModUnique(q + 16 * c + W52 * e, W52, e, q + 16 * c);
  }

  lemma NextPair(r: seq<u8>)
    requires |r| >= 14
    ensures Load(r, 0) % W52 + W52 * (Load(r, 6) / 16 % W52) + W52 * W52 * Val(r[13..], 0x100) == Val(r, 0x100)
  {
    FourteenBytes(r);
    PairOfDigits(Val(r[..6], 0x100), r[6], Val(r[7..13], 0x100), r[7], r[13], Load(r, 0), Load(r, 6));
  }

  lemma TwoSteps(b: nat, e: nat)
    ensures Pow(b, e + 2) == b * (b * Pow(b, e))
  {
    assert Pow(b, e + 2) == b * Pow(b, e + 1);
  }

  /** Two more digits. */
  lemma TwoDigits(digits: seq<nat>, lo: nat, hi: nat, rest: nat, total: nat)
    requires Val(digits, W52) + Pow(W52, |digits|) * (lo + W52 * hi + W52 * W52 * rest) == total
    ensures Val(digits + [lo, hi], W52) + Pow(W52, |digits| + 2) * rest == total
  {
    hide Pow;
    var p, x: nat := Pow(W52, |digits|), lo + W52 * hi;
    ValAppend(digits, [lo, hi], W52);
    assert Val([lo, hi], W52) == x by {
      assert [lo, hi][1..] == [hi];
      ValSingle([hi], W52);
    }
    TwoSteps(W52, |digits|);
    TwoDigitsSum(Val(digits, W52), p, Pow(W52, |digits| + 2), x, rest, total);
  }

  lemma TwoDigitsSum(v: int, p: int, p2: int, x: int, rest: int, total: int)
    requires v + p * (x + W52 * W52 * rest) == total && p2 == W52 * (W52 * p)
    ensures v + p * x + p2 * rest == total
  {
    var y := W52 * W52 * rest;
    assert p * (x + y) == p * x + p * y;
    assert p * y == W52 * W52 * (p * rest) by { Exchange(p, W52 * W52, rest); }
    Assoc(W52 * W52, p, rest);
  }

  /** What the last bytes hold: nothing above the bits that are left. */
  lemma TopBytes(r: seq<u8>, len: nat)
    requires len <= |r| && Val(r, 0x100) < Pow(0x100, len)
    ensures Val(r[..len], 0x100) == Val(r, 0x100)
  {
    ValHighZero(r, len, 0x100);
  }

  /** The last bytes, as six, one and the others. */
  lemma SixAndOne(s: seq<u8>)
    requires 7 <= |s|
    ensures var a, b: nat, t := Val(s[..6], 0x100), s[6], Val(s[7..], 0x100);
            && a < 0x1_0000_0000_0000 && Val(s[..7], 0x100) == a + 0x1_0000_0000_0000 * b && Val(s[6..], 0x100) == b + 0x100 * t
            && Val(s, 0x100) == a + 0x1_0000_0000_0000 * (b + 0x100 * t)
  {
    BytePowers();
    ValBytes(s[..6]);
    ValSplit(s, 6, 0x100);
    assert s[6..][1..] == s[7..];
    assert s[..7] == s[..6] + [s[6]];
    ValSnoc(s[..6], s[6], 0x100);
  }

  lemma LastPair(a: nat, b: nat, t: nat, x: nat, y: nat, v: nat)
    requires a < 0x1_0000_0000_0000 && b < 0x100
    requires x == a + 0x1_0000_0000_0000 * b && y == b + 0x100 * t && v == a + 0x1_0000_0000_0000 * y
    ensures x % W52 + W52 * (y / 16) == v
  {
    var q, m := b / 16, b % 16;
    DivModUnique(x, W52, q, a + 0x1_0000_0000_0000 * m);
    DivModUnique(y, 16, q + 16 * t, m);
  }

  /** The last two digits, from seven bytes and from those after the sixth. */
  lemma LastDigits(r: seq<u8>, len: nat)
    requires 7 <= len <= 12 && len <= |r| && Val(r, 0x100) < Pow(0x100, len)
    ensures var lo, hi := Val(r[..7], 0x100) % W52, Val(r[6..len], 0x100) / 16; lo + W52 * hi == Val(r, 0x100) && hi < W52
  {
    TopBytes(r, len);
    var s := r[..len];
    assert s[..7] == r[..7] && s[6..] == r[6..len];
    WholePair(s);
    SixBytes(s[6..]);
  }

  lemma WholePair(s: seq<u8>)
    requires 7 <= |s|
    ensures Val(s[..7], 0x100) % W52 + W52 * (Val(s[6..], 0x100) / 16) == Val(s, 0x100)
  {
    SixAndOne(s);
    LastPair(Val(s[..6], 0x100), s[6], Val(s[7..], 0x100), Val(s[..7], 0x100), Val(s[6..], 0x100), Val(s, 0x100));
  }

  lemma SixBytes(s: seq<u8>)
    requires |s| <= 6
    ensures Val(s, 0x100) / 16 < W52
  {
    ValBytes(s);
    PowMono(0x100, |s|, 6);
    BytePowers();
  }

  /** What the digits unpacked so far and the bytes left over stand for. */
  ghost predicate Unpacked(out: array<u64>, b: seq<u8>, k: nat)
    requires 2 * k <= out.Length && 13 * k <= |b|
    reads out
  {
    && Bounded(out[..2 * k], W52)
    && Val(out[..2 * k], W52) + Pow(W52, 2 * k) * Val(b[13 * k..], 0x100) == Val(b, 0x100)
  }

  /** Two digits appended. */
  method AppendPair(out: array<u64>, ghost b: seq<u8>, k: nat, lo: u64, hi: u64, ghost rest: nat)
    requires 2 * k + 2 <= out.Length && 13 * k <= |b| && Unpacked(out, b, k) && lo < W52 && hi < W52
    requires lo + W52 * hi + W52 * W52 * rest == Val(b[13 * k..], 0x100)
    modifies out
    ensures Bounded(out[..2 * k + 2], W52) && Val(out[..2 * k + 2], W52) + Pow(W52, 2 * k + 2) * rest == Val(b, 0x100)
  {
    ghost var was := out[..2 * k];
    TwoDigits(was, lo, hi, rest, Val(b, 0x100));
    out[2 * k], out[2 * k + 1] := lo, hi;
    assert out[..2 * k + 2] == was + [lo, hi];
  }

  /** The pairs: two overlapping loads for every thirteen bytes. */
  method UnpackPairs(out: array<u64>, b: seq<u8>, bits: nat) returns (k: nat)
    requires bits / 104 * 2 <= out.Length && 8 * |b| > bits && bits % 8 == 0
    modifies out
    ensures k == bits / 104 && 13 * k <= |b| && 2 * k <= out.Length && Unpacked(out, b, k)
  {
    k := 0;
    var left := bits;
    assert b[0..] == b;
    while left >= 104
      invariant left == bits - 104 * k && 13 * k <= |b| && 2 * k <= bits / 104 * 2 && Unpacked(out, b, k)
    {
      UnpackPair(out, b, k);
      k := k + 1;
      left := left - 104;
    }
  }

  /** One pair. */
  method UnpackPair(out: array<u64>, b: seq<u8>, k: nat)
    requires 2 * k + 2 <= out.Length && 13 * k + 14 <= |b| && Unpacked(out, b, k)
    modifies out
    ensures Bounded(out[..2 * k + 2], W52)
    ensures Val(out[..2 * k + 2], W52) + Pow(W52, 2 * k + 2) * Val(b[13 * k + 13..], 0x100) == Val(b, 0x100)
  {
    ghost var r := b[13 * k..];
    assert r[0..8] == b[13 * k..13 * k + 8] && r[6..14] == b[13 * k + 6..13 * k + 14] && r[13..] == b[13 * k + 13..];
    NextPair(r);
    var lo := Load(b, 13 * k) % W52;
    var hi := Load(b, 13 * k + 6) / 16 % W52;
    AppendPair(out, b, k, lo, hi, Val(r[13..], 0x100));
  }

  /** Two digits are thirteen bytes. */
  lemma {:induction false} PairPower(k: nat)
    ensures Pow(W52, 2 * k) == Pow(0x100, 13 * k)
    decreases k
  {
    if k == 0 {
    } else {
      PairPower(k - 1);
      ThirteenBytes();
      PowAdd(0x100, 13, 13 * (k - 1));
      PowAdd(W52, 2, 2 * (k - 1));
    }
  }

  lemma ThirteenBytes()
    ensures Pow(0x100, 13) == W52 * W52 == Pow(W52, 2)
  {
    BytePowers();
    PowAdd(0x100, 6, 7);
    assert Pow(W52, 1) == W52;
  }

  /** What is left after the pairs fits in the bytes that are left. */
  lemma RestFits(done: nat, k: nat, rest: nat, total: nat, bytes: nat)
    requires done + Pow(W52, 2 * k) * rest == total < Pow(0x100, bytes) && 13 * k <= bytes
    ensures rest < Pow(0x100, bytes - 13 * k)
  {
    PairPower(k);
    PowAdd(0x100, 13 * k, bytes - 13 * k);
    var p, q := Pow(0x100, 13 * k), Pow(0x100, bytes - 13 * k);
    if rest >= q {
      MulMono(q, rest, p);
    }
  }

  method UnpackTwo(out: array<u64>, b: seq<u8>, k: nat, left: nat)
    requires 52 < left < 104 && left % 8 == 0 && 13 * k + left / 8 <= |b| && Val(b[13 * k..], 0x100) < Pow(0x100, left / 8)
    requires 2 * k + 2 <= out.Length && Unpacked(out, b, k)
    modifies out
    ensures Bounded(out[..2 * k + 2], W52) && Val(out[..2 * k + 2], W52) == Val(b, 0x100)
  {
    hide Val, Pow, Cut;
    var p, len := 13 * k, left / 8;
    ghost var r := b[p..];
    assert r[..7] == b[p..p + 7] && r[6..len] == b[p + 6..p + len];
    LastDigits(r, len);
    var digit := GetDig52(b, p, 7);
    var lo := digit % W52;
    digit := GetDig52(b, p + 6, (left - 52 + 7) / 8);
    var hi := digit / 16;
    AppendPair(out, b, k, lo, hi, 0);
  }

  method UnpackOne(out: array<u64>, b: seq<u8>, k: nat, left: nat)
    requires 0 < left <= 52 && left % 8 == 0 && 13 * k + left / 8 <= |b| && Val(b[13 * k..], 0x100) < Pow(0x100, left / 8)
    requires 2 * k + 1 <= out.Length && Unpacked(out, b, k)
    modifies out
    ensures Bounded(out[..2 * k + 1], W52) && Val(out[..2 * k + 1], W52) == Val(b, 0x100)
  {
    var p, len := 13 * k, left / 8;
    ghost var was, r := out[..2 * k], b[p..];
    assert r[..len] == b[p..p + len];
    TopBytes(r, len);
    PowMono(0x100, len, 6);
    BytePowers();
    var digit := GetDig52(b, p, len);
    out[2 * k] := digit;
    assert out[..2 * k + 1] == was + [digit];
    ValSnoc(was, digit, W52);
  }

  /** The digits after the pairs: two, one or none. */
  method UnpackRest(out: array<u64>, b: seq<u8>, k: nat, left: nat) returns (used: nat)
    requires left < 104 && left % 8 == 0 && 13 * k + left / 8 <= |b| && 52 * (out.Length - 2 * k) >= left && 2 * k <= out.Length
    requires Unpacked(out, b, k) && Val(b[13 * k..], 0x100) < Pow(0x100, left / 8)
    modifies out
    ensures used <= out.Length && Bounded(out[..used], W52) && Val(out[..used], W52) == Val(b, 0x100)
  {
    used := 2 * k;
    if left > 52 {
      UnpackTwo(out, b, k, left);
      used := 2 * k + 2;
    } else if left > 0 {
      UnpackOne(out, b, k, left);
      used := 2 * k + 1;
    }
  }

  method ClearFrom(out: array<u64>, used: nat)
    requires used <= out.Length && Bounded(out[..used], W52)
    modifies out
    ensures Bounded(out[..], W52) && Val(out[..], W52) == old(Val(out[..used], W52))
  {
    ghost var was := out[..used];
    for i: nat := used to out.Length
      invariant out[..used] == was && forall j :: used <= j < i ==> out[j] == 0
    {
      out[i] := 0;
    }
    ValZeros(out[used..], W52);
    ValSplit(out[..], used, W52);
    assert out[..][..used] == was && out[..][used..] == out[used..];
    assert forall j :: 0 <= j < used ==> out[j] == was[j];
  }

  lemma BytesLeft(bits: nat, k: nat)
    requires bits % 8 == 0 && k == bits / 104
    ensures 0 <= bits - 104 * k < 104 && (bits - 104 * k) % 8 == 0 && (bits - 104 * k) / 8 == bits / 8 - 13 * k
  {
  }

  /** `regular_dig52`. */
  method RegularDig52(out: array<u64>, b: seq<u8>, bits: nat)
    requires bits % 8 == 0 && 8 * |b| > bits && Val(b, 0x100) < Pow(0x100, bits / 8) && 52 * out.Length >= bits
    modifies out
    ensures Bounded(out[..], W52) && Val(out[..], W52) == Val(b, 0x100)
  {
    var k := UnpackPairs(out, b, bits);
    RestFits(Val(out[..2 * k], W52), k, Val(b[13 * k..], 0x100), Val(b, 0x100), bits / 8);
    BytesLeft(bits, k);
    var used := UnpackRest(out, b, k, bits - 104 * k);
    ClearFrom(out, used);
  }

  /** `putDig52`: the low bytes of a digit. */
  method PutDig52(b: array<u8>, p: nat, len: nat, digit: u64)
    requires p + len <= b.Length
    modifies b
    ensures b[p..p + len] == Cut(digit, len) && b[..p] == old(b[..p]) && b[p + len..] == old(b[p + len..])
  {
    var rest: nat := digit;
    ghost var cut := Cut(digit, len);
    for i: nat := 0 to len
      invariant b[p..p + i] == cut[..i] && cut[i..] == Cut(rest, len - i)
      invariant b[..p] == old(b[..p]) && b[p + len..] == old(b[p + len..])
    {
      assert cut[i] == cut[i..][0] == rest % 0x100 && cut[i + 1..] == cut[i..][1..];
      b[p + i] := rest % 0x100;
      rest := rest / 0x100;
      assert b[p..p + i + 1] == b[p..p + i] + [b[p + i]];
    }
  }

  lemma {:induction false} XorFits(x: nat, y: nat, k: nat)
    requires x < Pow(2, k) && y < Pow(2, k)
    ensures Bits.Xor(x, y) < Pow(2, k)
    decreases k
  {
    if k == 0 {
    } else {
      XorFits(x / 2, y / 2, k - 1);
    }
  }

  function XorByte(x: u8, y: u8): u8
  {
    EightBits();
    XorFits(x, y, 8);
    Bits.Xor(x, y)
  }

  lemma EightBits()
    ensures Pow(2, 8) == 0x100 && Pow(2, 4) == 0x10
  {
    assert Pow(2, 4) == 0x10;
    PowAdd(2, 4, 4);
  }

  /** A 64-bit store to any byte. */
  method Store64(b: array<u8>, p: nat, w: u64)
    requires p + 8 <= b.Length
    modifies b
    ensures b[p..p + 8] == WordBytes(w) && b[..p] == old(b[..p]) && b[p + 8..] == old(b[p + 8..])
  {
    PutDig52(b, p, 8, w);
  }

  /** A 64-bit exclusive or into any byte. */
  method Xor64(b: array<u8>, p: nat, w: u64)
    requires p + 8 <= b.Length
    modifies b
    ensures forall i :: 0 <= i < 8 ==> b[p + i] == XorByte(old(b[p + i]), WordBytes(w)[i])
    ensures forall j :: 0 <= j < b.Length && !(p <= j < p + 8) ==> b[j] == old(b[j])
  {
    var z := WordBytes(w);
    for i: nat := 0 to 8
      invariant forall j :: 0 <= j < i ==> b[p + j] == XorByte(old(b[p + j]), z[j])
      invariant forall j :: 0 <= j < b.Length && !(p <= j < p + i) ==> b[j] == old(b[j])
    {
      b[p + i] := XorByte(b[p + i], z[i]);
    }
  }

  /** The bytes of a digit: six, a half byte, and a zero. */
  lemma DigitBytes(d: u64)
    requires d < W52
    ensures var x := WordBytes(d); var b: nat := x[6]; b < 16 && x[7] == 0 && Val(x[..6], 0x100) + 0x1_0000_0000_0000 * b == d
  {
    var x := WordBytes(d);
    BytePowers();
    CutIs(d, 8);
    ValBytes(x[..6]);
    ValSplit(x, 6, 0x100);
    assert x[6..] == [x[6], x[7]] && [x[6], x[7]][1..] == [x[7]];
    ValSingle([x[7]], 0x100);
  }

  /** The bytes of a digit shifted by a half byte: the half byte, six, and a zero. */
  lemma ShiftedBytes(d: u64)
    requires d < W52
    ensures 16 * d < W64
    ensures var z := WordBytes(16 * d); var b: nat := z[0]; b % 16 == 0 && z[7] == 0 && b + 0x100 * Val(z[1..7], 0x100) == 16 * d
  {
    var z := WordBytes(16 * d);
    BytePowers();
    CutIs(16 * d, 8);
    ValBytes(z[1..7]);
    assert z[1..] == z[1..7] + [z[7]];
    ValSnoc(z[1..7], z[7], 0x100);
    var b: nat, c, e: nat := z[0], Val(z[1..7], 0x100), z[7];
    assert b + 0x100 * (c + 0x1_0000_0000_0000 * e) == 16 * d;
  }

  lemma HalfBytes(x: u8, z: u8)
    requires x < 16 && z % 16 == 0
    ensures XorByte(x, z) as int == x as int + z as int
  {
    EightBits();
    Bits.DisjointAdd(x, z / 16, 4);
  }

  lemma XorWithZero(z: u8)
    ensures XorByte(0, z) == z
  {
    Bits.XorZero(z);
  }

  /** The first digits are packed, and nothing else is set. */
  ghost predicate Packed(b: array<u8>, digits: seq<nat>, k: nat)
    requires 2 * k <= |digits| && 13 * k <= b.Length
    reads b
  {
    Val(b[..13 * k], 0x100) == Val(digits[..2 * k], W52) && forall j :: 13 * k <= j < b.Length ==> b[j] == 0
  }

  /** The thirteen bytes of a pair. */
  lemma PairBytes(y: seq<u8>, lo: u64, hi: u64)
    requires |y| == 13 && lo < W52 && hi < W52
    requires y[..6] == WordBytes(lo)[..6] && y[7..] == WordBytes(16 * hi)[1..7]
    requires y[6] as int == WordBytes(lo)[6] as int + WordBytes(16 * hi)[0] as int
    ensures Val(y, 0x100) == lo + W52 * hi
  {
    DigitBytes(lo);
    ShiftedBytes(hi);
    BytePowers();
    ValSplit(y, 6, 0x100);
    assert y[6..][1..] == y[7..];
  }

  /** Appending bytes and digits of the same value. */
  lemma PackedMore(done: seq<u8>, more: seq<u8>, digits: seq<nat>, k: nat, x: nat)
    requires |done| == 13 * k && |digits| == 2 * k && Val(done, 0x100) == Val(digits, W52) && Val(more, 0x100) == x
    ensures Val(done + more, 0x100) == Val(digits, W52) + Pow(W52, 2 * k) * x
  {
    ValAppend(done, more, 0x100);
    PairPower(k);
  }

  lemma TwoMore(digits: seq<nat>, k: nat)
    requires 2 * k + 2 <= |digits|
    ensures Val(digits[..2 * k + 2], W52) == Val(digits[..2 * k], W52) + Pow(W52, 2 * k) * (digits[2 * k] + W52 * digits[2 * k + 1])
  {
    var t := [digits[2 * k], digits[2 * k + 1]];
    assert digits[..2 * k + 2] == digits[..2 * k] + t;
    ValAppend(digits[..2 * k], t, W52);
    assert t[1..] == [digits[2 * k + 1]];
    ValSingle([digits[2 * k + 1]], W52);
  }

  /** One pair: a store, and an exclusive or that begins in the middle of its seventh byte. */
  method PackPair(b: array<u8>, digits: seq<u64>, k: nat)
    requires 2 * k + 2 <= |digits| && 13 * k + 14 <= b.Length && Bounded(digits, W52) && Packed(b, digits, k)
    modifies b
    ensures Packed(b, digits, k + 1)
  {
    hide Val, Pow, Cut;
    var p, lo, hi := 13 * k, digits[2 * k], digits[2 * k + 1];
    ghost var done := b[..p];
    DigitBytes(lo);
    ShiftedBytes(hi);
    Store64(b, p, lo);
    assert forall j :: p + 8 <= j < b.Length ==> b[j] == b[p + 8..][j - p - 8] == 0;
    PackSecond(b, p, lo, hi);
    assert b[..p] == done;
    PackedMore(done, b[p..p + 13], digits[..2 * k], k, lo + W52 * hi);
    TwoMore(digits, k);
    assert b[..p + 13] == done + b[p..p + 13];
  }

  /** What the exclusive or leaves: the bytes of the pair. */
  lemma SecondBytes(was: seq<u8>, now: seq<u8>, p: nat, lo: u64, hi: u64)
    requires lo < W52 && hi < W52 && |was| == |now| && p + 14 <= |was| && 16 * hi < W64
    requires was[p..p + 8] == WordBytes(lo) && forall j :: p + 8 <= j < |was| ==> was[j] == 0
    requires forall i :: 0 <= i < 8 ==> now[p + 6 + i] == XorByte(was[p + 6 + i], WordBytes(16 * hi)[i])
    requires forall j :: 0 <= j < |was| && !(p + 6 <= j < p + 14) ==> now[j] == was[j]
    ensures Val(now[p..p + 13], 0x100) == lo + W52 * hi && forall j :: p + 13 <= j < |now| ==> now[j] == 0
  {
    var x, z := WordBytes(lo), WordBytes(16 * hi);
    DigitBytes(lo);
    ShiftedBytes(hi);
    assert forall i :: 0 <= i < 8 ==> was[p + i] == was[p..p + 8][i] == x[i];
    HalfBytes(x[6], z[0]);
    forall i | 1 <= i < 8
      ensures now[p + 6 + i] == z[i]
    {
      XorWithZero(z[i]);
    }
    var y := now[p..p + 13];
    forall i | 0 <= i < 6
      ensures y[..6][i] == x[..6][i] && y[7..][i] == z[1..7][i]
    {
    }
    PairBytes(y, lo, hi);
  }

  method PackSecond(b: array<u8>, p: nat, ghost lo: u64, hi: u64)
    requires p + 14 <= b.Length && lo < W52 && hi < W52 && b[p..p + 8] == WordBytes(lo)
    requires forall j :: p + 8 <= j < b.Length ==> b[j] == 0
    modifies b
    ensures Val(b[p..p + 13], 0x100) == lo + W52 * hi && b[..p] == old(b[..p]) && forall j :: p + 13 <= j < b.Length ==> b[j] == 0
  {
    hide Val, WordBytes, XorByte;
    ShiftedBytes(hi);
    ghost var was := b[..];
    assert was[p..p + 8] == b[p..p + 8];
    Xor64(b, p + 6, 16 * hi % W64);
    SecondBytes(was, b[..], p, lo, hi);
    assert b[p..p + 13] == b[..][p..p + 13];
  }

  /** All pairs. */
  method PackPairs(b: array<u8>, digits: seq<u64>) returns (k: nat)
    requires b.Length % 8 == 0 && b.Length % 104 != 0 && Bounded(digits, W52) && 52 * |digits| >= 8 * b.Length
    requires Packed(b, digits, 0)
    modifies b
    ensures k == 8 * b.Length / 104 && 13 * k <= b.Length && 2 * k <= |digits| && Packed(b, digits, k)
  {
    k := 0;
    var left := 8 * b.Length;
    while left >= 104
      invariant left == 8 * b.Length - 104 * k && 13 * k <= b.Length && 2 * k <= |digits| && Packed(b, digits, k)
    {
      RoomForStore(b.Length, k);
      PackPair(b, digits, k);
      k := k + 1;
      left := left - 104;
    }
  }

  lemma ThirteenEighths(j: nat)
    requires 13 * j % 8 == 0
    ensures 13 * j % 104 == 0
  {
    var a, r := j / 8, j % 8;
    assert 13 * j == 8 * (13 * a) + 13 * r;
    assert r == 0 || r == 1 || r == 2 || r == 3 || r == 4 || r == 5 || r == 6 || r == 7;
    DivModUnique(13 * j, 104, a, 13 * r);
  }

  /** The second store of a pair reaches one byte beyond it, which only a size divisible by thirteen words would lack. */
  lemma RoomForStore(n: nat, k: nat)
    requires n % 8 == 0 && n % 104 != 0 && 13 * k + 13 <= n
    ensures 13 * k + 14 <= n
  {
    var end := 13 * (k + 1);
    if n == end {
      ThirteenEighths(k + 1);
    }
  }

  /** The store for pair `k` of `n` bytes stays among them. */
  ghost predicate StoreFits(n: nat, k: nat)
  {
    13 * k + 13 <= n ==> 13 * k + 14 <= n
  }

  /** All stores stay within a number of words exactly when that number is not a multiple of thirteen. */
  lemma StoresFit(n: nat)
    requires 0 < n && n % 8 == 0
    ensures (forall k: nat :: StoreFits(n, k)) <==> n % 104 != 0
  {
    if n % 104 == 0 {
      var last := n / 13 - 1;
      assert n == 104 * (n / 104);
      assert !StoreFits(n, last);
    } else {
      forall k: nat
        ensures StoreFits(n, k)
      {
        if 13 * k + 13 <= n {
          RoomForStore(n, k);
        }
      }
    }
  }

  /** The number in the digits that are left. */
  lemma RestOfDigits(digits: seq<nat>, k: nat, bytes: nat)
    requires 2 * k <= |digits| && 13 * k <= bytes && Val(digits, W52) < Pow(0x100, bytes)
    ensures Val(digits[2 * k..], W52) < Pow(0x100, bytes - 13 * k)
    ensures Val(digits, W52) == Val(digits[..2 * k], W52) + Pow(W52, 2 * k) * Val(digits[2 * k..], W52)
  {
    ValSplit(digits, 2 * k, W52);
    RestFits(Val(digits[..2 * k], W52), k, Val(digits[2 * k..], W52), Val(digits, W52), bytes);
  }

  /** What lies above the lowest six of some bytes. */
  lemma AboveSix(m: nat, w: nat, len: nat)
    requires 6 <= len && m + 0x1_0000_0000_0000 * w < Pow(0x100, len)
    ensures w < Pow(0x100, len - 6)
  {
    BytePowers();
    PowAdd(0x100, 6, len - 6);
    hide Pow;
    MulCancelLt(w, Pow(0x100, len - 6), 0x1_0000_0000_0000);
  }

  /** Two digits, the second shifted by a half byte over what remains of the first. */
  lemma LastWord(lo: u64, hi: u64, len: nat)
    requires lo < W52 && hi < W52 && 7 <= len <= 12 && lo + W52 * hi < Pow(0x100, len)
    ensures var w := Bits.Or(lo / 0x1_0000_0000_0000, 16 * hi);
            && w < W64 && w < Pow(0x100, len - 6)
            && lo % 0x1_0000_0000_0000 + 0x1_0000_0000_0000 * w == lo + W52 * hi
  {
    hide Bits.Or, Pow;
    var q, m := lo / 0x1_0000_0000_0000, lo % 0x1_0000_0000_0000;
    assert q < 16 && lo == q * 0x1_0000_0000_0000 + m;
    EightBits();
    Bits.DisjointAdd(q, hi, 4);
    AboveSix(m, q + 16 * hi, len);
  }

  lemma SixOfSeven(lo: u64)
    requires lo < W52
    ensures Val(Cut(lo, 7)[..6], 0x100) == lo % 0x1_0000_0000_0000
  {
    var c := Cut(lo, 7);
    BytePowers();
    CutIs(lo, 7);
    SixAndOne(c);
    assert c[7..] == [];
    var a, b: nat := Val(c[..6], 0x100), c[6];
    DivModUnique(lo, 0x1_0000_0000_0000, b, a);
  }

  method PutTwo(b: array<u8>, p: nat, lo: u64, w: u64, len: nat)
    requires p + 6 + len == b.Length && len > 0
    modifies b
    ensures b[..p] == old(b[..p]) && b[p..p + 6] == Cut(lo, 7)[..6] && b[p + 6..] == Cut(w, len)
  {
    ghost var done := b[..p];
    PutDig52(b, p, 7, lo);
    ghost var six := b[..p + 6];
    assert six == done + Cut(lo, 7)[..6] by {
      assert b[p..p + 6] == b[p..p + 7][..6];
    }
    PutDig52(b, p + 6, len, w);
    assert b[p + 6..] == b[p + 6..p + 6 + len];
    assert b[..p] == b[..p + 6][..p] && b[p..p + 6] == b[..p + 6][p..];
  }

  /** The value of the last bytes. */
  lemma LastBytes(lo: u64, hi: u64, w: nat, len: nat)
    requires lo < W52 && w < Pow(0x100, len) && lo % 0x1_0000_0000_0000 + 0x1_0000_0000_0000 * w == lo + W52 * hi
    ensures Val(Cut(lo, 7)[..6] + Cut(w, len), 0x100) == lo + W52 * hi
  {
    SixOfSeven(lo);
    CutIs(w, len);
    BytePowers();
    ValAppend(Cut(lo, 7)[..6], Cut(w, len), 0x100);
  }

  lemma TailLength(left: nat)
    requires 52 < left < 104 && left % 8 == 0
    ensures 7 <= left / 8 <= 12 && (left - 52 + 7) / 8 == left / 8 - 6
  {
  }

  method PackTwo(b: array<u8>, digits: seq<u64>, k: nat, left: nat)
    requires 52 < left < 104 && left % 8 == 0 && 8 * b.Length == 104 * k + left && 2 * k + 2 <= |digits| && Bounded(digits, W52)
    requires Packed(b, digits, k) && digits[2 * k] + W52 * digits[2 * k + 1] == Val(digits[2 * k..], W52) < Pow(0x100, left / 8)
    modifies b
    ensures Val(b[..], 0x100) == Val(digits[..2 * k], W52) + Pow(W52, 2 * k) * Val(digits[2 * k..], W52)
  {
    hide Val, Pow, Cut;
    var p, lo, hi, len := 13 * k, digits[2 * k], digits[2 * k + 1], (left - 52 + 7) / 8;
    ghost var done := b[..p];
    TailLength(left);
    LastWord(lo, hi, left / 8);
    var w := Bits.Or(lo / 0x1_0000_0000_0000, 16 * hi);
    LastBytes(lo, hi, w, len);
    PutTwo(b, p, lo, w, len);
    PackedMore(done, Cut(lo, 7)[..6] + Cut(w, len), digits[..2 * k], k, Val(digits[2 * k..], W52));
    assert b[..] == b[..p] + (b[p..p + 6] + b[p + 6..]);
  }

  method PackOne(b: array<u8>, digits: seq<u64>, k: nat, left: nat)
    requires 0 < left <= 52 && left % 8 == 0 && 8 * b.Length == 104 * k + left && 2 * k + 1 <= |digits|
    requires Packed(b, digits, k) && digits[2 * k] == Val(digits[2 * k..], W52) < Pow(0x100, left / 8)
    modifies b
    ensures Val(b[..], 0x100) == Val(digits[..2 * k], W52) + Pow(W52, 2 * k) * Val(digits[2 * k..], W52)
  {
    var p, len := 13 * k, left / 8;
    ghost var done := b[..p];
    PutDig52(b, p, len, digits[2 * k]);
    CutIs(digits[2 * k], len);
    PackedMore(done, b[p..p + len], digits[..2 * k], k, digits[2 * k]);
    assert b[..] == done + b[p..p + len];
  }

  /** High digits of a number that fits in fewer. */
  lemma FewDigits(digits: seq<nat>, n: nat)
    requires n <= |digits| && n <= 2 && Val(digits, W52) < Pow(W52, n)
    ensures Val(digits, W52) == if n == 0 then 0 else if n == 1 then digits[0] else digits[0] + W52 * digits[1]
  {
    ValHighZero(digits, n, W52);
    var s := digits[..n];
    if n == 1 {
      ValSingle(s, W52);
    } else if n == 2 {
      assert s[1..] == [digits[1]];
      ValSingle(s[1..], W52);
    }
  }

  /** The digits after the pairs. */
  method PackRest(b: array<u8>, digits: seq<u64>, k: nat, left: nat)
    requires left < 104 && left % 8 == 0 && 8 * b.Length == 104 * k + left && 52 * |digits| >= 104 * k + left && Bounded(digits, W52)
    requires Packed(b, digits, k) && Val(digits[2 * k..], W52) < Pow(0x100, left / 8)
    modifies b
    ensures Val(b[..], 0x100) == Val(digits[..2 * k], W52) + Pow(W52, 2 * k) * Val(digits[2 * k..], W52)
  {
    ThirteenBytes();
    BytePowers();
    if left > 52 {
      PowMono(0x100, left / 8, 13);
      FewDigits(digits[2 * k..], 2);
      PackTwo(b, digits, k, left);
    } else if left > 0 {
      PowMono(0x100, left / 8, 6);
      assert Pow(W52, 1) == W52;
      FewDigits(digits[2 * k..], 1);
      PackOne(b, digits, k, left);
    } else {
      FewDigits(digits[2 * k..], 0);
      assert b[..] == b[..13 * k];
    }
  }

  /** `dig52_regular`. */
  method Dig52Regular(b: array<u8>, digits: seq<u64>)
    requires b.Length % 8 == 0 && b.Length % 104 != 0 && Bounded(digits, W52) && 52 * |digits| >= 8 * b.Length
    requires Val(digits, W52) < Pow(0x100, b.Length)
    modifies b
    ensures Val(b[..], 0x100) == Val(digits, W52)
  {
    ClearBytes(b);
    assert Packed(b, digits, 0);
    var k := PackPairs(b, digits);
    PackTail(b, digits, k);
  }

  method PackTail(b: array<u8>, digits: seq<u64>, k: nat)
    requires k == 8 * b.Length / 104 && 13 * k <= b.Length && 2 * k <= |digits| && Packed(b, digits, k)
    requires Bounded(digits, W52) && 52 * |digits| >= 8 * b.Length && Val(digits, W52) < Pow(0x100, b.Length)
    modifies b
    ensures Val(b[..], 0x100) == Val(digits, W52)
  {
    var left := 8 * b.Length - 104 * k;
    BytesLeft(8 * b.Length, k);
    RestOfDigits(digits, k, b.Length);
    PackRest(b, digits, k, left);
  }

  method ClearBytes(b: array<u8>)
    modifies b
    ensures forall j :: 0 <= j < b.Length ==> b[j] == 0
  {
    for i: nat := 0 to b.Length
      invariant forall j :: 0 <= j < i ==> b[j] == 0
    {
      b[i] := 0;
    }
  }

  /** The words that bytes in memory make up. */
  method Words(out: array<u64>, b: array<u8>)
    requires b.Length == 8 * out.Length
    modifies out
    ensures Val(out[..], W64) == Val(b[..], 0x100)
  {
    BytePowers();
    ghost var s := b[..];
    for i: nat := 0 to out.Length
      invariant Val(out[..i], W64) == Val(s[..8 * i], 0x100)
    {
      ValBytes(s[8 * i..8 * i + 8]);
      var w := Load(b[..], 8 * i);
      ghost var was := out[..i];
      out[i] := w;
      assert out[..i + 1] == was + [w];
      ValSnoc(was, w, W64);
      assert s[..8 * i + 8] == s[..8 * i] + s[8 * i..8 * i + 8];
      ValAppend(s[..8 * i], s[8 * i..8 * i + 8], 0x100);
      PowPow(0x100, 8, i);
    }
    assert out[..] == out[..out.Length] && s == s[..8 * out.Length];
  }
}
