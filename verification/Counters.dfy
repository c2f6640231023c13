/** Counter blocks: twelve fixed bytes and a 32-bit counter, incremented by byte shuffles and one 32-bit addition. */
module Counters {
  import opened Arith
  import Bits
  import opened Blocks

  /** A counter block: twelve fixed bytes and a 32-bit counter. */
  type Fixed = s: seq<byte> | |s| == 12 witness seq(12, _ => 0)

  datatype Counter = Counter(fixed: Fixed, n: nat)

  const MODULUS: nat := 0x1_0000_0000

  /** 32-bit numbers wrap. */
  function Wrap(n: nat): (w: nat)
    ensures w < MODULUS
  {
    if n < MODULUS then n else Wrap(n - MODULUS)
  }

  lemma {:induction false} WrapAdd(a: nat, b: nat)
    ensures Wrap(Wrap(a) + b) == Wrap(a + b)
  {
    if a < MODULUS {
    } else {
      WrapAdd(a - MODULUS, b);
    }
  }

  function Plus(c: Counter, k: nat): Counter
  {
    Counter(c.fixed, Wrap(c.n + k))
  }

  /** A byte from its bits, least significant first. */
  function FromFlags(f: seq<bool>): byte
  {
    if f == [] then 0 else (if f[0] then 1 else 0) | (FromFlags(f[1..]) << 1)
  }

  function ToFlags(b: byte, width: nat): (f: seq<bool>)
    ensures |f| == width
    decreases width, b
  {
    if width == 0 then [] else [b & 1 != 0] + ToFlags(b >> 1, width - 1)
  }

  /** 2^k, for k below eight. */
  function Limit(k: nat): byte
  {
    if k == 0 then 1 else if k == 1 then 2 else if k == 2 then 4 else if k == 3 then 8
    else if k == 4 then 16 else if k == 5 then 32 else if k == 6 then 64 else 128
  }

  lemma {:induction false} FlagsFit(f: seq<bool>)
    requires |f| <= 7
    ensures FromFlags(f) < Limit(|f|)
  {
    if f == [] {
    } else {
      FlagsFit(f[1..]);
      var x, l, b: byte := FromFlags(f[1..]), Limit(|f| - 1), if f[0] then 1 else 0;
      assert Limit(|f|) == l << 1 && l <= 64;
      OneMoreBit(x, l, b);
    }
  }

  lemma OneMoreBit(x: byte, l: byte, b: byte)
    requires x < l <= 64 && b <= 1
    ensures b | (x << 1) < l << 1
  {
  }

  lemma {:induction false} FlagsBack(f: seq<bool>)
    requires |f| <= 8
    ensures ToFlags(FromFlags(f), |f|) == f
  {
    if f == [] {
    } else {
      FlagsBack(f[1..]);
      FlagsFit(f[1..]);
      var x, b: byte := FromFlags(f[1..]), if f[0] then 1 else 0;
      assert x < 128;
      LowBit(x, b);
    }
  }

  lemma LowBit(x: byte, b: byte)
    requires x < 128 && b <= 1
    ensures (b | (x << 1)) & 1 == b && (b | (x << 1)) >> 1 == x
  {
  }

  lemma {:induction false} ByteOfFlags(b: byte, width: nat)
    requires width == 8 || (width < 8 && b < Limit(width))
    ensures FromFlags(ToFlags(b, width)) == b
    decreases width
  {
    if width == 0 {
      assert b == 0;
    } else {
      assert b >> 1 < Limit(width - 1) by {
        HalfFits(b, Limit(width - 1));
      }
      ByteOfFlags(b >> 1, width - 1);
      assert ToFlags(b, width)[1..] == ToFlags(b >> 1, width - 1);
      assert (b & 1) | ((b >> 1) << 1) == b && (b & 1 == 0 || b & 1 == 1);
    }
  }

  lemma HalfFits(b: byte, l: byte)
    requires l == 128 || (l <= 64 && b < l << 1)
    ensures b >> 1 < l
  {
  }

  /** The low byte of a number, and the number a byte stands for. */
  function ToByte(n: nat): byte
  {
    FromFlags(Bits.FlagsOf(n, 8))
  }

  function Value(b: byte): nat
  {
    Bits.MaskOf(ToFlags(b, 8))
  }

  lemma OneBit(b: byte)
    ensures b as nat == (if b & 1 != 0 then 1 else 0) + 2 * (b >> 1) as nat
  {
    assert (b >> 1) as nat == b as nat / 2;
    assert b & 1 == 1 <==> b as nat % 2 == 1;
  }

  lemma {:induction false} MaskIsByte(b: byte, width: nat)
    requires width == 8 || (width < 8 && b < Limit(width))
    ensures Bits.MaskOf(ToFlags(b, width)) == b as nat
    decreases width
  {
    if width == 0 {
      assert b == 0;
    } else {
      HalfFits(b, Limit(width - 1));
      OneBit(b);
      MaskIsByte(b >> 1, width - 1);
      assert ToFlags(b, width)[1..] == ToFlags(b >> 1, width - 1);
    }
  }

  /** The value of a byte is its number. */
  lemma ValueIs(b: byte)
    ensures Value(b) == b as nat
  {
    MaskIsByte(b, 8);
  }

  lemma ByteValue(n: nat)
    requires n < 0x100
    ensures Value(ToByte(n)) == n
  {
    FlagsBack(Bits.FlagsOf(n, 8));
    assert Pow(2, 8) == 0x100;
    Bits.MaskOfFlags(n, 8);
  }

  lemma ByteBack(b: byte)
    ensures ToByte(Value(b)) == b && Value(b) < 0x100
  {
    Bits.FlagsOfMask(ToFlags(b, 8));
    Bits.MaskOfBound(ToFlags(b, 8));
    assert Pow(2, 8) == 0x100;
    ByteOfFlags(b, 8);
  }

  /** The low bytes of a number, least significant first. */
  function ToBytes(n: nat, len: nat): (s: seq<byte>)
    ensures |s| == len
    decreases n, len
  {
    if len == 0 then [] else [ToByte(n % 0x100)] + ToBytes(n / 0x100, len - 1)
  }

  function FromBytes(s: seq<byte>): nat
  {
    if s == [] then 0 else Value(s[0]) + 0x100 * FromBytes(s[1..])
  }

  lemma {:induction false} FromToBytes(n: nat, len: nat)
    requires n < Pow(0x100, len)
    ensures FromBytes(ToBytes(n, len)) == n
    decreases len
  {
    if len == 0 {
    } else {
      ByteValue(n % 0x100);
      FromToBytes(n / 0x100, len - 1);
      assert ToBytes(n, len)[1..] == ToBytes(n / 0x100, len - 1);
    }
  }

  lemma {:induction false} ToFromBytes(s: seq<byte>)
    ensures ToBytes(FromBytes(s), |s|) == s && FromBytes(s) < Pow(0x100, |s|)
  {
    if s == [] {
    } else {
      var n := FromBytes(s);
      ByteBack(s[0]);
      ToFromBytes(s[1..]);
      assert n % 0x100 == Value(s[0]) && n / 0x100 == FromBytes(s[1..]);
    }
  }

  lemma FourBytes()
    ensures Pow(0x100, 4) == MODULUS
  {
    assert Pow(0x100, 1) == 0x100 && Pow(0x100, 2) == 0x1_0000 && Pow(0x100, 3) == 0x100_0000;
  }

  function Backwards(s: seq<byte>): (r: seq<byte>)
    ensures |r| == |s| && forall i :: 0 <= i < |s| ==> r[i] == s[|s| - 1 - i]
  {
    seq(|s|, i requires 0 <= i < |s| => s[|s| - 1 - i])
  }

  /** The counter stands big-endian behind the fixed bytes. */
  function Bytes(c: Counter): Block
  {
    c.fixed + Backwards(ToBytes(c.n, 4))
  }

  /** The counter a block holds. */
  function CounterOf(b: Block): Counter
  {
    Counter(b[..12], FromBytes(Backwards(b[12..])))
  }

  /** Every block is a counter block. */
  lemma CounterOfIs(b: Block)
    ensures CounterOf(b).n < MODULUS && Bytes(CounterOf(b)) == b
  {
    var s := Backwards(b[12..]);
    ToFromBytes(s);
    FourBytes();
    assert Backwards(s) == b[12..];
  }

  /** The last four bytes of a block, as a big-endian number. */
  function BigEndian(b: Block): nat
  {
    0x100_0000 * (b[12] as nat) + 0x1_0000 * (b[13] as nat) + 0x100 * (b[14] as nat) + b[15] as nat
  }

  lemma {:induction false} FourDigits(s: seq<byte>)
    requires |s| == 4
    ensures FromBytes(s) == s[0] as nat + 0x100 * (s[1] as nat) + 0x1_0000 * (s[2] as nat) + 0x100_0000 * (s[3] as nat)
  {
    ValueIs(s[0]);
    ValueIs(s[1]);
    ValueIs(s[2]);
    ValueIs(s[3]);
    assert FromBytes(s[1..][1..][1..]) == s[3] as nat + 0x100 * FromBytes(s[1..][1..][1..][1..]);
    assert FromBytes(s[1..][1..]) == s[2] as nat + 0x100 * FromBytes(s[1..][1..][1..]);
    assert FromBytes(s[1..]) == s[1] as nat + 0x100 * FromBytes(s[1..][1..]);
  }

  lemma BigEndianIs(b: Block)
    ensures CounterOf(b).n == BigEndian(b)
  {
    var s := Backwards(b[12..]);
    FourDigits(s);
    assert s[0] == b[15] && s[1] == b[14] && s[2] == b[13] && s[3] == b[12];
  }

  lemma SameTails(a: Block, b: Block)
    ensures BigEndian(a) == BigEndian(b) ==> a[12..] == b[12..]
  {
    ByteNumber(a[12], b[12]);
    ByteNumber(a[13], b[13]);
    ByteNumber(a[14], b[14]);
    ByteNumber(a[15], b[15]);
    if BigEndian(a) == BigEndian(b) {
      SameDigits(a[12] as nat, a[13] as nat, a[14] as nat, a[15] as nat, b[12] as nat, b[13] as nat, b[14] as nat, b[15] as nat);
    }
  }

  lemma SameDigits(a: nat, b: nat, c: nat, d: nat, a': nat, b': nat, c': nat, d': nat)
    requires a < 0x100 && b < 0x100 && c < 0x100 && d < 0x100 && a' < 0x100 && b' < 0x100 && c' < 0x100 && d' < 0x100
    requires 0x100_0000 * a + 0x1_0000 * b + 0x100 * c + d == 0x100_0000 * a' + 0x1_0000 * b' + 0x100 * c' + d'
    ensures a == a' && b == b' && c == c' && d == d'
  {
  }

  lemma ByteNumber(x: byte, y: byte)
    ensures x as nat < 0x100 && y as nat < 0x100 && (x as nat == y as nat ==> x == y)
  {
  }

  lemma {:induction false} WrapIs(n: nat)
    ensures Wrap(n) == n % MODULUS
    decreases n
  {
    if n < MODULUS {
    } else {
      WrapIs(n - MODULUS);
    }
  }

  /** Block `k` after a first one: the same twelve bytes, and `k` more in the big-endian number behind them, modulo 2^32. */
  lemma FurtherBlock(b: Block, k: nat)
    ensures var r := Bytes(Plus(CounterOf(b), k)); r[..12] == b[..12] && BigEndian(r) == (BigEndian(b) + k) % MODULUS
  {
    var c := Plus(CounterOf(b), k);
    var r, s := Bytes(c), ToBytes(c.n, 4);
    BigEndianIs(b);
    WrapIs(CounterOf(b).n + k);
    FourBytes();
    FromToBytes(c.n, 4);
    assert Backwards(r[12..]) == s;
    BigEndianIs(r);
  }

  /** `swapBytes256` within one lane: the last four bytes reversed. */
  function SwapTail(b: Block): Block
  {
    b[..12] + Backwards(b[12..])
  }

  /** `add_epi32` of a number into the last lane, which is little-endian and wraps; the other lanes get zero. */
  function AddLast(b: Block, k: nat): Block
  {
    b[..12] + ToBytes(Wrap(FromBytes(b[12..]) + k), 4)
  }

  /** One lane of `IncrementRegister256`: shuffled, added to, and shuffled back. */
  function Incremented(b: Block, k: nat): Block
  {
    SwapTail(AddLast(SwapTail(b), k))
  }

  lemma SwapJoined(fixed: Fixed, s: seq<byte>)
    requires |s| == 4
    ensures SwapTail(fixed + s) == fixed + Backwards(s) && Backwards(Backwards(s)) == s
  {
    assert (fixed + s)[..12] == fixed && (fixed + s)[12..] == s;
  }

  /** A counter block with its counter little-endian. */
  function Little(c: Counter): Block
  {
    c.fixed + ToBytes(c.n, 4)
  }

  lemma SwapIs(c: Counter)
    ensures SwapTail(Bytes(c)) == Little(c) && SwapTail(Little(c)) == Bytes(c)
  {
    var s := ToBytes(c.n, 4);
    SwapJoined(c.fixed, s);
    SwapJoined(c.fixed, Backwards(s));
  }

  lemma LittleParts(c: Counter)
    requires c.n < MODULUS
    ensures Little(c)[..12] == c.fixed && FromBytes(Little(c)[12..]) == c.n
  {
    var s := ToBytes(c.n, 4);
    assert Little(c)[12..] == s;
    FourBytes();
    FromToBytes(c.n, 4);
  }

  lemma AddIs(c: Counter, k: nat)
    requires c.n < MODULUS
    ensures AddLast(Little(c), k) == Little(Plus(c, k))
  {
    LittleParts(c);
  }

  lemma InTurn(a: Block, b: Block, c: Block, d: Block, k: nat)
    requires SwapTail(a) == b && AddLast(b, k) == c && SwapTail(c) == d
    ensures Incremented(a, k) == d
  {
  }

  /** On counter blocks the three steps add to the counter. */
  lemma IncrementedIs(c: Counter, k: nat)
    requires c.n < MODULUS
    ensures Incremented(Bytes(c), k) == Bytes(Plus(c, k))
  {
    SwapIs(c);
    AddIs(c, k);
    SwapIs(Plus(c, k));
    InTurn(Bytes(c), Little(c), Little(Plus(c, k)), Bytes(Plus(c, k)), k);
  }

  lemma IncrementedFurther(c: Counter, pos: nat, k: nat)
    ensures Incremented(Bytes(Plus(c, pos)), k) == Bytes(Plus(c, pos + k))
  {
    IncrementedIs(Plus(c, pos), k);
    PlusPlus(c, pos, k);
  }

  lemma PlusPlus(c: Counter, a: nat, b: nat)
    ensures Plus(Plus(c, a), b) == Plus(c, a + b)
  {
    WrapAdd(c.n + a, b);
  }
}
