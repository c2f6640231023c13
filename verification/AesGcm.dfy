/** AES-GCM on AVX2: the schedule of module Gcm with the carry-less arithmetic of module Ghash and the precomputed keys. */
module AesGcm {
  import opened Arith
  import opened Blocks
  import opened Aggregate
  import opened Counters
  import opened Gcm
  import Ghash
  import HashKeys
  import StandardHash

  function BitIn(x: byte, k: nat): bool
    requires k < 8
  {
    (x >> k) & 1 == 1
  }

  /** Bit `k` of a byte is that of its number. */
  lemma BitIs(x: byte, k: nat)
    requires k < 8
    ensures BitIn(x, k) <==> x as nat / Pow(2, k) % 2 == 1
  {
    ShiftIs(x, k);
    OddIs(x >> k);
  }

  lemma OddIs(x: byte)
    ensures x & 1 == 1 <==> x as nat % 2 == 1
  {
  }

  lemma Halved(x: byte)
    ensures (x >> 1) as nat == x as nat / 2
  {
  }

  lemma OneFurther(x: byte, k: nat)
    requires 0 < k < 8
    ensures x >> k == (x >> (k - 1)) >> 1
  {
    assert k == 1 || k == 2 || k == 3 || k == 4 || k == 5 || k == 6 || k == 7;
  }

  lemma {:induction false} ShiftIs(x: byte, k: nat)
    requires k < 8
    ensures (x >> k) as nat == x as nat / Pow(2, k)
    decreases k
  {
    if k == 0 {
      assert x >> 0 == x;
    } else {
      ShiftIs(x, k - 1);
      OneFurther(x, k);
      Halved(x >> (k - 1));
      DivDiv(x as nat, Pow(2, k - 1), 2);
      assert Pow(2, k - 1) * 2 == Pow(2, k);
    }
  }

  lemma Powers()
    ensures Pow(2, 0) == 1 && Pow(2, 1) == 2 && Pow(2, 2) == 4 && Pow(2, 3) == 8
    ensures Pow(2, 4) == 16 && Pow(2, 5) == 32 && Pow(2, 6) == 64 && Pow(2, 7) == 128
  {
  }

  /** The bits of a block from left to right. */
  function Bits(b: Block): (u: seq<bool>)
    ensures |u| == 128 && forall i :: 0 <= i < 128 ==> u[i] == BitIn(b[i / 8], 7 - i % 8)
  {
    seq(128, i requires 0 <= i < 128 => BitIn(b[i / 8], 7 - i % 8))
  }

  /** The leftmost bit of a byte is the highest of its number. */
  lemma BitsAre(b: Block, i: nat, j: nat)
    requires i < SIZE && j < 8
    ensures Bits(b)[8 * i + j] <==> b[i] as nat / Pow(2, 7 - j) % 2 == 1
  {
    assert (8 * i + j) / 8 == i && (8 * i + j) % 8 == j;
    BitIs(b[i], 7 - j);
  }

  /** The leftmost bit alone is the identity of the standard's product. */
  lemma Identity(e: Block, u: seq<bool>)
    requires e == [0x80] + Zeros(SIZE - 1) && |u| == 128
    ensures StandardHash.Product(Bits(e), u) == u
  {
    var x, z := Bits(e), seq(128, _ => false);
    forall i | 0 <= i < 128
      ensures x[i] <==> i == 0
    {
      NoBit(i % 8);
    }
    StandardHash.NothingTurns(x[1..], StandardHash.Turned(u), Ghash.XorBits(z, u));
    assert Ghash.XorBits(z, u) == u;
  }

  lemma NoBit(k: nat)
    requires k < 8
    ensures !BitIn(0, 7 - k) && (BitIn(0x80, 7 - k) <==> k == 0)
  {
    BitIs(0, 7 - k);
    BitIs(0x80, 7 - k);
    Powers();
  }

  function AllBits(s: seq<Block>): (u: seq<seq<bool>>)
    ensures |u| == |s| && forall i :: 0 <= i < |s| ==> u[i] == Bits(s[i]) && |u[i]| == 128
  {
    seq(|s|, i requires 0 <= i < |s| => Bits(s[i]))
  }

  /** Bit `j` of a register that has taken up a block with its bytes reversed. */
  function BitOf(b: Block, j: nat): bool
    requires j < 8 * SIZE
  {
    BitIn(b[SIZE - 1 - j / 8], j % 8)
  }

  /** A block in a register. */
  function Word(b: Block): Ghash.Wide
  {
    Ghash.Wide(seq(Ghash.HALF, j requires 0 <= j < Ghash.HALF => BitOf(b, j + Ghash.HALF)),
               seq(Ghash.HALF, j requires 0 <= j < Ghash.HALF => BitOf(b, j)))
  }

  /** Reversing the bytes reverses all bits. */
  lemma WordShows(b: Block)
    ensures HashKeys.Display(Word(b)) == Bits(b)
  {
    var u := HashKeys.Display(Word(b));
    forall i | 0 <= i < 128
      ensures u[i] == Bits(b)[i]
    {
      var j := 127 - i;
      assert u[i] == BitOf(b, j);
      assert SIZE - 1 - j / 8 == i / 8 && j % 8 == 7 - i % 8;
    }
  }

  lemma WordsShow(s: seq<Block>)
    ensures HashKeys.Displays(Words(Word, s)) == AllBits(s)
  {
    forall i | 0 <= i < |s|
      ensures HashKeys.Display(Words(Word, s)[i]) == AllBits(s)[i]
    {
      WordShows(s[i]);
    }
  }

  /** The keys, two to a register, the higher power in the low lane. */
  method LoadKeys<W>(keys: seq<W>) returns (hk: seq<Ymm<W>>)
    requires |keys| == 16
    ensures |hk| == 8 && KeyRegisters(hk, keys)
  {
    hk := [];
    for i: nat := 0 to 8
      invariant |hk| == i && forall j :: 0 <= j < i ==> hk[j] == Ymm(keys[2 * j + 1], keys[2 * j])
    {
      hk := hk + [Ymm(keys[2 * i + 1], keys[2 * i])];
    }
  }

  /** The counter blocks from a first one on. */
  function Following(first: Block): Stream
  {
    Stream((j: nat) => Counters.Bytes(Plus(CounterOf(first), j)), (b, k) => Incremented(b, k))
  }

  lemma FollowingMoves(first: Block, pos: nat, k: nat)
    ensures Following(first).Moves(pos, k)
  {
    IncrementedFurther(CounterOf(first), pos, k);
  }

  lemma FollowingSteps(first: Block)
    ensures Following(first).Steps() && Following(first).at(0) == first
  {
    CounterOfIs(first);
    assert Plus(CounterOf(first), 0) == CounterOf(first);
    forall pos: nat, k: nat
      ensures Following(first).Moves(pos, k)
    {
      FollowingMoves(first, pos, k);
    }
  }

  /** Block `b` follows `first` after `k` steps: its big-endian 32-bit tail is `k` further on, the rest is the same. */
  ghost predicate Follows(first: Block, k: nat, b: Block)
  {
    b[..12] == first[..12] && BigEndian(b) == (BigEndian(first) + k) % 0x1_0000_0000
  }

  /** There is just one such block. */
  lemma OneFollows(first: Block, k: nat, b: Block)
    ensures Follows(first, k, Following(first).at(k)) && (Follows(first, k, b) ==> b == Following(first).at(k))
  {
    FurtherBlock(first, k);
    var r := Following(first).at(k);
    if Follows(first, k, b) {
      SameTails(b, r);
      assert b == b[..12] + b[12..] && r == r[..12] + r[12..];
    }
  }

  /** The run of the schedule over all blocks, as counter mode on a stream of counter blocks. */
  method RunAll(c: Cipher, dir: Direction, first: Block, keys: seq<Ghash.Wide>, y: Ghash.Wide, src: array<Block>, dst: array<Block>,
                ghost h: Block)
    returns (hash: Ghash.Wide, next: Block)
    requires src.Length == dst.Length && src.Length >= 16
    requires |keys| == 16 && keys[0] == HashKeys.Doubled(Word(h)) && Ghash.Galois().KeyPowers(keys)
    modifies dst
    ensures dst[..] == Gctr(KeyStream(c, Following(first)), 0, old(src[..]))
    ensures var hashed := if dir.Encrypting? then dst[..] else old(src[..]);
            HashKeys.Display(hash) == StandardHash.Hash(Bits(h), HashKeys.Display(y), AllBits(hashed))
    ensures next == Following(first).at(src.Length)
  {
    Ghash.GaloisIsLinear();
    FollowingSteps(first);
    var q := Following(first);
    var hk := LoadKeys(keys);
    ghost var s := src[..];
    var t := Task(KeyStream(c, q), Word, Ghash.Galois(), keys[0], y, dir, src[..], dst[..]);
    hash, next := Run(t, c, src, dst, hk, first, q, keys);
    assert s[..src.Length] == s;
    HashIsStandard(h, y, Hashed(dir, KeyStream(c, q), 0, s));
  }

  /** Block by block, counter mode on that stream is the block cipher of the counter blocks after the first. */
  lemma StreamIs(c: Cipher, first: Block, p: seq<Block>, ct: seq<Block>)
    requires ct == Gctr(KeyStream(c, Following(first)), 0, p)
    ensures |ct| == |p| && forall j, b: Block :: 0 <= j < |p| && Follows(first, j, b) ==> ct[j] == Xor(p[j], c.enc(b))
  {
    forall j, b: Block | 0 <= j < |p| && Follows(first, j, b)
      ensures ct[j] == Xor(p[j], c.enc(b))
    {
      OneFollows(first, j, b);
    }
  }

  /**
   * `AesGcmEnc_vaes_avx2` and `AesGcmDec_vaes_avx2` on sixteen or more whole blocks, with the keys that `Precompute` makes of the hash
   * subkey. Every block is xored with the encryption of its counter block, the hash is that of NIST SP 800-38D on the ciphertext, and
   * the counter has moved by the number of blocks; the key stream for a partial block that may follow is left ready.
   */
  method Process(c: Cipher, dir: Direction, first: Block, keys: seq<Ghash.Wide>, y: Ghash.Wide, src: array<Block>, dst: array<Block>,
                 ghost h: Block)
    returns (hash: Ghash.Wide, next: Block, stream: Block)
    requires src.Length == dst.Length && src.Length >= 16
    requires |keys| == 16 && keys[0] == HashKeys.Doubled(Word(h)) && Ghash.Galois().KeyPowers(keys)
    modifies dst
    ensures forall j, b: Block :: 0 <= j < src.Length && Follows(first, j, b) ==> dst[..][j] == Xor(old(src[..])[j], c.enc(b))
    ensures var hashed := if dir.Encrypting? then dst[..] else old(src[..]);
            HashKeys.Display(hash) == StandardHash.Hash(Bits(h), HashKeys.Display(y), AllBits(hashed))
    ensures Follows(first, src.Length, next) && stream == c.enc(next)
  {
    hide *;
    ghost var s := src[..];
    hash, next := RunAll(c, dir, first, keys, y, src, dst, h);
    StreamIs(c, first, s, dst[..]);
    OneFollows(first, src.Length, next);
    stream := c.enc(next);
  }

  lemma HashIsStandard(h: Block, y: Ghash.Wide, s: seq<Block>)
    ensures HashKeys.Display(Ghash.Galois().Horner(HashKeys.Doubled(Word(h)), y, Words(Word, s))) ==
            StandardHash.Hash(Bits(h), HashKeys.Display(y), AllBits(s))
  {
    HashKeys.HornerIsStandard(Word(h), y, Words(Word, s));
    WordShows(h);
    WordsShow(s);
  }
}
