/** Cipher block chaining: the mode as defined in section 6.2 of NIST SP 800-38A, and the block loops that compute it. */
module Cbc {
  import opened Blocks

  function Encrypt(c: Cipher, iv: Block, p: seq<byte>): (ct: seq<byte>)
    requires |p| % SIZE == 0
    ensures |ct| == |p|
    decreases |p|
  {
    if p == [] then [] else
      var b := c.enc(Xor(iv, p[..SIZE]));
      b + Encrypt(c, b, p[SIZE..])
  }

  function Decrypt(c: Cipher, iv: Block, ct: seq<byte>): (p: seq<byte>)
    requires |ct| % SIZE == 0
    ensures |p| == |ct|
    decreases |ct|
  {
    if ct == [] then [] else Xor(c.dec(ct[..SIZE]), iv) + Decrypt(c, ct[..SIZE], ct[SIZE..])
  }

  lemma {:induction false} RoundTrip(c: Cipher, iv: Block, p: seq<byte>)
    requires c.Valid() && |p| % SIZE == 0
    ensures Decrypt(c, iv, Encrypt(c, iv, p)) == p
    decreases |p|
  {
    if p == [] {
    } else {
      var x: Block := p[..SIZE];
      var b := c.enc(Xor(iv, x));
      var ct := Encrypt(c, iv, p);
      assert ct[..SIZE] == b && ct[SIZE..] == Encrypt(c, b, p[SIZE..]);
      XorUndoes(x, iv);
      RoundTrip(c, b, p[SIZE..]);
      assert p == x + p[SIZE..];
    }
  }

  /** The chaining value after a number of blocks: the last of them, or the initial vector. */
  function Chain(iv: Block, ct: seq<byte>): Block
    requires |ct| % SIZE == 0
  {
    if ct == [] then iv else ct[|ct| - SIZE..]
  }

  lemma {:induction false} EncryptAppend(c: Cipher, iv: Block, p: seq<byte>, q: seq<byte>)
    requires |p| % SIZE == 0 && |q| % SIZE == 0
    ensures Encrypt(c, iv, p + q) == Encrypt(c, iv, p) + Encrypt(c, Chain(iv, Encrypt(c, iv, p)), q)
    decreases |p|
  {
    if p == [] {
      assert p + q == q;
    } else {
      var b := c.enc(Xor(iv, p[..SIZE]));
      var rest := Encrypt(c, b, p[SIZE..]);
      EncryptAppend(c, b, p[SIZE..], q);
      assert (p + q)[..SIZE] == p[..SIZE] && (p + q)[SIZE..] == p[SIZE..] + q;
      assert Encrypt(c, iv, p) == b + rest;
      assert Chain(iv, b + rest) == Chain(b, rest);
    }
  }

  lemma DecryptCons(c: Cipher, iv: Block, b: Block, rest: seq<byte>)
    requires |rest| % SIZE == 0
    ensures Decrypt(c, iv, b + rest) == Xor(c.dec(b), iv) + Decrypt(c, b, rest)
  {
    assert (b + rest)[..SIZE] == b && (b + rest)[SIZE..] == rest;
  }

  /** A block in front of a message that decrypts piece by piece. */
  lemma DecryptBefore(c: Cipher, iv: Block, b: Block, rest: seq<byte>, y: seq<byte>)
    requires |rest| % SIZE == 0 && |y| % SIZE == 0
    requires Decrypt(c, b, rest + y) == Decrypt(c, b, rest) + Decrypt(c, Chain(b, rest), y)
    ensures Decrypt(c, iv, b + rest + y) == Decrypt(c, iv, b + rest) + Decrypt(c, Chain(iv, b + rest), y)
  {
    hide Decrypt;
    DecryptCons(c, iv, b, rest);
    DecryptCons(c, iv, b, rest + y);
    assert b + rest + y == b + (rest + y);
    assert Chain(iv, b + rest) == Chain(b, rest);
  }

  lemma {:induction false} DecryptAppend(c: Cipher, iv: Block, x: seq<byte>, y: seq<byte>)
    requires |x| % SIZE == 0 && |y| % SIZE == 0
    ensures Decrypt(c, iv, x + y) == Decrypt(c, iv, x) + Decrypt(c, Chain(iv, x), y)
    decreases |x|
  {
    if x == [] {
      assert x + y == y;
    } else {
      DecryptAppend(c, x[..SIZE], x[SIZE..], y);
      DecryptBefore(c, iv, x[..SIZE], x[SIZE..], y);
      assert x[..SIZE] + x[SIZE..] == x;
    }
  }

  lemma EncryptOne(c: Cipher, iv: Block, p: Block)
    ensures Encrypt(c, iv, p) == c.enc(Xor(iv, p))
  {
    assert p[..SIZE] == p && p[SIZE..] == [];
  }

  lemma DecryptOne(c: Cipher, iv: Block, ct: Block)
    ensures Decrypt(c, iv, ct) == Xor(c.dec(ct), iv)
  {
    assert ct[..SIZE] == ct && ct[SIZE..] == [];
  }

  /** One more block of encryption. */
  lemma EncryptStep(c: Cipher, iv: Block, p: seq<byte>, pos: nat)
    requires pos % SIZE == 0 && pos + SIZE <= |p|
    ensures var done := Encrypt(c, iv, p[..pos]); var b := c.enc(Xor(Chain(iv, done), p[pos..pos + SIZE]));
            Encrypt(c, iv, p[..pos + SIZE]) == done + b && Chain(iv, done + b) == b
  {
    var done, b: Block := Encrypt(c, iv, p[..pos]), p[pos..pos + SIZE];
    EncryptAppend(c, iv, p[..pos], b);
    EncryptOne(c, Chain(iv, done), b);
    assert p[..pos + SIZE] == p[..pos] + b;
  }

  /** One more block of decryption. */
  lemma DecryptStep(c: Cipher, iv: Block, ct: seq<byte>, pos: nat)
    requires pos % SIZE == 0 && pos + SIZE <= |ct|
    ensures var b: Block := ct[pos..pos + SIZE];
            Decrypt(c, iv, ct[..pos + SIZE]) == Decrypt(c, iv, ct[..pos]) + Xor(c.dec(b), Chain(iv, ct[..pos]))
            && Chain(iv, ct[..pos + SIZE]) == b
  {
    var b: Block := ct[pos..pos + SIZE];
    DecryptAppend(c, iv, ct[..pos], b);
    DecryptOne(c, Chain(iv, ct[..pos]), b);
    assert ct[..pos + SIZE] == ct[..pos] + b;
  }

  /** Every ciphertext block is the encryption of its message block xored with the ciphertext block before it. */
  lemma EncryptIs(c: Cipher, iv: Block, p: seq<byte>, j: nat)
    requires |p| % 16 == 0 && 16 * j + 16 <= |p|
    ensures var ct := Encrypt(c, iv, p);
            |ct| == |p| && ct[16 * j..16 * j + 16] == c.enc(Xor(if j == 0 then iv else ct[16 * j - 16..16 * j], p[16 * j..16 * j + 16]))
  {
    var pos, ct := 16 * j, Encrypt(c, iv, p);
    var done := Encrypt(c, iv, p[..pos]);
    EncryptStep(c, iv, p, pos);
    EncryptAppend(c, iv, p[..pos + SIZE], p[pos + SIZE..]);
    assert p == p[..pos + SIZE] + p[pos + SIZE..];
    assert done == ct[..pos];
  }

  /** Every message block is the decryption of its ciphertext block xored with the ciphertext block before it. */
  lemma DecryptIs(c: Cipher, iv: Block, ct: seq<byte>, j: nat)
    requires |ct| % 16 == 0 && 16 * j + 16 <= |ct|
    ensures var p := Decrypt(c, iv, ct);
            p[16 * j..16 * j + 16] == Xor(c.dec(ct[16 * j..16 * j + 16]), if j == 0 then iv else ct[16 * j - 16..16 * j])
  {
    var pos := 16 * j;
    DecryptStep(c, iv, ct, pos);
    DecryptAppend(c, iv, ct[..pos + SIZE], ct[pos + SIZE..]);
    assert ct == ct[..pos + SIZE] + ct[pos + SIZE..];
  }

  /** Replacing the block after a finished part. */
  lemma Replaced(before: seq<byte>, done: seq<byte>, rest: seq<byte>, b: Block, after: seq<byte>)
    requires SIZE <= |rest| && before == done + rest && after == Splice(before, |done|, b)
    ensures after == (done + b) + rest[SIZE..]
  {
  }

  /** `cpEncryptAES_cbc`: the first `n` blocks, from one buffer into another or in place. */
  method EncryptBlocks(c: Cipher, iv: Block, src: array<byte>, dst: array<byte>, n: nat)
    requires SIZE * n <= src.Length && SIZE * n <= dst.Length
    modifies dst
    ensures dst[..] == Encrypt(c, iv, old(src[..SIZE * n])) + old(dst[SIZE * n..])
  {
    var chain := iv;
    ghost var p, q := src[..], dst[..];
    for i: nat := 0 to n
      invariant src[SIZE * i..] == p[SIZE * i..]
      invariant dst[..] == Encrypt(c, iv, p[..SIZE * i]) + q[SIZE * i..]
      invariant chain == Chain(iv, Encrypt(c, iv, p[..SIZE * i]))
    {
      var pos := SIZE * i;
      ghost var before, done := dst[..], Encrypt(c, iv, p[..pos]);
      EncryptStep(c, iv, p, pos);
      chain := EncryptAt(c, chain, src, dst, pos, p);
      Replaced(before, done, q[pos..], chain, dst[..]);
    }
  }

  /** One turn of the loop: the source block is read before the target block, possibly the same, is written. */
  method EncryptAt(c: Cipher, chain: Block, src: array<byte>, dst: array<byte>, pos: nat, ghost p: seq<byte>) returns (b: Block)
    requires pos + SIZE <= src.Length == |p| && pos + SIZE <= dst.Length && src[pos..] == p[pos..]
    modifies dst
    ensures b == c.enc(Xor(chain, p[pos..pos + SIZE])) && src[pos + SIZE..] == p[pos + SIZE..]
    ensures dst[..] == Splice(old(dst[..]), pos, b)
  {
    SameTail(src[..], p, pos, SIZE);
    ghost var was := src[..];
    b := c.enc(Xor(chain, Load(src, pos)));
    Store(dst, pos, b);
    assert src[pos + SIZE..] == was[pos + SIZE..];
  }

  /** `cpDecryptAES_cbc`, not in place. */
  method DecryptInto(c: Cipher, iv: Block, src: array<byte>, dst: array<byte>, n: nat)
    requires src != dst && SIZE * n <= src.Length && SIZE * n <= dst.Length
    modifies dst
    ensures dst[..] == Decrypt(c, iv, old(src[..SIZE * n])) + old(dst[SIZE * n..])
  {
    var chain := iv;
    ghost var p, q := src[..], dst[..];
    for i: nat := 0 to n
      invariant src[..] == p
      invariant dst[..] == Decrypt(c, iv, p[..SIZE * i]) + q[SIZE * i..]
      invariant chain == Chain(iv, p[..SIZE * i])
    {
      var pos := SIZE * i;
      ghost var before, done := dst[..], Decrypt(c, iv, p[..pos]);
      DecryptStep(c, iv, p, pos);
      DecryptAt(c, chain, src, dst, pos);
      Replaced(before, done, q[pos..], Xor(c.dec(p[pos..pos + SIZE]), chain), dst[..]);
      chain := Load(src, pos);
    }
  }

  /** One turn: the decrypted block is stored and then xored with the chaining value where it lies. */
  method DecryptAt(c: Cipher, chain: Block, src: array<byte>, dst: array<byte>, pos: nat)
    requires src != dst && pos + SIZE <= src.Length && pos + SIZE <= dst.Length
    modifies dst
    ensures dst[..] == Splice(old(dst[..]), pos, Xor(c.dec(src[pos..pos + SIZE]), chain))
  {
    ghost var d, before := c.dec(src[pos..pos + SIZE]), dst[..];
    Store(dst, pos, c.dec(Load(src, pos)));
    assert dst[pos..pos + SIZE] == d;
    Store(dst, pos, Xor(Load(dst, pos), chain));
    assert Splice(Splice(before, pos, d), pos, Xor(d, chain)) == Splice(before, pos, Xor(d, chain));
  }

  /** `cpDecryptAES_cbc`, in place: the ciphertext block is kept before it is overwritten. */
  method DecryptInPlace(c: Cipher, iv: Block, buf: array<byte>, n: nat)
    requires SIZE * n <= buf.Length
    modifies buf
    ensures buf[..] == Decrypt(c, iv, old(buf[..SIZE * n])) + old(buf[SIZE * n..])
  {
    var chain := iv;
    ghost var p := buf[..];
    for i: nat := 0 to n
      invariant buf[..] == Decrypt(c, iv, p[..SIZE * i]) + p[SIZE * i..]
      invariant chain == Chain(iv, p[..SIZE * i])
    {
      var pos := SIZE * i;
      ghost var before, done := buf[..], Decrypt(c, iv, p[..pos]);
      SameTail(before, p, pos, SIZE);
      DecryptStep(c, iv, p, pos);
      ghost var out := Xor(c.dec(p[pos..pos + SIZE]), chain);
      chain := DecryptHere(c, chain, buf, pos);
      Replaced(before, done, p[pos..], out, buf[..]);
    }
  }

  method DecryptHere(c: Cipher, chain: Block, buf: array<byte>, pos: nat) returns (next: Block)
    requires pos + SIZE <= buf.Length
    modifies buf
    ensures buf[..] == Splice(old(buf[..]), pos, Xor(c.dec(old(buf[pos..pos + SIZE])), chain))
    ensures next == old(buf[pos..pos + SIZE])
  {
    var out := Xor(c.dec(Load(buf, pos)), chain);
    next := Load(buf, pos);
    Store(buf, pos, out);
  }

  /** `cpDecryptAES_cbc`. */
  method DecryptBlocks(c: Cipher, iv: Block, src: array<byte>, dst: array<byte>, n: nat)
    requires SIZE * n <= src.Length && SIZE * n <= dst.Length
    modifies dst
    ensures dst[..] == Decrypt(c, iv, old(src[..SIZE * n])) + old(dst[SIZE * n..])
  {
    if src != dst {
      DecryptInto(c, iv, src, dst, n);
    } else {
      DecryptInPlace(c, iv, dst, n);
    }
  }
}
