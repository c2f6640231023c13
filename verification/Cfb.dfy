/** Cipher feedback on whole blocks and on half blocks, as section 6.3 of NIST SP 800-38A defines it. */
module Cfb {
  import opened Blocks

  /** CFB with 128-bit segments. */
  function Encrypt(c: Cipher, iv: Block, p: seq<Block>): (ct: seq<Block>)
    ensures |ct| == |p| && forall j :: 0 <= j < |p| ==> ct[j] == Xor(p[j], c.enc(if j == 0 then iv else ct[j - 1]))
    decreases |p|
  {
    if p == [] then [] else
      var x := Xor(p[0], c.enc(iv));
      [x] + Encrypt(c, x, p[1..])
  }

  function Decrypt(c: Cipher, iv: Block, ct: seq<Block>): (p: seq<Block>)
    ensures |p| == |ct| && forall j :: 0 <= j < |ct| ==> p[j] == Xor(ct[j], c.enc(if j == 0 then iv else ct[j - 1]))
    decreases |ct|
  {
    if ct == [] then [] else [Xor(ct[0], c.enc(iv))] + Decrypt(c, ct[0], ct[1..])
  }

  /** Decryption undoes encryption for any block function, invertible or not. */
  lemma {:induction false} RoundTrip(c: Cipher, iv: Block, p: seq<Block>)
    ensures Decrypt(c, iv, Encrypt(c, iv, p)) == p
    decreases |p|
  {
    if p == [] {
    } else {
      var x := Xor(p[0], c.enc(iv));
      XorUndoes(p[0], c.enc(iv));
      assert Encrypt(c, iv, p)[1..] == Encrypt(c, x, p[1..]);
      RoundTrip(c, x, p[1..]);
    }
  }

  /** Half a block: one segment of CFB with 64-bit segments. */
  type Half = s: seq<byte> | |s| == SIZE / 2 witness seq(SIZE / 2, _ => 0)

  function XorHalf(x: Half, y: Half): (z: Half)
    ensures forall i :: 0 <= i < SIZE / 2 ==> z[i] == x[i] ^ y[i]
  {
    seq(SIZE / 2, i requires 0 <= i < SIZE / 2 => x[i] ^ y[i])
  }

  lemma XorHalfUndoes(x: Half, y: Half)
    ensures XorHalf(XorHalf(x, y), y) == x
  {
    forall i | 0 <= i < SIZE / 2
      ensures XorHalf(XorHalf(x, y), y)[i] == x[i]
    {
      ByteXor(x[i], y[i]);
    }
  }

  /** The key stream for a segment: the leading half of the encrypted shift register, which holds the last two segments. */
  function Stream(c: Cipher, older: Half, newer: Half): Half
  {
    c.enc(older + newer)[..SIZE / 2]
  }

  /** CFB with 64-bit segments: the shift register moves by half a block a segment. */
  function Encrypt64(c: Cipher, older: Half, newer: Half, p: seq<Half>): (ct: seq<Half>)
    ensures |ct| == |p|
    decreases |p|
  {
    if p == [] then [] else
      var x := XorHalf(p[0], Stream(c, older, newer));
      [x] + Encrypt64(c, newer, x, p[1..])
  }

  function Decrypt64(c: Cipher, older: Half, newer: Half, ct: seq<Half>): (p: seq<Half>)
    ensures |p| == |ct|
    decreases |ct|
  {
    if ct == [] then [] else [XorHalf(ct[0], Stream(c, older, newer))] + Decrypt64(c, newer, ct[0], ct[1..])
  }

  /** Segments as bytes. */
  ghost function Joined(s: seq<Half>): (b: seq<byte>)
    ensures |b| == 8 * |s|
  {
    if s == [] then [] else s[0] + Joined(s[1..])
  }

  /** The shift register for segment `j`: the sixteen bytes before its ciphertext in the initial vector followed by the ciphertext. */
  ghost function Register(iv: seq<byte>, ct: seq<Half>, j: nat): Block
    requires |iv| == 16 && j <= |ct|
  {
    (iv + Joined(ct[..j]))[8 * j..8 * j + 16]
  }

  /** Moving on by a segment. */
  lemma RegisterNext(older: Half, newer: Half, ct: seq<Half>, j: nat)
    requires 0 < j <= |ct|
    ensures Register(older + newer, ct, j) == Register(newer + ct[0], ct[1..], j - 1)
  {
    var t := Joined(ct[1..][..j - 1]);
    assert ct[..j][1..] == ct[1..][..j - 1];
    assert (older + newer) + Joined(ct[..j]) == older + ((newer + ct[0]) + t);
    var r := (newer + ct[0]) + t;
    assert (older + r)[8 * j..8 * j + 16] == r[8 * (j - 1)..8 * (j - 1) + 16];
  }

  /** Every segment is its ciphertext xored with the leading half of the encrypted shift register. */
  lemma {:induction false} Decrypt64Is(c: Cipher, older: Half, newer: Half, ct: seq<Half>, j: nat)
    requires j < |ct|
    ensures Decrypt64(c, older, newer, ct)[j] == XorHalf(ct[j], c.enc(Register(older + newer, ct, j))[..8])
    decreases j
  {
    if j == 0 {
      assert Register(older + newer, ct, 0) == older + newer;
    } else {
      Decrypt64Is(c, newer, ct[0], ct[1..], j - 1);
      RegisterNext(older, newer, ct, j);
    }
  }

  lemma {:induction false} Encrypt64Is(c: Cipher, older: Half, newer: Half, p: seq<Half>, j: nat)
    requires j < |p|
    ensures var ct := Encrypt64(c, older, newer, p); ct[j] == XorHalf(p[j], c.enc(Register(older + newer, ct, j))[..8])
    decreases j
  {
    var ct := Encrypt64(c, older, newer, p);
    if j == 0 {
      assert Register(older + newer, ct, 0) == older + newer;
    } else {
      assert ct[1..] == Encrypt64(c, newer, ct[0], p[1..]);
      Encrypt64Is(c, newer, ct[0], p[1..], j - 1);
      RegisterNext(older, newer, ct, j);
    }
  }

  lemma {:induction false} RoundTrip64(c: Cipher, older: Half, newer: Half, p: seq<Half>)
    ensures Decrypt64(c, older, newer, Encrypt64(c, older, newer, p)) == p
    decreases |p|
  {
    if p == [] {
    } else {
      var k := Stream(c, older, newer);
      var x := XorHalf(p[0], k);
      XorHalfUndoes(p[0], k);
      assert Encrypt64(c, older, newer, p)[1..] == Encrypt64(c, newer, x, p[1..]);
      RoundTrip64(c, newer, x, p[1..]);
    }
  }

  /** The shift register after some segments. */
  function History(older: Half, newer: Half, x: seq<Half>): (Half, Half)
  {
    if x == [] then (older, newer)
    else if |x| == 1 then (newer, x[0])
    else (x[|x| - 2], x[|x| - 1])
  }

  lemma {:induction false} Decrypt64Append(c: Cipher, older: Half, newer: Half, x: seq<Half>, y: seq<Half>)
    ensures var h := History(older, newer, x);
            Decrypt64(c, older, newer, x + y) == Decrypt64(c, older, newer, x) + Decrypt64(c, h.0, h.1, y)
    decreases |x|
  {
    if x == [] {
      assert x + y == y;
    } else {
      Decrypt64Append(c, newer, x[0], x[1..], y);
      assert (x + y)[1..] == x[1..] + y;
      assert History(older, newer, x) == History(newer, x[0], x[1..]);
    }
  }
}
