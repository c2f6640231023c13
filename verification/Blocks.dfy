/** Sixteen-byte blocks, a block cipher as a pair of inverse functions, and byte arrays written in place. */
module Blocks {

  type byte = bv8

  const SIZE: nat := 16

  type Block = s: seq<byte> | |s| == SIZE witness seq(SIZE, _ => 0)

  function Xor(x: Block, y: Block): (z: Block)
    ensures forall i :: 0 <= i < SIZE ==> z[i] == x[i] ^ y[i]
  {
    seq(SIZE, i requires 0 <= i < SIZE => x[i] ^ y[i])
  }

  lemma XorUndoes(x: Block, y: Block)
    ensures Xor(Xor(x, y), y) == x && Xor(Xor(y, x), y) == x && Xor(x, y) == Xor(y, x)
  {
    forall i | 0 <= i < SIZE
      ensures Xor(Xor(x, y), y)[i] == x[i] && Xor(Xor(y, x), y)[i] == x[i] && Xor(x, y)[i] == Xor(y, x)[i]
    {
      ByteXor(x[i], y[i]);
    }
  }

  lemma ByteXor(a: byte, b: byte)
    ensures (a ^ b) ^ b == a && (b ^ a) ^ b == a && a ^ b == b ^ a && 0 ^ a == a
  {
  }

  /** A keyed block cipher: encryption and decryption of one block. */
  datatype Cipher = Cipher(enc: Block -> Block, dec: Block -> Block)
  {
    ghost predicate Valid()
    {
      forall b: Block :: dec(enc(b)) == b && enc(dec(b)) == b
    }
  }

  function Zeros(n: nat): (s: seq<byte>)
    ensures |s| == n && forall i :: 0 <= i < n ==> s[i] == 0
  {
    seq(n, _ => 0)
  }

  function Load(a: array<byte>, pos: nat): (b: Block)
    requires pos + SIZE <= a.Length
    reads a
    ensures b == a[pos..pos + SIZE]
  {
    a[pos..pos + SIZE]
  }

  /** A sequence with a run written over it. */
  function Splice<L>(s: seq<L>, pos: nat, b: seq<L>): (r: seq<L>)
    requires pos + |b| <= |s|
    ensures |r| == |s|
  {
    s[..pos] + b + s[pos + |b|..]
  }

  /** One more element of a run. */
  lemma SpliceNext<L>(s: seq<L>, pos: nat, b: seq<L>, n: nat)
    requires n < |b| && pos + |b| <= |s|
    ensures Splice(s, pos, b[..n + 1]) == Splice(s, pos, b[..n])[pos + n := b[n]]
  {
    assert b[..n + 1] == b[..n] + [b[n]];
  }

  /** Writes a run. */
  method Store<L>(a: array<L>, pos: nat, b: seq<L>)
    requires pos + |b| <= a.Length
    modifies a
    ensures a[..] == Splice(old(a[..]), pos, b)
  {
    for i: nat := 0 to |b|
      invariant a[..] == Splice(old(a[..]), pos, b[..i])
    {
      SpliceNext(old(a[..]), pos, b, i);
      a[pos + i] := b[i];
    }
    assert b[..|b|] == b;
  }

  /** What two sequences with the same tail share. */
  lemma SameTail<L>(x: seq<L>, y: seq<L>, pos: nat, n: nat)
    requires |x| == |y| && pos + n <= |x| && x[pos..] == y[pos..]
    ensures x[pos..pos + n] == y[pos..pos + n] && x[pos + n..] == y[pos + n..]
  {
    assert forall i :: pos <= i < |x| ==> x[i] == x[pos..][i - pos] == y[pos..][i - pos] == y[i];
  }
}
