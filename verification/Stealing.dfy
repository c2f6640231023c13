/**
 * Ciphertext stealing for CBC. The three variants as the Addendum to NIST SP 800-38A defines them, from the ordinary CBC ciphertext
 * of the zero-padded message, and the in-place routines that compute them without ever padding the message.
 */
module Stealing {
  import opened Blocks
  import opened Cbc

  datatype Status = NoErr | LengthErr

  /** CBC of a message whose last, partial block has `tail` bytes, padded with zeros. */
  function Padded(c: Cipher, iv: Block, p: seq<byte>, tail: nat): (ct: seq<byte>)
    requires 0 < tail <= SIZE && |p| >= tail && (|p| - tail) % SIZE == 0
    ensures |ct| == |p| - tail + SIZE
  {
    Encrypt(c, iv, p + Zeros(SIZE - tail))
  }

  /** The stolen part of the last block but one, before the last block. */
  function StolenFirst(ct: seq<byte>, tail: nat): seq<byte>
    requires tail <= SIZE && |ct| >= 2 * SIZE
  {
    ct[..|ct| - 2 * SIZE] + ct[|ct| - 2 * SIZE..|ct| - 2 * SIZE + tail] + ct[|ct| - SIZE..]
  }

  /** The last block before the stolen part. */
  function StolenLast(ct: seq<byte>, tail: nat): seq<byte>
    requires tail <= SIZE && |ct| >= 2 * SIZE
  {
    ct[..|ct| - 2 * SIZE] + ct[|ct| - SIZE..] + ct[|ct| - 2 * SIZE..|ct| - 2 * SIZE + tail]
  }

  /** CBC-CS1. */
  function Cs1(c: Cipher, iv: Block, p: seq<byte>): seq<byte>
    requires |p| >= SIZE
  {
    var tail := |p| % SIZE;
    if tail == 0 then Encrypt(c, iv, p) else StolenFirst(Padded(c, iv, p, tail), tail)
  }

  /** CBC-CS2: the same as CS1 on whole blocks, swapped otherwise. */
  function Cs2(c: Cipher, iv: Block, p: seq<byte>): seq<byte>
    requires |p| >= SIZE
  {
    var tail := |p| % SIZE;
    if tail == 0 then Encrypt(c, iv, p) else StolenLast(Padded(c, iv, p, tail), tail)
  }

  /** Length of the last block, between one byte and a whole block. */
  function LastLength(len: nat): (tail: nat)
    requires len > 0
    ensures 0 < tail <= SIZE && (len - tail) % SIZE == 0 && tail <= len
  {
    if len % SIZE == 0 then SIZE else len % SIZE
  }

  /** CBC-CS3: always swapped, as in section 5 of RFC 3962. */
  function Cs3(c: Cipher, iv: Block, p: seq<byte>): seq<byte>
    requires |p| > SIZE
  {
    var tail := LastLength(|p|);
    StolenLast(Padded(c, iv, p, tail), tail)
  }

  /** Both orders hold the same three pieces. */
  lemma SamePieces(ct: seq<byte>, tail: nat)
    requires 0 < tail <= SIZE && |ct| >= 2 * SIZE
    ensures var h := |ct| - 2 * SIZE; var x, z := StolenFirst(ct, tail), StolenLast(ct, tail);
            x[..h] == z[..h] && x[h..h + tail] == z[h + SIZE..] && x[h + tail..] == z[h..h + SIZE]
    ensures StolenFirst(ct, SIZE) == ct
  {
    var h := |ct| - 2 * SIZE;
    var x, z := StolenFirst(ct, tail), StolenLast(ct, tail);
    assert x[h..h + tail] == ct[h..h + tail] == z[h + SIZE..];
    assert x[h + tail..] == ct[h + SIZE..] == z[h..h + SIZE];
  }

  /** CS1 of whole blocks is plain CBC, which is also what stealing a whole block gives. */
  lemma WholeBlocks(c: Cipher, iv: Block, p: seq<byte>)
    requires |p| > SIZE
    ensures Cs1(c, iv, p) == StolenFirst(Padded(c, iv, p, LastLength(|p|)), LastLength(|p|))
  {
    if |p| % SIZE == 0 {
      assert p + Zeros(0) == p;
      SamePieces(Encrypt(c, iv, p), SIZE);
    }
  }

  /** The three ciphertexts of a message differ only in where the stolen part stands. */
  lemma VariantsReorder(c: Cipher, iv: Block, p: seq<byte>)
    requires |p| > SIZE
    ensures var tail := LastLength(|p|); var h := |p| - tail - SIZE; var x, z := Cs1(c, iv, p), Cs3(c, iv, p);
            |x| == |z| == |p| && x[..h] == z[..h] && x[h..h + tail] == z[h + SIZE..] && x[h + tail..] == z[h..h + SIZE]
    ensures Cs2(c, iv, p) == if |p| % SIZE == 0 then Cs1(c, iv, p) else Cs3(c, iv, p)
  {
    WholeBlocks(c, iv, p);
    SamePieces(Padded(c, iv, p, LastLength(|p|)), LastLength(|p|));
  }

  /** Rebuilds the CBC ciphertext: the part of the last block but one that was not sent is recovered from the last. */
  function Restore(c: Cipher, head: seq<byte>, part: seq<byte>, last: Block): (ct: seq<byte>)
    requires |part| <= SIZE
    ensures |ct| == |head| + 2 * SIZE
  {
    head + (part + c.dec(last)[|part|..]) + last
  }

  /** Decryption from the three pieces. */
  function Unsteal(c: Cipher, iv: Block, head: seq<byte>, part: seq<byte>, last: Block): (p: seq<byte>)
    requires |head| % SIZE == 0 && 0 < |part| <= SIZE
    ensures |p| == |head| + SIZE + |part|
  {
    Decrypt(c, iv, Restore(c, head, part, last))[..|head| + SIZE + |part|]
  }

  /** The padding is zero, so the bytes that were not sent are those the last block decrypts to. */
  lemma UnsentBytes(prev: Block, x: Block, y: Block, tail: nat)
    requires tail <= SIZE && y == Xor(prev, x) && forall i :: tail <= i < SIZE ==> x[i] == 0
    ensures prev[..tail] + y[tail..] == prev
  {
    forall i | tail <= i < SIZE
      ensures y[i] == prev[i]
    {
      ByteXor(0, prev[i]);
      assert y[i] == prev[i] ^ 0;
    }
  }

  /** The last two blocks of the padded ciphertext. */
  lemma LastTwo(c: Cipher, iv: Block, p: seq<byte>, tail: nat)
    requires c.Valid() && 0 < tail <= SIZE && |p| >= tail + SIZE && (|p| - tail) % SIZE == 0
    ensures var ct := Padded(c, iv, p, tail); var h := |ct| - 2 * SIZE;
            ct[h..h + tail] + c.dec(ct[h + SIZE..])[tail..] == ct[h..h + SIZE]
  {
    var q, pos := p + Zeros(SIZE - tail), |p| - tail;
    var ct, h := Padded(c, iv, p, tail), pos - SIZE;
    EncryptStep(c, iv, q, pos);
    assert q[..pos + SIZE] == q;
    var done, x: Block := Encrypt(c, iv, q[..pos]), q[pos..pos + SIZE];
    var prev := Chain(iv, done);
    var last := c.enc(Xor(prev, x));
    assert ct == done + last;
    assert ct[h..h + SIZE] == prev && ct[h + SIZE..] == last;
    UnsentBytes(prev, x, c.dec(last), tail);
    assert prev[..tail] == ct[h..h + tail];
  }

  /** Stealing loses nothing: the pieces of a ciphertext give back the message. */
  lemma UnstealInverts(c: Cipher, iv: Block, p: seq<byte>, tail: nat)
    requires c.Valid() && 0 < tail <= SIZE && |p| >= tail + SIZE && (|p| - tail) % SIZE == 0
    ensures var ct := Padded(c, iv, p, tail); var h := |ct| - 2 * SIZE;
            Unsteal(c, iv, ct[..h], ct[h..h + tail], ct[h + SIZE..]) == p
  {
    var q := p + Zeros(SIZE - tail);
    var ct := Padded(c, iv, p, tail);
    var h := |ct| - 2 * SIZE;
    LastTwo(c, iv, p, tail);
    assert Restore(c, ct[..h], ct[h..h + tail], ct[h + SIZE..]) == ct[..h] + ct[h..h + SIZE] + ct[h + SIZE..] == ct;
    RoundTrip(c, iv, q);
    assert q[..|p|] == p;
  }

  /** CBC-CS1, CS2 and CS3 decryption. */
  function Cs1Dec(c: Cipher, iv: Block, s: seq<byte>): (p: seq<byte>)
    requires |s| >= SIZE
    ensures |p| == |s|
  {
    var tail := |s| % SIZE;
    if tail == 0 then Decrypt(c, iv, s) else
      var h := |s| - SIZE - tail; Unsteal(c, iv, s[..h], s[h..h + tail], s[h + tail..])
  }

  function Cs2Dec(c: Cipher, iv: Block, s: seq<byte>): (p: seq<byte>)
    requires |s| >= SIZE
    ensures |p| == |s|
  {
    var tail := |s| % SIZE;
    if tail == 0 then Decrypt(c, iv, s) else
      var h := |s| - SIZE - tail; Unsteal(c, iv, s[..h], s[h + SIZE..], s[h..h + SIZE])
  }

  function Cs3Dec(c: Cipher, iv: Block, s: seq<byte>): (p: seq<byte>)
    requires |s| > SIZE
    ensures |p| == |s|
  {
    var h := |s| - SIZE - LastLength(|s|);
    Unsteal(c, iv, s[..h], s[h + SIZE..], s[h..h + SIZE])
  }

  lemma Pieces(ct: seq<byte>, tail: nat)
    requires 0 < tail <= SIZE && |ct| >= 2 * SIZE
    ensures var h := |ct| - 2 * SIZE; var x, z := StolenFirst(ct, tail), StolenLast(ct, tail);
            && x[..h] == z[..h] == ct[..h] && |x| == |z| == h + SIZE + tail
            && x[h..h + tail] == z[h + SIZE..] == ct[h..h + tail] && x[h + tail..] == z[h..h + SIZE] == ct[h + SIZE..]
  {
  }

  /** CS1 and CS2 decrypt what they encrypted, at every length they accept. */
  lemma Cs12RoundTrip(c: Cipher, iv: Block, p: seq<byte>)
    requires c.Valid() && |p| >= SIZE
    ensures Cs1Dec(c, iv, Cs1(c, iv, p)) == p && Cs2Dec(c, iv, Cs2(c, iv, p)) == p
  {
    if |p| % SIZE == 0 {
      RoundTrip(c, iv, p);
    } else {
      var tail := |p| % SIZE;
      UnstealInverts(c, iv, p, tail);
      Pieces(Padded(c, iv, p, tail), tail);
    }
  }

  /** And so does CS3. */
  lemma Cs3RoundTrip(c: Cipher, iv: Block, p: seq<byte>)
    requires c.Valid() && |p| > SIZE
    ensures Cs3Dec(c, iv, Cs3(c, iv, p)) == p
  {
    var tail := LastLength(|p|);
    var ct, s := Padded(c, iv, p, tail), Cs3(c, iv, p);
    var h := |ct| - 2 * SIZE;
    UnstealInverts(c, iv, p, tail);
    Pieces(ct, tail);
    assert |s| == |p| && s[..h] == ct[..h] && s[h + SIZE..] == ct[h..h + tail] && s[h..h + SIZE] == ct[h + SIZE..];
  }

  /** The last ciphertext block xored with the partial block of the source. */
  method XorTail(b: Block, src: array<byte>, pos: nat, tail: nat) returns (x: Block)
    requires tail <= SIZE && pos + tail <= src.Length
    ensures x == Xor(b, src[pos..pos + tail] + Zeros(SIZE - tail))
  {
    x := b;
    ghost var padded := src[pos..pos + tail] + Zeros(SIZE - tail);
    for n: nat := 0 to tail
      invariant forall i :: 0 <= i < n ==> x[i] == b[i] ^ padded[i]
      invariant forall i :: n <= i < SIZE ==> x[i] == b[i]
    {
      x := x[n := x[n] ^ src[pos + n]];
    }
    forall i | tail <= i < SIZE
      ensures b[i] ^ padded[i] == b[i]
    {
      ByteXor(0, b[i]);
    }
    assert x == Xor(b, padded);
  }

  /** The padded ciphertext from that of the whole blocks and the last block. */
  lemma PaddedIs(c: Cipher, iv: Block, p: seq<byte>, tail: nat)
    requires 0 < tail <= SIZE && |p| >= tail + SIZE && (|p| - tail) % SIZE == 0
    ensures var pos := |p| - tail; var done := Encrypt(c, iv, p[..pos]);
            Padded(c, iv, p, tail) == done + c.enc(Xor(done[pos - SIZE..], p[pos..] + Zeros(SIZE - tail)))
  {
    var q, pos := p + Zeros(SIZE - tail), |p| - tail;
    EncryptStep(c, iv, q, pos);
    assert q[..pos + SIZE] == q && q[..pos] == p[..pos];
    assert q[pos..pos + SIZE] == p[pos..] + Zeros(SIZE - tail);
  }

  /** The whole blocks, then the last block computed from the one before and the partial block of the source. */
  method EncryptLast(c: Cipher, iv: Block, src: array<byte>, dst: array<byte>, tail: nat) returns (last: Block, before: Block)
    requires src.Length == dst.Length && 0 < tail <= SIZE && src.Length >= tail + SIZE && (src.Length - tail) % SIZE == 0
    modifies dst
    ensures var ct := Padded(c, iv, old(src[..]), tail); var pos := src.Length - tail;
            && |ct| == pos + SIZE && dst[..pos] == ct[..pos] && last == ct[pos..] && before == ct[pos - SIZE..pos]
  {
    var pos := src.Length - tail;
    ghost var p := src[..];
    PaddedIs(c, iv, p, tail);
    EncryptBlocks(c, iv, src, dst, pos / SIZE);
    assert src[pos..pos + tail] == p[pos..];
    assert dst[..pos] == Encrypt(c, iv, p[..pos]);
    before := Load(dst, pos - SIZE);
    var x := XorTail(before, src, pos, tail);
    last := c.enc(x);
  }

  /** Messages of whole blocks. */
  method EncryptWhole(c: Cipher, iv: Block, src: array<byte>, dst: array<byte>)
    requires src.Length == dst.Length && src.Length % SIZE == 0
    modifies dst
    ensures dst[..] == Encrypt(c, iv, old(src[..]))
  {
    assert src[..src.Length] == src[..];
    EncryptBlocks(c, iv, src, dst, src.Length / SIZE);
  }

  method DecryptWhole(c: Cipher, iv: Block, src: array<byte>, dst: array<byte>)
    requires src.Length == dst.Length && src.Length % SIZE == 0
    modifies dst
    ensures dst[..] == Decrypt(c, iv, old(src[..]))
  {
    assert src[..src.Length] == src[..];
    DecryptBlocks(c, iv, src, dst, src.Length / SIZE);
  }

  lemma FirstIs(whole: seq<byte>, ct: seq<byte>, pos: nat, tail: nat, last: Block)
    requires 0 < tail <= SIZE <= pos && |whole| == pos + tail && |ct| == pos + SIZE && whole[..pos] == ct[..pos] && last == ct[pos..]
    ensures Splice(whole, pos + tail - SIZE, last) == StolenFirst(ct, tail)
  {
    assert whole[..pos + tail - SIZE] == ct[..pos][..pos + tail - SIZE] == ct[..pos - SIZE] + ct[pos - SIZE..pos - SIZE + tail];
  }

  /** The last block overwrites the end of the one before, leaving its stolen part. */
  method EncryptFirst(c: Cipher, iv: Block, src: array<byte>, dst: array<byte>, tail: nat)
    requires src.Length == dst.Length && 0 < tail <= SIZE && src.Length >= tail + SIZE && (src.Length - tail) % SIZE == 0
    modifies dst
    ensures dst[..] == StolenFirst(Padded(c, iv, old(src[..]), tail), tail)
  {
    ghost var ct := Padded(c, iv, src[..], tail);
    var last, before := EncryptLast(c, iv, src, dst, tail);
    FirstIs(dst[..], ct, src.Length - tail, tail, last);
    Store(dst, src.Length - SIZE, last);
  }

  /** `ippsAESEncryptCBC_CS1`. */
  method EncryptCs1(c: Cipher, iv: Block, src: array<byte>, dst: array<byte>) returns (status: Status)
    requires src.Length == dst.Length
    modifies dst
    ensures status == if src.Length < SIZE then LengthErr else NoErr
    ensures dst[..] == if src.Length < SIZE then old(dst[..]) else Cs1(c, iv, old(src[..]))
  {
    if src.Length < SIZE {
      return LengthErr;
    }
    if src.Length % SIZE == 0 {
      EncryptWhole(c, iv, src, dst);
    } else {
      EncryptFirst(c, iv, src, dst, src.Length % SIZE);
    }
    return NoErr;
  }

  lemma LastIs(whole: seq<byte>, ct: seq<byte>, pos: nat, tail: nat, last: Block, before: Block)
    requires 0 < tail <= SIZE <= pos && |whole| == pos + tail && |ct| == pos + SIZE && whole[..pos] == ct[..pos]
    requires last == ct[pos..] && before == ct[pos - SIZE..pos]
    ensures Splice(Splice(whole, pos - SIZE, last), pos, before[..tail]) == StolenLast(ct, tail)
  {
    assert whole[..pos - SIZE] == ct[..pos][..pos - SIZE] == ct[..pos - SIZE];
    assert before[..tail] == ct[pos - SIZE..pos - SIZE + tail];
  }

  /** The last block over the one before, and the stolen part behind it. */
  method EncryptSwapped(c: Cipher, iv: Block, src: array<byte>, dst: array<byte>, tail: nat)
    requires src.Length == dst.Length && 0 < tail <= SIZE && src.Length >= tail + SIZE && (src.Length - tail) % SIZE == 0
    modifies dst
    ensures dst[..] == StolenLast(Padded(c, iv, old(src[..]), tail), tail)
  {
    var pos := src.Length - tail;
    ghost var ct := Padded(c, iv, src[..], tail);
    var last, before := EncryptLast(c, iv, src, dst, tail);
    LastIs(dst[..], ct, pos, tail, last, before);
    Store(dst, pos - SIZE, last);
    Store(dst, pos, before[..tail]);
  }

  /** `ippsAESEncryptCBC_CS2`. */
  method EncryptCs2(c: Cipher, iv: Block, src: array<byte>, dst: array<byte>) returns (status: Status)
    requires src.Length == dst.Length
    modifies dst
    ensures status == if src.Length < SIZE then LengthErr else NoErr
    ensures dst[..] == if src.Length < SIZE then old(dst[..]) else Cs2(c, iv, old(src[..]))
  {
    if src.Length < SIZE {
      return LengthErr;
    }
    if src.Length % SIZE == 0 {
      EncryptWhole(c, iv, src, dst);
    } else {
      EncryptSwapped(c, iv, src, dst, src.Length % SIZE);
    }
    return NoErr;
  }

  /** `ippsAESEncryptCBC_CS3`. */
  method EncryptCs3(c: Cipher, iv: Block, src: array<byte>, dst: array<byte>) returns (status: Status)
    requires src.Length == dst.Length
    modifies dst
    ensures status == if src.Length <= SIZE then LengthErr else NoErr
    ensures dst[..] == if src.Length <= SIZE then old(dst[..]) else Cs3(c, iv, old(src[..]))
  {
    if src.Length <= SIZE {
      return LengthErr;
    }
    EncryptSwapped(c, iv, src, dst, LastLength(src.Length));
    return NoErr;
  }

  /** What decryption of the last two pieces gives, byte for byte. */
  lemma UnstealIs(c: Cipher, iv: Block, head: seq<byte>, part: seq<byte>, last: Block)
    requires |head| % SIZE == 0 && 0 < |part| <= SIZE
    ensures var x := c.dec(last); var prev: Block := part + x[|part|..];
            Unsteal(c, iv, head, part, last) ==
            Decrypt(c, iv, head) + Xor(c.dec(prev), Chain(iv, head)) + Xor(x, prev)[..|part|]
  {
    hide Decrypt, Encrypt, Xor, Chain;
    var x := c.dec(last);
    var prev: Block := part + x[|part|..];
    var ct, h := Restore(c, head, part, last), |head|;
    assert ct[..h] == head && ct[h..h + SIZE] == prev && ct[h + SIZE..h + 2 * SIZE] == last && ct[..h + 2 * SIZE] == ct;
    DecryptStep(c, iv, ct, h);
    DecryptStep(c, iv, ct, h + SIZE);
    TakeJoined(Decrypt(c, iv, head), Xor(c.dec(prev), Chain(iv, head)), Xor(x, prev), |part|);
  }

  lemma TakeJoined(x: seq<byte>, y: seq<byte>, z: seq<byte>, n: nat)
    requires n <= |z|
    ensures (x + y + z)[..|x| + |y| + n] == x + y + z[..n]
  {
  }

  /** The vector for the penultimate block, taken before anything is overwritten, and the blocks before it decrypted. */
  method DecryptHead(c: Cipher, iv: Block, src: array<byte>, dst: array<byte>, h: nat) returns (chain: Block)
    requires src.Length == dst.Length && h % SIZE == 0 && h <= src.Length
    modifies dst
    ensures chain == Chain(iv, old(src[..h])) && dst[..h] == Decrypt(c, iv, old(src[..h])) && src[h..] == old(src[h..])
  {
    if h > 0 {
      chain := Load(src, h - SIZE);
      assert Chain(iv, src[..h]) == src[h - SIZE..h];
      DecryptBlocks(c, iv, src, dst, h / SIZE);
    } else {
      chain := iv;
    }
  }

  /** Penultimate block: each byte of the source is read before its place in the target is written. Returns the bytes read. */
  method WritePenultimate(src: array<byte>, dst: array<byte>, h: nat, y: Block, chain: Block) returns (kept: Block)
    requires src.Length == dst.Length && h + SIZE <= src.Length
    modifies dst
    ensures dst[..] == Splice(old(dst[..]), h, Xor(y, chain)) && kept == old(src[h..h + SIZE])
    ensures src[h + SIZE..] == old(src[h + SIZE..])
  {
    kept := y;
    ghost var z, s, d := Xor(y, chain), src[..], dst[..];
    for n: nat := 0 to SIZE
      invariant dst[..] == Splice(d, h, z[..n])
      invariant forall j :: h + n <= j < src.Length ==> src[j] == s[j]
      invariant forall j :: 0 <= j < n ==> kept[j] == s[h + j]
    {
      SpliceNext(d, h, z, n);
      var b := src[h + n];
      dst[h + n] := y[n] ^ chain[n];
      kept := kept[n := b];
    }
    assert z[..SIZE] == z;
  }

  /** Last partial block from two blocks in local storage. */
  method WriteLast(dst: array<byte>, pos: nat, x: Block, low: Block, tail: nat)
    requires tail <= SIZE && pos + tail == dst.Length
    modifies dst
    ensures dst[..] == Splice(old(dst[..]), pos, Xor(x, low)[..tail])
  {
    ghost var z := Xor(x, low);
    for n: nat := 0 to tail
      invariant dst[..] == Splice(old(dst[..]), pos, z[..n])
    {
      SpliceNext(old(dst[..]), pos, z[..tail], n);
      assert z[..tail][..n + 1] == z[..n + 1] && z[..tail][..n] == z[..n];
      dst[pos + n] := x[n] ^ low[n];
    }
  }

  /** Last partial block against the bytes of the source in the same place, each read just before it is overwritten. */
  method WriteLastFrom(src: array<byte>, dst: array<byte>, pos: nat, x: Block, tail: nat, ghost low: Block)
    requires src.Length == dst.Length && tail <= SIZE && pos + tail == dst.Length
    requires forall j :: pos <= j < pos + tail ==> src[j] == low[j - pos]
    modifies dst
    ensures dst[..] == Splice(old(dst[..]), pos, Xor(x, low)[..tail])
  {
    ghost var z := Xor(x, low);
    for n: nat := 0 to tail
      invariant dst[..] == Splice(old(dst[..]), pos, z[..n])
      invariant forall j :: pos + n <= j < pos + tail ==> src[j] == low[j - pos]
    {
      SpliceNext(old(dst[..]), pos, z[..tail], n);
      assert z[..tail][..n + 1] == z[..n + 1] && z[..tail][..n] == z[..n];
      dst[pos + n] := x[n] ^ src[pos + n];
    }
  }

  /** Head, penultimate and last block written in this order are what `Unsteal` gives. */
  lemma Assembled(c: Cipher, iv: Block, head: seq<byte>, part: seq<byte>, last: Block, low: Block, d: seq<byte>,
                  x: Block, y: Block, chain: Block)
    requires |head| % SIZE == 0 && 0 < |part| <= SIZE && low[..|part|] == part && |d| == |head| + SIZE + |part|
    requires d[..|head|] == Decrypt(c, iv, head)
    requires x == c.dec(last) && y == c.dec(part + x[|part|..]) && chain == Chain(iv, head)
    ensures Splice(Splice(d, |head|, Xor(y, chain)), |head| + SIZE, Xor(x, low)[..|part|]) == Unsteal(c, iv, head, part, last)
  {
    UnstealIs(c, iv, head, part, last);
    var prev: Block := part + x[|part|..];
    forall i | 0 <= i < |part|
      ensures Xor(x, low)[i] == Xor(x, prev)[i]
    {
      assert prev[i] == part[i] == low[..|part|][i];
    }
    assert Xor(x, low)[..|part|] == Xor(x, prev)[..|part|];
  }

  /** The stolen part put back in front of what the last block decrypts to. */
  method Rejoin(x: Block, src: array<byte>, pos: nat, tail: nat) returns (prev: Block)
    requires tail <= SIZE && pos + tail <= src.Length
    ensures prev == src[pos..pos + tail] + x[tail..]
  {
    prev := x;
    for n: nat := 0 to tail
      invariant prev == src[pos..pos + n] + x[n..]
    {
      prev := prev[n := src[pos + n]];
    }
  }

  /** The two block decryptions, from a source whose stolen part and last block stand at `p` and `q`. */
  method DecryptTwo(c: Cipher, src: array<byte>, p: nat, q: nat, tail: nat, ghost part: seq<byte>, ghost last: Block)
    returns (x: Block, y: Block)
    requires p + tail <= src.Length && q + SIZE <= src.Length && tail <= SIZE
    requires src[p..p + tail] == part && src[q..q + SIZE] == last
    ensures x == c.dec(last) && y == c.dec(part + x[tail..])
  {
    x := c.dec(Load(src, q));
    var prev := Rejoin(x, src, p, tail);
    y := c.dec(prev);
  }

  /** The tail of CS1 decryption: the stolen part stands first, and is kept while the penultimate block is written. */
  method DecryptFirst(c: Cipher, iv: Block, src: array<byte>, dst: array<byte>, tail: nat)
    requires src.Length == dst.Length && 0 < tail <= SIZE && src.Length >= tail + SIZE && (src.Length - tail) % SIZE == 0
    modifies dst
    ensures var s := old(src[..]); var h := |s| - SIZE - tail;
            dst[..] == Unsteal(c, iv, s[..h], s[h..h + tail], s[h + tail..])
  {
    hide Decrypt, Encrypt, Xor, Chain, Unsteal;
    var h := src.Length - SIZE - tail;
    ghost var s := src[..];
    ghost var head, part, last: Block, low: Block := s[..h], s[h..h + tail], s[h + tail..], s[h..h + SIZE];
    var chain := DecryptHead(c, iv, src, dst, h);
    SameTail(src[..], s, h, tail);
    SameTail(src[..], s, h, SIZE);
    assert src[h + tail..h + tail + SIZE] == src[h + tail..];
    var x, y := DecryptTwo(c, src, h, h + tail, tail, part, last);
    Assembled(c, iv, head, part, last, low, dst[..], x, y, chain);
    var kept := WritePenultimate(src, dst, h, y, chain);
    WriteLast(dst, h + SIZE, x, kept, tail);
  }

  /** The tail of CS2 and CS3 decryption: the last block stands before the stolen part. */
  method DecryptSwapped(c: Cipher, iv: Block, src: array<byte>, dst: array<byte>, tail: nat)
    requires src.Length == dst.Length && 0 < tail <= SIZE && src.Length >= tail + SIZE && (src.Length - tail) % SIZE == 0
    modifies dst
    ensures var s := old(src[..]); var h := |s| - SIZE - tail;
            dst[..] == Unsteal(c, iv, s[..h], s[h + SIZE..], s[h..h + SIZE])
  {
    hide Decrypt, Encrypt, Xor, Chain, Unsteal;
    var h := src.Length - SIZE - tail;
    ghost var s := src[..];
    ghost var head, part, last: Block := s[..h], s[h + SIZE..], s[h..h + SIZE];
    ghost var low: Block := part + Zeros(SIZE - tail);
    var chain := DecryptHead(c, iv, src, dst, h);
    SameTail(src[..], s, h, SIZE);
    assert src[h + SIZE..h + SIZE + tail] == src[h + SIZE..];
    var x, y := DecryptTwo(c, src, h + SIZE, h, tail, part, last);
    Assembled(c, iv, head, part, last, low, dst[..], x, y, chain);
    var kept := WritePenultimate(src, dst, h, y, chain);
    Untouched(src[..], s, h + SIZE, tail, low);
    WriteLastFrom(src, dst, h + SIZE, x, tail, low);
  }

  lemma Untouched(now: seq<byte>, s: seq<byte>, pos: nat, tail: nat, low: Block)
    requires |now| == |s| == pos + tail && tail <= SIZE && now[pos..] == s[pos..] && low[..tail] == s[pos..]
    ensures forall j :: pos <= j < pos + tail ==> now[j] == low[j - pos]
  {
    forall j | pos <= j < pos + tail
      ensures now[j] == low[j - pos]
    {
      assert now[j] == now[pos..][j - pos] == s[pos..][j - pos] == low[..tail][j - pos];
    }
  }

  /** `ippsAESDecryptCBC_CS1`. */
  method DecryptCs1(c: Cipher, iv: Block, src: array<byte>, dst: array<byte>) returns (status: Status)
    requires src.Length == dst.Length
    modifies dst
    ensures status == if src.Length < SIZE then LengthErr else NoErr
    ensures dst[..] == if src.Length < SIZE then old(dst[..]) else Cs1Dec(c, iv, old(src[..]))
  {
    if src.Length < SIZE {
      return LengthErr;
    }
    if src.Length % SIZE == 0 {
      DecryptWhole(c, iv, src, dst);
    } else {
      DecryptFirst(c, iv, src, dst, src.Length % SIZE);
    }
    return NoErr;
  }

  /** `ippsAESDecryptCBC_CS2`. */
  method DecryptCs2(c: Cipher, iv: Block, src: array<byte>, dst: array<byte>) returns (status: Status)
    requires src.Length == dst.Length
    modifies dst
    ensures status == if src.Length < SIZE then LengthErr else NoErr
    ensures dst[..] == if src.Length < SIZE then old(dst[..]) else Cs2Dec(c, iv, old(src[..]))
  {
    if src.Length < SIZE {
      return LengthErr;
    }
    if src.Length % SIZE == 0 {
      DecryptWhole(c, iv, src, dst);
    } else {
      DecryptSwapped(c, iv, src, dst, src.Length % SIZE);
    }
    return NoErr;
  }

  /** `ippsAESDecryptCBC_CS3`. */
  method DecryptCs3(c: Cipher, iv: Block, src: array<byte>, dst: array<byte>) returns (status: Status)
    requires src.Length == dst.Length
    modifies dst
    ensures status == if src.Length <= SIZE then LengthErr else NoErr
    ensures dst[..] == if src.Length <= SIZE then old(dst[..]) else Cs3Dec(c, iv, old(src[..]))
  {
    if src.Length <= SIZE {
      return LengthErr;
    }
    DecryptSwapped(c, iv, src, dst, LastLength(src.Length));
    return NoErr;
  }
}
