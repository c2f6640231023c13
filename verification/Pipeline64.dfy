/**
 * CFB decryption with 64-bit segments on 512-bit registers: the shift register of every lane is rebuilt from the segments of two
 * neighbouring registers, so that four segments are decrypted at once.
 */
module Pipeline64 {
  import opened Blocks
  import opened Cfb
  import opened Pipeline

  /** One 128-bit lane as two halves. */
  datatype Lane = Lane(lo: Half, hi: Half)

  function Zero(): Half
  {
    seq(SIZE / 2, _ => 0)
  }

  /** `expandloadu` under the mask 10101010: segments go to the high halves. */
  function Expand(p: Half, q: Half, r: Half, s: Half): Zmm<Lane>
  {
    Zmm(Lane(Zero(), p), Lane(Zero(), q), Lane(Zero(), r), Lane(Zero(), s))
  }

  /** `unpackhi_epi64`: in every lane, the high halves of both registers. */
  function UnpackHi(x: Zmm<Lane>, y: Zmm<Lane>): Zmm<Lane>
  {
    Zmm(Lane(x.a.hi, y.a.hi), Lane(x.b.hi, y.b.hi), Lane(x.c.hi, y.c.hi), Lane(x.d.hi, y.d.hi))
  }

  function EncLane(c: Cipher, x: Lane): Lane
  {
    var e := c.enc(x.lo + x.hi);
    Lane(e[..SIZE / 2], e[SIZE / 2..])
  }

  function Enc(c: Cipher, x: Zmm<Lane>): Zmm<Lane>
  {
    Zmm(EncLane(c, x.a), EncLane(c, x.b), EncLane(c, x.c), EncLane(c, x.d))
  }

  /** `bsrli_epi128` by eight: the high half moves down. */
  function ShiftDown(x: Lane): Lane
  {
    Lane(x.hi, Zero())
  }

  function XorLane(x: Lane, y: Lane): Lane
  {
    Lane(XorHalf(x.lo, y.lo), XorHalf(x.hi, y.hi))
  }

  /** `compressstoreu` under the mask 01010101: the low halves. */
  function Compress(x: Zmm<Lane>): (s: seq<Half>)
    ensures |s| == LANES
  {
    [x.a.lo, x.b.lo, x.c.lo, x.d.lo]
  }

  function Highs(x: Zmm<Lane>): (s: seq<Half>)
    ensures |s| == LANES
  {
    [x.a.hi, x.b.hi, x.c.hi, x.d.hi]
  }

  /** The shift registers for the segments of `x`, rebuilt from two alignments with the register before. */
  function Rebuilt(x: Zmm<Lane>, prev: Zmm<Lane>): Zmm<Lane>
  {
    UnpackHi(AlignR(x, prev, 4), AlignR(x, prev, 6))
  }

  function Output(c: Cipher, x: Zmm<Lane>, z: Zmm<Lane>): Zmm<Lane>
  {
    var e := Enc(c, z);
    Zmm(XorLane(ShiftDown(x.a), e.a), XorLane(ShiftDown(x.b), e.b), XorLane(ShiftDown(x.c), e.c), XorLane(ShiftDown(x.d), e.d))
  }

  /** The leading halves that come out are the sequential decryption after the two segments the register before ends with. */
  lemma RegisterIs64(c: Cipher, prev: Zmm<Lane>, x: Zmm<Lane>)
    ensures Compress(Output(c, x, Rebuilt(x, prev))) == Decrypt64(c, prev.c.hi, prev.d.hi, Highs(x))
  {
    var s := Highs(x);
    var p, q := prev.c.hi, prev.d.hi;
    assert Decrypt64(c, p, q, s) == [XorHalf(s[0], Stream(c, p, q))] + Decrypt64(c, q, s[0], s[1..]);
    assert s[1..] == [s[1], s[2], s[3]];
    assert Decrypt64(c, q, s[0], s[1..]) == [XorHalf(s[1], Stream(c, q, s[0]))] + Decrypt64(c, s[0], s[1], s[1..][1..]);
    assert s[1..][1..] == [s[2], s[3]];
    assert Decrypt64(c, s[0], s[1], [s[2], s[3]]) == [XorHalf(s[2], Stream(c, s[0], s[1]))] + Decrypt64(c, s[1], s[2], [s[2], s[3]][1..]);
    assert [s[2], s[3]][1..] == [s[3]];
    assert Decrypt64(c, s[1], s[2], [s[3]]) == [XorHalf(s[3], Stream(c, s[1], s[2]))] + Decrypt64(c, s[2], s[3], [s[3]][1..]);
    assert [s[3]][1..] == [];
  }

  function Flat64(blk: seq<Zmm<Lane>>): (r: seq<Half>)
    ensures |r| == LANES * |blk|
    decreases |blk|
  {
    if blk == [] then [] else Highs(blk[0]) + Flat64(blk[1..])
  }

  lemma {:induction false} Flat64Snoc(blk: seq<Zmm<Lane>>, x: Zmm<Lane>)
    ensures Flat64(blk + [x]) == Flat64(blk) + Highs(x)
    decreases |blk|
  {
    if blk == [] {
      assert blk + [x] == [x] && [x][1..] == blk;
    } else {
      Flat64Snoc(blk[1..], x);
      assert (blk + [x])[1..] == blk[1..] + [x];
    }
  }

  method LoadGroup64(src: array<Half>, pos: nat, g: nat) returns (blk: seq<Zmm<Lane>>)
    requires pos + LANES * g <= src.Length
    ensures |blk| == g && Flat64(blk) == src[pos..pos + LANES * g]
  {
    blk := [];
    for i: nat := 0 to g
      invariant |blk| == i && Flat64(blk) == src[pos..pos + LANES * i]
    {
      var at := pos + LANES * i;
      var x := Expand(src[at], src[at + 1], src[at + 2], src[at + 3]);
      Flat64Snoc(blk, x);
      assert src[at..at + LANES] == Highs(x);
      blk := blk + [x];
    }
  }

  /** The high halves a register ends with are the last two segments. */
  ghost predicate Carries(v: Zmm<Lane>, h: (Half, Half))
  {
    v.c.hi == h.0 && v.d.hi == h.1
  }

  method Outputs64(c: Cipher, iv: Zmm<Lane>, blk: seq<Zmm<Lane>>) returns (out: seq<Half>, next: Zmm<Lane>)
    ensures out == Decrypt64(c, iv.c.hi, iv.d.hi, Flat64(blk)) && Carries(next, History(iv.c.hi, iv.d.hi, Flat64(blk)))
  {
    ghost var p, q := iv.c.hi, iv.d.hi;
    out, next := [], iv;
    for i: nat := 0 to |blk|
      invariant out == Decrypt64(c, p, q, Flat64(blk[..i])) && Carries(next, History(p, q, Flat64(blk[..i])))
    {
      var x := blk[i];
      assert blk[..i + 1] == blk[..i] + [x];
      Flat64Snoc(blk[..i], x);
      Decrypt64Append(c, p, q, Flat64(blk[..i]), Highs(x));
      RegisterIs64(c, next, x);
      out := out + Compress(Output(c, x, Rebuilt(x, next)));
      next := x;
    }
    assert blk[..|blk|] == blk;
  }

  method Group64(c: Cipher, src: array<Half>, dst: array<Half>, pos: nat, g: nat, iv: Zmm<Lane>) returns (next: Zmm<Lane>)
    requires pos + LANES * g <= src.Length && src.Length == dst.Length
    modifies dst
    ensures dst[..] == Splice(old(dst[..]), pos, Decrypt64(c, iv.c.hi, iv.d.hi, old(src[pos..pos + LANES * g])))
    ensures Carries(next, History(iv.c.hi, iv.d.hi, old(src[pos..pos + LANES * g])))
  {
    var blk := LoadGroup64(src, pos, g);
    var out;
    out, next := Outputs64(c, iv, blk);
    Store(dst, pos, out);
  }

  ghost predicate Done64(c: Cipher, p: Half, q: Half, s: seq<Half>, d: seq<Half>, src: seq<Half>, dst: seq<Half>, pos: nat,
                         v: Zmm<Lane>)
  {
    && pos <= |s| == |d| == |src| == |dst|
    && src[pos..] == s[pos..] && dst == Decrypt64(c, p, q, s[..pos]) + d[pos..] && Carries(v, History(p, q, s[..pos]))
  }

  lemma DoneNext64(c: Cipher, p: Half, q: Half, s: seq<Half>, d: seq<Half>, dst: seq<Half>, pos: nat, v: Zmm<Lane>, n: nat)
    requires Done64(c, p, q, s, d, s, dst, pos, v) && pos + n <= |s|
    ensures Splice(dst, pos, Decrypt64(c, v.c.hi, v.d.hi, s[pos..pos + n])) == Decrypt64(c, p, q, s[..pos + n]) + d[pos + n..]
    ensures History(v.c.hi, v.d.hi, s[pos..pos + n]) == History(p, q, s[..pos + n])
  {
    Decrypt64Append(c, p, q, s[..pos], s[pos..pos + n]);
    assert s[..pos + n] == s[..pos] + s[pos..pos + n];
  }

  method Stage64(c: Cipher, src: array<Half>, dst: array<Half>, pos: nat, g: nat, carried: Zmm<Lane>,
                 ghost p: Half, ghost q: Half, ghost s: seq<Half>, ghost d: seq<Half>) returns (next: Zmm<Lane>)
    requires pos + LANES * g <= src.Length && src.Length == dst.Length && Done64(c, p, q, s, d, src[..], dst[..], pos, carried)
    modifies dst
    ensures Done64(c, p, q, s, d, src[..], dst[..], pos + LANES * g, next)
  {
    ghost var n := LANES * g;
    ghost var was := src[..];
    SameTail(was, s, pos, n);
    DoneNext64(c, p, q, s, d, dst[..], pos, carried, n);
    next := Group64(c, src, dst, pos, g, carried);
    assert src[pos + n..] == was[pos + n..];
  }

  /** `maskz`: lanes from `n` on are cleared. */
  function MaskLanes(z: Zmm<Lane>, n: nat): Zmm<Lane>
  {
    var none := Lane(Zero(), Zero());
    Zmm(if n > 0 then z.a else none, if n > 1 then z.b else none, if n > 2 then z.c else none, if n > 3 then z.d else none)
  }

  /** Clearing registers beyond the mask does not change what is stored under it. */
  lemma MaskedRegister(c: Cipher, prev: Zmm<Lane>, x: Zmm<Lane>, n: nat)
    requires n < LANES
    ensures Compress(Output(c, x, MaskLanes(Rebuilt(x, prev), n)))[..n] == Decrypt64(c, prev.c.hi, prev.d.hi, Highs(x)[..n])
  {
    var z := Rebuilt(x, prev);
    RegisterIs64(c, prev, x);
    Decrypt64Append(c, prev.c.hi, prev.d.hi, Highs(x)[..n], Highs(x)[n..]);
    assert Highs(x) == Highs(x)[..n] + Highs(x)[n..];
    assert Compress(Output(c, x, MaskLanes(z, n)))[..n] == Compress(Output(c, x, z))[..n];
  }

  method LoadMasked64(src: array<Half>, pos: nat, blocks: nat) returns (x: Zmm<Lane>)
    requires blocks < LANES && pos + blocks == src.Length
    ensures Highs(x)[..blocks] == src[pos..]
  {
    x := Expand(if blocks > 0 then src[pos] else Zero(), if blocks > 1 then src[pos + 1] else Zero(),
                if blocks > 2 then src[pos + 2] else Zero(), Zero());
  }

  /** The last one to three segments: loaded, rebuilt and stored under masks. */
  method Masked64(c: Cipher, src: array<Half>, dst: array<Half>, pos: nat, blocks: nat, carried: Zmm<Lane>)
    requires blocks < LANES && pos + blocks == src.Length == dst.Length
    modifies dst
    ensures dst[..] == Splice(old(dst[..]), pos, Decrypt64(c, carried.c.hi, carried.d.hi, old(src[pos..])))
  {
    var x := LoadMasked64(src, pos, blocks);
    MaskedRegister(c, carried, x, blocks);
    Store(dst, pos, Compress(Output(c, x, MaskLanes(Rebuilt(x, carried), blocks)))[..blocks]);
  }

  /**
   * `DecryptCFB64_RIJ128pipe_VAES_NI`. The vector built from the initial vector holds its two halves where a register would hold its
   * last two segments.
   */
  method DecryptCfb64(c: Cipher, iv: Block, src: array<Half>, dst: array<Half>)
    requires src.Length == dst.Length
    modifies dst
    ensures dst[..] == Decrypt64(c, iv[..SIZE / 2], iv[SIZE / 2..], old(src[..]))
    ensures forall j :: 0 <= j < src.Length ==> dst[..][j] == XorHalf(old(src[..])[j], c.enc(Register(iv, old(src[..]), j))[..8])
  {
    var p: Half, q: Half := iv[..SIZE / 2], iv[SIZE / 2..];
    ghost var s, d := src[..], dst[..];
    var carried := Zmm(Lane(Zero(), Zero()), Lane(Zero(), Zero()), Lane(q, p), Lane(p, q));
    var blocks, pos: nat := src.Length, 0;
    while blocks >= 4 * LANES
      invariant pos + blocks == src.Length && Done64(c, p, q, s, d, src[..], dst[..], pos, carried)
    {
      carried := Stage64(c, src, dst, pos, 4, carried, p, q, s, d);
      blocks, pos := blocks - 4 * LANES, pos + 4 * LANES;
    }
    FewSegments(c, src, dst, pos, blocks, carried, p, q, s, d);
    assert iv == p + q;
    forall j | 0 <= j < |s|
      ensures dst[..][j] == XorHalf(s[j], c.enc(Register(iv, s, j))[..8])
    {
      Decrypt64Is(c, p, q, s, j);
    }
  }

  method FewSegments(c: Cipher, src: array<Half>, dst: array<Half>, from: nat, left: nat, vector: Zmm<Lane>,
                     ghost p: Half, ghost q: Half, ghost s: seq<Half>, ghost d: seq<Half>)
    requires left < 4 * LANES && from + left == src.Length == dst.Length && Done64(c, p, q, s, d, src[..], dst[..], from, vector)
    modifies dst
    ensures dst[..] == Decrypt64(c, p, q, s)
  {
    var carried, blocks, pos := vector, left, from;
    if 3 * LANES <= blocks {
      carried := Stage64(c, src, dst, pos, 3, carried, p, q, s, d);
      blocks, pos := blocks - 3 * LANES, pos + 3 * LANES;
    }
    if 2 * LANES <= blocks {
      carried := Stage64(c, src, dst, pos, 2, carried, p, q, s, d);
      blocks, pos := blocks - 2 * LANES, pos + 2 * LANES;
    }
    while blocks >= LANES
      invariant pos + blocks == src.Length && Done64(c, p, q, s, d, src[..], dst[..], pos, carried)
    {
      carried := Stage64(c, src, dst, pos, 1, carried, p, q, s, d);
      blocks, pos := blocks - LANES, pos + LANES;
    }
    RestOfSegments(c, src, dst, pos, blocks, carried, p, q, s, d);
  }

  method RestOfSegments(c: Cipher, src: array<Half>, dst: array<Half>, pos: nat, blocks: nat, carried: Zmm<Lane>,
                        ghost p: Half, ghost q: Half, ghost s: seq<Half>, ghost d: seq<Half>)
    requires blocks < LANES && pos + blocks == src.Length == dst.Length && Done64(c, p, q, s, d, src[..], dst[..], pos, carried)
    modifies dst
    ensures dst[..] == Decrypt64(c, p, q, s)
  {
    SameTail(src[..], s, pos, blocks);
    DoneNext64(c, p, q, s, d, dst[..], pos, carried, blocks);
    assert s[pos..pos + blocks] == s[pos..] == src[pos..] && s[..pos + blocks] == s;
    if blocks > 0 {
      Masked64(c, src, dst, pos, blocks, carried);
    }
  }
}
