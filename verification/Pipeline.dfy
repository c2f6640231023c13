/**
 * Decryption on 512-bit registers of four lanes. The pipelined loops are proved equal to the sequential chaining they replace, for
 * every number of blocks, whether the target is the source or another buffer.
 */
module Pipeline {
  import opened Blocks
  import Cbc
  import Cfb

  const LANES: nat := 4

  /** A register of four lanes. */
  datatype Zmm<L> = Zmm(a: L, b: L, c: L, d: L)
  {
    function Lanes(): (s: seq<L>)
      ensures |s| == LANES
    {
      [a, b, c, d]
    }
  }

  /** Chaining with one block of history: each output is made from the block before and the block itself. */
  function Sequential<L>(f: (L, L) -> L, iv: L, s: seq<L>): (r: seq<L>)
    ensures |r| == |s| && forall j :: 0 <= j < |s| ==> r[j] == f(if j == 0 then iv else s[j - 1], s[j])
  {
    if s == [] then [] else [f(iv, s[0])] + Sequential(f, s[0], s[1..])
  }

  function Last<L>(iv: L, s: seq<L>): L
  {
    if s == [] then iv else s[|s| - 1]
  }

  lemma {:induction false} SequentialAppend<L>(f: (L, L) -> L, iv: L, x: seq<L>, y: seq<L>)
    ensures Sequential(f, iv, x + y) == Sequential(f, iv, x) + Sequential(f, Last(iv, x), y)
  {
    if x == [] {
      assert x + y == y;
    } else {
      SequentialAppend(f, x[0], x[1..], y);
      assert (x + y)[1..] == x[1..] + y;
    }
  }

  /** `alignr_epi64` by an even number of quadwords: `hi` above `lo`, shifted down by that many. */
  function AlignR<L>(hi: Zmm<L>, lo: Zmm<L>, quads: nat): Zmm<L>
    requires quads % 2 == 0 && quads <= 8
  {
    var s, k := lo.Lanes() + hi.Lanes(), quads / 2;
    Zmm(s[k], s[k + 1], s[k + 2], s[k + 3])
  }

  /** The lanes of a register combined with those of another. */
  function Combine<L>(f: (L, L) -> L, x: Zmm<L>, y: Zmm<L>): Zmm<L>
  {
    Zmm(f(x.a, y.a), f(x.b, y.b), f(x.c, y.c), f(x.d, y.d))
  }

  /** One register: its outputs use the last lane of the register before it. */
  lemma RegisterIs<L>(f: (L, L) -> L, prev: Zmm<L>, x: Zmm<L>)
    ensures Combine(f, AlignR(x, prev, 6), x).Lanes() == Sequential(f, prev.d, x.Lanes())
  {
  }

  function Flat<L>(blk: seq<Zmm<L>>): (r: seq<L>)
    ensures |r| == LANES * |blk|
    decreases |blk|
  {
    if blk == [] then [] else blk[0].Lanes() + Flat(blk[1..])
  }

  lemma {:induction false} FlatSnoc<L>(blk: seq<Zmm<L>>, x: Zmm<L>)
    ensures Flat(blk + [x]) == Flat(blk) + x.Lanes()
    decreases |blk|
  {
    if blk == [] {
      assert blk + [x] == [x] && [x][1..] == blk;
    } else {
      FlatSnoc(blk[1..], x);
      assert (blk + [x])[1..] == blk[1..] + [x];
    }
  }

  /** Registers loaded from consecutive storage. */
  method LoadGroup<L>(src: array<L>, pos: nat, g: nat) returns (blk: seq<Zmm<L>>)
    requires pos + LANES * g <= src.Length
    ensures |blk| == g && Flat(blk) == src[pos..pos + LANES * g]
  {
    blk := [];
    for i: nat := 0 to g
      invariant |blk| == i && Flat(blk) == src[pos..pos + LANES * i]
    {
      var at := pos + LANES * i;
      var x := Zmm(src[at], src[at + 1], src[at + 2], src[at + 3]);
      FlatSnoc(blk, x);
      assert src[at..at + LANES] == x.Lanes();
      blk := blk + [x];
    }
  }

  /** The outputs of a group of registers, each aligned with the one before it and the first with the carried vector. */
  method Outputs<L>(f: (L, L) -> L, iv: Zmm<L>, blk: seq<Zmm<L>>) returns (out: seq<L>, next: Zmm<L>)
    ensures out == Sequential(f, iv.d, Flat(blk)) && next.d == Last(iv.d, Flat(blk))
  {
    out, next := [], iv;
    for i: nat := 0 to |blk|
      invariant out == Sequential(f, iv.d, Flat(blk[..i]))
      invariant next.d == Last(iv.d, Flat(blk[..i]))
    {
      var x := blk[i];
      assert blk[..i + 1] == blk[..i] + [x];
      FlatSnoc(blk[..i], x);
      SequentialAppend(f, iv.d, Flat(blk[..i]), x.Lanes());
      RegisterIs(f, next, x);
      out := out + Combine(f, AlignR(x, next, 6), x).Lanes();
      next := x;
    }
    assert blk[..|blk|] == blk;
  }

  /** One stage of a pipeline: `g` registers are loaded before any is stored, and the last becomes the next carried vector. */
  method Group<L>(f: (L, L) -> L, src: array<L>, dst: array<L>, pos: nat, g: nat, iv: Zmm<L>) returns (next: Zmm<L>)
    requires pos + LANES * g <= src.Length && src.Length == dst.Length
    modifies dst
    ensures dst[..] == Splice(old(dst[..]), pos, Sequential(f, iv.d, old(src[pos..pos + LANES * g])))
    ensures next.d == Last(iv.d, old(src[pos..pos + LANES * g]))
  {
    var blk := LoadGroup(src, pos, g);
    var out;
    out, next := Outputs(f, iv, blk);
    Store(dst, pos, out);
  }

  /** What the part done so far looks like, in either buffer. */
  ghost predicate Done<L>(f: (L, L) -> L, iv: L, s: seq<L>, d: seq<L>, src: seq<L>, dst: seq<L>, pos: nat, carried: L)
  {
    && pos <= |s| == |d| == |src| == |dst|
    && src[pos..] == s[pos..] && dst == Sequential(f, iv, s[..pos]) + d[pos..] && carried == Last(iv, s[..pos])
  }

  lemma DoneNext<L>(f: (L, L) -> L, iv: L, s: seq<L>, d: seq<L>, dst: seq<L>, pos: nat, carried: L, n: nat)
    requires Done(f, iv, s, d, s, dst, pos, carried) && pos + n <= |s|
    ensures Splice(dst, pos, Sequential(f, carried, s[pos..pos + n])) == Sequential(f, iv, s[..pos + n]) + d[pos + n..]
    ensures Last(carried, s[pos..pos + n]) == Last(iv, s[..pos + n])
  {
    SequentialAppend(f, iv, s[..pos], s[pos..pos + n]);
    assert s[..pos + n] == s[..pos] + s[pos..pos + n];
  }

  /** A stage inside the loop. */
  method Stage<L>(f: (L, L) -> L, src: array<L>, dst: array<L>, pos: nat, g: nat, carried: Zmm<L>,
                  ghost iv: L, ghost s: seq<L>, ghost d: seq<L>) returns (next: Zmm<L>)
    requires pos + LANES * g <= src.Length && src.Length == dst.Length && Done(f, iv, s, d, src[..], dst[..], pos, carried.d)
    modifies dst
    ensures Done(f, iv, s, d, src[..], dst[..], pos + LANES * g, next.d)
  {
    ghost var n := LANES * g;
    ghost var was := src[..];
    SameTail(was, s, pos, n);
    DoneNext(f, iv, s, d, dst[..], pos, carried.d, n);
    next := Group(f, src, dst, pos, g, carried);
    assert src[pos + n..] == was[pos + n..];
  }

  /**
   * The last one to three blocks: a register loaded under a mask, the lanes beyond it zero, aligned with the carried vector under the
   * same mask, and stored under it.
   */
  method Masked<L>(f: (L, L) -> L, src: array<L>, dst: array<L>, pos: nat, blocks: nat, carried: Zmm<L>, zero: L)
    requires blocks < LANES && pos + blocks == src.Length == dst.Length
    modifies dst
    ensures dst[..] == Splice(old(dst[..]), pos, Sequential(f, carried.d, old(src[pos..])))
  {
    var b0 := if blocks > 0 then src[pos] else zero;
    var b1 := if blocks > 1 then src[pos + 1] else zero;
    var b2 := if blocks > 2 then src[pos + 2] else zero;
    var x := Zmm(b0, b1, b2, zero);
    var z := AlignR(x, carried, 6);
    var masked := Zmm(if blocks > 0 then z.a else zero, if blocks > 1 then z.b else zero, if blocks > 2 then z.c else zero, zero);
    var out := Combine(f, masked, x);
    ghost var s := src[pos..];
    assert out.Lanes()[..blocks] == Sequential(f, carried.d, s);
    Store(dst, pos, out.Lanes()[..blocks]);
  }

  /**
   * The loop CBC and CFB decryption share: sixteen blocks a turn, then what is left in smaller stages.
   */
  method Decrypt<L>(f: (L, L) -> L, iv: L, zero: L, src: array<L>, dst: array<L>)
    requires src.Length == dst.Length
    modifies dst
    ensures dst[..] == Sequential(f, iv, old(src[..]))
  {
    ghost var s, d := src[..], dst[..];
    var carried := Zmm(zero, zero, zero, iv);
    var blocks, pos: nat := src.Length, 0;
    while blocks >= 4 * LANES
      invariant pos + blocks == src.Length && Done(f, iv, s, d, src[..], dst[..], pos, carried.d)
    {
      carried := Stage(f, src, dst, pos, 4, carried, iv, s, d);
      blocks, pos := blocks - 4 * LANES, pos + 4 * LANES;
    }
    FewBlocks(f, src, dst, pos, blocks, carried, zero, iv, s, d);
  }

  /** Fewer than sixteen blocks: at most one stage of twelve and one of eight, some of four, and the masked rest. */
  method FewBlocks<L>(f: (L, L) -> L, src: array<L>, dst: array<L>, from: nat, left: nat, vector: Zmm<L>, zero: L,
                      ghost iv: L, ghost s: seq<L>, ghost d: seq<L>)
    requires left < 4 * LANES && from + left == src.Length == dst.Length && Done(f, iv, s, d, src[..], dst[..], from, vector.d)
    modifies dst
    ensures dst[..] == Sequential(f, iv, s)
  {
    var carried, blocks, pos := vector, left, from;
    if 3 * LANES <= blocks {
      carried := Stage(f, src, dst, pos, 3, carried, iv, s, d);
      blocks, pos := blocks - 3 * LANES, pos + 3 * LANES;
    }
    if 2 * LANES <= blocks {
      carried := Stage(f, src, dst, pos, 2, carried, iv, s, d);
      blocks, pos := blocks - 2 * LANES, pos + 2 * LANES;
    }
    while blocks >= LANES
      invariant pos + blocks == src.Length && Done(f, iv, s, d, src[..], dst[..], pos, carried.d)
    {
      carried := Stage(f, src, dst, pos, 1, carried, iv, s, d);
      blocks, pos := blocks - LANES, pos + LANES;
    }
    Rest(f, src, dst, pos, blocks, carried, zero, iv, s, d);
  }

  method Rest<L>(f: (L, L) -> L, src: array<L>, dst: array<L>, pos: nat, blocks: nat, carried: Zmm<L>, zero: L,
                 ghost iv: L, ghost s: seq<L>, ghost d: seq<L>)
    requires blocks < LANES && pos + blocks == src.Length == dst.Length && Done(f, iv, s, d, src[..], dst[..], pos, carried.d)
    modifies dst
    ensures dst[..] == Sequential(f, iv, s)
  {
    SameTail(src[..], s, pos, blocks);
    DoneNext(f, iv, s, d, dst[..], pos, carried.d, blocks);
    assert s[pos..pos + blocks] == s[pos..] == src[pos..] && s[..pos + blocks] == s;
    if blocks > 0 {
      Masked(f, src, dst, pos, blocks, carried, zero);
    }
  }

  /** Concatenated blocks. */
  function Join(s: seq<Block>): (b: seq<byte>)
    ensures |b| == SIZE * |s|
  {
    if s == [] then [] else s[0] + Join(s[1..])
  }

  function CbcStep(c: Cipher): (Block, Block) -> Block
  {
    (prev: Block, x: Block) => Xor(c.dec(x), prev)
  }

  /** Block by block, this chaining is CBC decryption. */
  lemma {:induction false} SequentialIsCbc(c: Cipher, iv: Block, s: seq<Block>)
    ensures Join(Sequential(CbcStep(c), iv, s)) == Cbc.Decrypt(c, iv, Join(s))
    decreases |s|
  {
    if s == [] {
    } else {
      SequentialIsCbc(c, s[0], s[1..]);
      assert Join(s)[..SIZE] == s[0] && Join(s)[SIZE..] == Join(s[1..]);
      var r := Sequential(CbcStep(c), iv, s);
      assert r[0] == Xor(c.dec(s[0]), iv) && r[1..] == Sequential(CbcStep(c), s[0], s[1..]);
    }
  }

  /** `DecryptCBC_RIJ128pipe_VAES_NI`. */
  method DecryptCbc(c: Cipher, iv: Block, src: array<Block>, dst: array<Block>)
    requires src.Length == dst.Length
    modifies dst
    ensures Join(dst[..]) == Cbc.Decrypt(c, iv, Join(old(src[..])))
  {
    SequentialIsCbc(c, iv, src[..]);
    Decrypt(CbcStep(c), iv, Zeros(SIZE), src, dst);
  }

  function CfbStep(c: Cipher): (Block, Block) -> Block
  {
    (prev: Block, x: Block) => Xor(x, c.enc(prev))
  }

  /** `DecryptCFB128_RIJ128pipe_VAES_NI`. */
  method DecryptCfb128(c: Cipher, iv: Block, src: array<Block>, dst: array<Block>)
    requires src.Length == dst.Length
    modifies dst
    ensures dst[..] == Cfb.Decrypt(c, iv, old(src[..]))
  {
    SequentialIsCfb(c, iv, src[..]);
    Decrypt(CfbStep(c), iv, Zeros(SIZE), src, dst);
  }

  lemma {:induction false} SequentialIsCfb(c: Cipher, iv: Block, s: seq<Block>)
    ensures Sequential(CfbStep(c), iv, s) == Cfb.Decrypt(c, iv, s)
    decreases |s|
  {
    if s == [] {
    } else {
      SequentialIsCfb(c, s[0], s[1..]);
    }
  }
}
