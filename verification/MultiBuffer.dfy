/**
 * CFB encryption of several buffers at once. Each register lane carries one buffer; four blocks of each are transposed so that a
 * register holds one block of every buffer, and transposed back before they are stored under masks.
 */
module MultiBuffer {
  import opened Arith
  import Bits
  import opened Blocks
  import opened Cfb
  import opened Pipeline

  /** One buffer with its key and initial vector. */
  datatype Buffer = Buffer(c: Cipher, iv: Block, src: array<Block>, dst: array<Block>)

  /** The same lane of four registers, gathered into one. */
  function Transpose(x: (Zmm<Block>, Zmm<Block>, Zmm<Block>, Zmm<Block>)): (Zmm<Block>, Zmm<Block>, Zmm<Block>, Zmm<Block>)
  {
    (Zmm(x.0.a, x.1.a, x.2.a, x.3.a), Zmm(x.0.b, x.1.b, x.2.b, x.3.b),
     Zmm(x.0.c, x.1.c, x.2.c, x.3.c), Zmm(x.0.d, x.1.d, x.2.d, x.3.d))
  }

  /** `shuffle_i64x2`: two lanes of each operand, chosen by two bits of the immediate each. */
  function Shuffle(x: Zmm<Block>, y: Zmm<Block>, imm: nat): Zmm<Block>
  {
    Zmm(x.Lanes()[imm % 4], x.Lanes()[imm / 4 % 4], y.Lanes()[imm / 16 % 4], y.Lanes()[imm / 64 % 4])
  }

  /** `TRANSPOSE_4x4_I128`. */
  function Shuffled(x: (Zmm<Block>, Zmm<Block>, Zmm<Block>, Zmm<Block>)): (Zmm<Block>, Zmm<Block>, Zmm<Block>, Zmm<Block>)
  {
    var t0, t1 := Shuffle(x.0, x.1, 0x44), Shuffle(x.2, x.3, 0x44);
    var t2, t3 := Shuffle(x.0, x.1, 0xEE), Shuffle(x.2, x.3, 0xEE);
    (Shuffle(t0, t1, 0x88), Shuffle(t0, t1, 0xDD), Shuffle(t2, t3, 0x88), Shuffle(t2, t3, 0xDD))
  }

  /** The eight shuffles transpose. */
  lemma ShuffledIs(x: (Zmm<Block>, Zmm<Block>, Zmm<Block>, Zmm<Block>))
    ensures Shuffled(x) == Transpose(x)
  {
    var t0, t2 := Shuffle(x.0, x.1, 0x44), Shuffle(x.0, x.1, 0xEE);
    var t1, t3 := Shuffle(x.2, x.3, 0x44), Shuffle(x.2, x.3, 0xEE);
    assert t0 == Zmm(x.0.a, x.0.b, x.1.a, x.1.b) && t2 == Zmm(x.0.c, x.0.d, x.1.c, x.1.d);
    assert t1 == Zmm(x.2.a, x.2.b, x.3.a, x.3.b) && t3 == Zmm(x.2.c, x.2.d, x.3.c, x.3.d);
  }

  /** Every lane encrypted under its own key. */
  function EncLanes(k: Zmm<Cipher>, x: Zmm<Block>): Zmm<Block>
  {
    Zmm(k.a.enc(x.a), k.b.enc(x.b), k.c.enc(x.c), k.d.enc(x.d))
  }

  function XorLanes(x: Zmm<Block>, y: Zmm<Block>): Zmm<Block>
  {
    Zmm(Xor(x.a, y.a), Xor(x.b, y.b), Xor(x.c, y.c), Xor(x.d, y.d))
  }

  lemma FourBlocks(c: Cipher, iv: Block, x: Zmm<Block>)
    ensures var y0 := Xor(x.a, c.enc(iv)); var y1 := Xor(x.b, c.enc(y0)); var y2 := Xor(x.c, c.enc(y1)); var y3 := Xor(x.d, c.enc(y2));
            Encrypt(c, iv, x.Lanes()) == [y0, y1, y2, y3]
  {
    var y0 := Xor(x.a, c.enc(iv));
    var y1 := Xor(x.b, c.enc(y0));
    var y2 := Xor(x.c, c.enc(y1));
    assert x.Lanes()[1..] == [x.b, x.c, x.d];
    assert [x.b, x.c, x.d][1..] == [x.c, x.d] && [x.c, x.d][1..] == [x.d] && [x.d][1..] == [];
    assert Encrypt(c, y2, [x.d]) == [Xor(x.d, c.enc(y2))] + Encrypt(c, Xor(x.d, c.enc(y2)), [x.d][1..]);
    assert Encrypt(c, y1, [x.c, x.d]) == [y2] + Encrypt(c, y2, [x.d]);
    assert Encrypt(c, y0, [x.b, x.c, x.d]) == [y1] + Encrypt(c, y1, [x.c, x.d]);
  }

  /** Four blocks of four buffers: each lane is ordinary CFB of its own buffer, and the chaining register holds the last blocks. */
  method Round(k: Zmm<Cipher>, chip: Zmm<Block>, x: (Zmm<Block>, Zmm<Block>, Zmm<Block>, Zmm<Block>))
    returns (y: (Zmm<Block>, Zmm<Block>, Zmm<Block>, Zmm<Block>), next: Zmm<Block>)
    ensures y.0.Lanes() == Encrypt(k.a, chip.a, x.0.Lanes()) && y.1.Lanes() == Encrypt(k.b, chip.b, x.1.Lanes())
    ensures y.2.Lanes() == Encrypt(k.c, chip.c, x.2.Lanes()) && y.3.Lanes() == Encrypt(k.d, chip.d, x.3.Lanes())
    ensures next == Zmm(y.0.d, y.1.d, y.2.d, y.3.d)
  {
    var t := Shuffled(x);
    ShuffledIs(x);
    var b0 := XorLanes(t.0, EncLanes(k, chip));
    var b1 := XorLanes(t.1, EncLanes(k, b0));
    var b2 := XorLanes(t.2, EncLanes(k, b1));
    var b3 := XorLanes(t.3, EncLanes(k, b2));
    y, next := Shuffled((b0, b1, b2, b3)), b3;
    ShuffledIs((b0, b1, b2, b3));
    FourBlocks(k.a, chip.a, x.0);
    FourBlocks(k.b, chip.b, x.1);
    FourBlocks(k.c, chip.c, x.2);
    FourBlocks(k.d, chip.d, x.3);
  }

  /** How many of the next four blocks a buffer still has. */
  function Left(n: nat, pos: nat): (m: nat)
    ensures m <= LANES
  {
    if n < pos then 0 else if n - pos < LANES then n - pos else LANES
  }

  lemma {:induction false} EncryptAppend(c: Cipher, iv: Block, x: seq<Block>, y: seq<Block>)
    ensures Encrypt(c, iv, x + y) == Encrypt(c, iv, x) + Encrypt(c, Last(iv, Encrypt(c, iv, x)), y)
    decreases |x|
  {
    if x == [] {
      assert x + y == y;
    } else {
      var b := Xor(x[0], c.enc(iv));
      EncryptAppend(c, b, x[1..], y);
      assert (x + y)[1..] == x[1..] + y;
      assert Last(iv, Encrypt(c, iv, x)) == Last(b, Encrypt(c, b, x[1..]));
    }
  }

  /** How far a buffer has got after `pos` blocks: finished buffers stay as they are. */
  ghost predicate Progress(b: Buffer, s: seq<Block>, d: seq<Block>, pos: nat, chip: Block)
    reads b.src, b.dst
  {
    var p := if pos < |s| then pos else |s|;
    && b.src.Length == b.dst.Length == |s| == |d|
    && b.src[p..] == s[p..] && b.dst[..] == Encrypt(b.c, b.iv, s[..p]) + d[p..]
    && (pos < |s| ==> chip == Last(b.iv, Encrypt(b.c, b.iv, s[..p])))
  }

  /** What a lane still has to do: its length in quadwords, negative once it is past its end, and its mask of quadwords. */
  datatype Remaining = Remaining(len64: int, mask: nat)

  /** The mask a lane starts with. */
  function FirstMask(len64: nat): nat
  {
    if len64 < 8 then (Pow(2, len64) - 1) % 0x100 else 0xFF
  }

  /** `UPDATE_MASK`. */
  function UpdateMask(len64: int, mask: nat): nat
  {
    if 0 <= len64 < 8 then (Pow(2, len64) - 1) % 0x100 else if len64 < 0 then 0 else mask
  }

  /** Length and mask of a lane whose buffer has `n` blocks, after `pos` of them. */
  ghost predicate Tracks(r: Remaining, n: nat, pos: nat)
  {
    r.len64 == 2 * n - 2 * pos && r.mask == Pow(2, 2 * Left(n, pos)) - 1
  }

  lemma MaskPowers()
    ensures Pow(2, 0) == 1 && Pow(2, 2) == 4 && Pow(2, 4) == 16 && Pow(2, 6) == 64 && Pow(2, 8) == 256
  {
    assert Pow(2, 1) == 2 && Pow(2, 3) == 8 && Pow(2, 5) == 32 && Pow(2, 7) == 128;
  }

  lemma FirstTracks(n: nat)
    ensures Tracks(Remaining(2 * n, FirstMask(2 * n)), n, 0) && Tracks(Remaining(0, 0), 0, 0)
  {
    MaskPowers();
    assert n == 0 || n == 1 || n == 2 || n == 3 || n >= 4;
  }

  /** The macro keeps the mask right, whole, partial or empty. */
  lemma NextTracks(r: Remaining, n: nat, pos: nat)
    requires Tracks(r, n, pos)
    ensures Tracks(Remaining(r.len64 - 8, UpdateMask(r.len64 - 8, r.mask)), n, pos + LANES)
  {
    MaskPowers();
    var m := n - pos - LANES;
    assert m < 0 || m == 0 || m == 1 || m == 2 || m == 3 || m >= 4;
  }

  /** Whole blocks are under the mask or outside it. */
  lemma MaskBits(r: Remaining, n: nat, pos: nat, i: nat)
    requires Tracks(r, n, pos)
    ensures Bits.Bit(r.mask, 2 * i) == Bits.Bit(r.mask, 2 * i + 1) == (i < Left(n, pos))
  {
    Bits.AllOnes(2 * Left(n, pos), 2 * i);
    Bits.AllOnes(2 * Left(n, pos), 2 * i + 1);
  }

  /** A block of which some quadwords are taken from `x` and the others from `z`. */
  function Quads(lo: bool, hi: bool, x: Block, z: Block): Block
  {
    (if lo then x else z)[..SIZE / 2] + (if hi then x else z)[SIZE / 2..]
  }

  lemma WholeBlock(x: Block, z: Block)
    ensures Quads(true, true, x, z) == x
  {
  }

  /** One lane of a load under a mask: quadwords outside it are not read. */
  method LoadQuads(src: array<Block>, pos: nat, i: nat, r: Remaining) returns (x: Block)
    requires Tracks(r, src.Length, pos) && i < LANES
    ensures i < Left(src.Length, pos) ==> x == src[pos + i]
  {
    MaskBits(r, src.Length, pos, i);
    var lo, hi := Bits.Bit(r.mask, 2 * i), Bits.Bit(r.mask, 2 * i + 1);
    var zero: Block := Zeros(SIZE);
    x := zero;
    if lo || hi {
      WholeBlock(src[pos + i], zero);
      x := Quads(lo, hi, src[pos + i], zero);
    }
  }

  /** The next four blocks of a buffer under a mask. */
  method LoadMasked(b: Buffer, pos: nat, r: Remaining) returns (x: Zmm<Block>)
    requires Tracks(r, b.src.Length, pos)
    ensures var m := Left(b.src.Length, pos); m > 0 ==> x.Lanes()[..m] == b.src[pos..pos + m]
  {
    var x0 := LoadQuads(b.src, pos, 0, r);
    var x1 := LoadQuads(b.src, pos, 1, r);
    var x2 := LoadQuads(b.src, pos, 2, r);
    var x3 := LoadQuads(b.src, pos, 3, r);
    x := Zmm(x0, x1, x2, x3);
  }

  /** One lane of a store under a mask. */
  method StoreQuads(dst: array<Block>, pos: nat, i: nat, y: Block, r: Remaining)
    requires Tracks(r, dst.Length, pos) && i < LANES
    modifies dst
    ensures dst[..] == if i < Left(dst.Length, pos) then old(dst[..])[pos + i := y] else old(dst[..])
  {
    MaskBits(r, dst.Length, pos, i);
    var lo, hi := Bits.Bit(r.mask, 2 * i), Bits.Bit(r.mask, 2 * i + 1);
    if lo || hi {
      WholeBlock(y, dst[pos + i]);
      dst[pos + i] := Quads(lo, hi, y, dst[pos + i]);
    }
  }

  /** The first `i` of the blocks `b` written; none may be there to write, beyond the end. */
  ghost function Partly(s: seq<Block>, pos: nat, b: seq<Block>, i: nat): (r: seq<Block>)
    requires |b| > 0 ==> pos + |b| <= |s|
    ensures |r| == |s|
  {
    if |b| == 0 then s else Splice(s, pos, b[..if i < |b| then i else |b|])
  }

  lemma PartlyNext(s: seq<Block>, pos: nat, b: seq<Block>, i: nat)
    requires |b| > 0 ==> pos + |b| <= |s|
    ensures Partly(s, pos, b, 0) == s && (|b| <= i ==> Partly(s, pos, b, i) == if |b| == 0 then s else Splice(s, pos, b))
    ensures Partly(s, pos, b, i + 1) == if i < |b| then Partly(s, pos, b, i)[pos + i := b[i]] else Partly(s, pos, b, i)
  {
    if |b| > 0 {
      assert Splice(s, pos, b[..0]) == s && b[..|b|] == b;
    }
    if i < |b| {
      SpliceNext(s, pos, b, i);
    }
  }

  /** A register stored under a mask: as many blocks as the buffer still has, and nothing at all once it is finished. */
  method StoreUnder(dst: array<Block>, pos: nat, y: Zmm<Block>, r: Remaining)
    requires Tracks(r, dst.Length, pos)
    modifies dst
    ensures var m := Left(dst.Length, pos);
            dst[..] == if m == 0 then old(dst[..]) else Splice(old(dst[..]), pos, y.Lanes()[..m])
  {
    hide Partly;
    ghost var was, b := dst[..], y.Lanes()[..Left(dst.Length, pos)];
    PartlyNext(was, pos, b, 0);
    for i: nat := 0 to LANES
      invariant dst[..] == Partly(was, pos, b, i)
    {
      PartlyNext(was, pos, b, i);
      StoreQuads(dst, pos, i, y.Lanes()[i], r);
    }
    PartlyNext(was, pos, b, LANES);
  }

  /** Storing a lane under its mask advances its buffer and no other. */
  method StoreMasked(b: Buffer, pos: nat, y: Zmm<Block>, r: Remaining, ghost x: Zmm<Block>, ghost s: seq<Block>, ghost d: seq<Block>,
                     ghost chip: Block)
    requires Progress(b, s, d, pos, chip) && y.Lanes() == Encrypt(b.c, chip, x.Lanes()) && Tracks(r, b.src.Length, pos)
    requires Left(|s|, pos) > 0 ==> x.Lanes()[..Left(|s|, pos)] == s[pos..pos + Left(|s|, pos)]
    modifies b.dst
    ensures Progress(b, s, d, pos + LANES, y.d)
  {
    hide Encrypt;
    ghost var m, was := Left(b.src.Length, pos), b.src[..];
    if m > 0 {
      SameTail(was, s, pos, m);
      StoredIs(b.c, b.iv, s, d, b.dst[..], pos, chip, x, y, m);
    }
    StoreUnder(b.dst, pos, y, r);
    assert m > 0 ==> b.src[pos + m..] == was[pos + m..];
  }

  lemma StoredIs(c: Cipher, iv: Block, s: seq<Block>, d: seq<Block>, dst: seq<Block>, pos: nat, chip: Block,
                 x: Zmm<Block>, y: Zmm<Block>, m: nat)
    requires 0 < m <= LANES && pos + m <= |s| == |d| && dst == Encrypt(c, iv, s[..pos]) + d[pos..]
    requires chip == Last(iv, Encrypt(c, iv, s[..pos])) && y.Lanes() == Encrypt(c, chip, x.Lanes())
    requires x.Lanes()[..m] == s[pos..pos + m]
    ensures Splice(dst, pos, y.Lanes()[..m]) == Encrypt(c, iv, s[..pos + m]) + d[pos + m..]
    ensures m == LANES ==> y.d == Last(iv, Encrypt(c, iv, s[..pos + m]))
  {
    EncryptAppend(c, iv, s[..pos], s[pos..pos + m]);
    assert s[..pos + m] == s[..pos] + s[pos..pos + m];
    EncryptAppend(c, chip, x.Lanes()[..m], x.Lanes()[m..]);
    assert x.Lanes() == x.Lanes()[..m] + x.Lanes()[m..];
    assert y.Lanes()[..m] == Encrypt(c, chip, s[pos..pos + m]);
    if m == LANES {
      assert y.Lanes()[3] == y.d && y.Lanes()[..m] == y.Lanes();
    }
  }

  /** Every buffer has a target of its own, which no other buffer reads. */
  ghost predicate Separate(bufs: seq<Buffer>)
  {
    && (forall i :: 0 <= i < |bufs| ==> bufs[i].src.Length == bufs[i].dst.Length)
    && (forall i, j :: 0 <= i < |bufs| && 0 <= j < |bufs| && i != j ==> bufs[i].dst != bufs[j].dst && bufs[i].src != bufs[j].dst)
  }

  ghost function Targets(bufs: seq<Buffer>): set<object>
  {
    set i | 0 <= i < |bufs| :: bufs[i].dst
  }

  /** Contents on entry. */
  ghost predicate Snapshot(bufs: seq<Buffer>, s: seq<seq<Block>>, d: seq<seq<Block>>)
  {
    |s| == |d| == |bufs|
  }

  /** The first `done` buffers have advanced by a step, the others have not; `chip` holds every lane. */
  ghost predicate AllAt(bufs: seq<Buffer>, s: seq<seq<Block>>, d: seq<seq<Block>>, pos: nat, done: nat, step: nat, chip: seq<Block>)
    requires Snapshot(bufs, s, d) && |bufs| <= |chip|
    reads set i | 0 <= i < |bufs| :: bufs[i].src, set i | 0 <= i < |bufs| :: bufs[i].dst
  {
    forall i :: 0 <= i < |bufs| ==> Progress(bufs[i], s[i], d[i], if i < done then pos + step else pos, chip[i])
  }

  /** Lanes without a buffer count as empty ones. */
  function Count(bufs: seq<Buffer>, i: nat): nat
  {
    if i < |bufs| then bufs[i].src.Length else 0
  }

  /** Lengths and masks of all lanes, of which the first `done` have moved on. */
  ghost predicate AllTrack(bufs: seq<Buffer>, lanes: seq<Remaining>, pos: nat, done: nat)
  {
    forall i :: 0 <= i < |lanes| ==> Tracks(lanes[i], Count(bufs, i), if i < done then pos + LANES else pos)
  }

  lemma EmptyMask(r: Remaining, pos: nat)
    requires Tracks(r, 0, pos)
    ensures r.mask == 0
  {
    assert Pow(2, 0) == 1;
  }

  lemma NothingLeft(r: Remaining, n: nat, pos: nat)
    requires Tracks(r, n, pos) && r.mask == 0
    ensures Left(n, pos) == 0
  {
    MaskPowers();
  }

  /** The four registers of one group of lanes; lanes with an empty mask are left zero. */
  method LoadGroupOf(bufs: seq<Buffer>, at: nat, pos: nat, lanes: seq<Remaining>) returns (x: seq<Zmm<Block>>)
    requires at + LANES <= |lanes| && AllTrack(bufs, lanes, pos, at)
    ensures |x| == LANES
    ensures forall i :: 0 <= i < LANES && at + i < |bufs| ==>
      var b := bufs[at + i]; var m := Left(b.src.Length, pos); m > 0 ==> x[i].Lanes()[..m] == b.src[pos..pos + m]
  {
    x := [];
    var zero: Block := Zeros(SIZE);
    for i: nat := 0 to LANES
      invariant |x| == i
      invariant forall j :: 0 <= j < i && at + j < |bufs| ==>
        var b := bufs[at + j]; var m := Left(b.src.Length, pos); m > 0 ==> x[j].Lanes()[..m] == b.src[pos..pos + m]
    {
      var r, k := Zmm(zero, zero, zero, zero), lanes[at + i];
      if at + i >= |bufs| {
        EmptyMask(k, pos);
      }
      if k.mask != 0 {
        r := LoadMasked(bufs[at + i], pos, k);
      } else {
        NothingLeft(k, Count(bufs, at + i), pos);
      }
      x := x + [r];
    }
  }

  /** What was loaded, in terms of the contents on entry. */
  lemma LoadedIs(b: Buffer, s: seq<Block>, d: seq<Block>, pos: nat, chip: Block, x: Zmm<Block>)
    requires Progress(b, s, d, pos, chip)
    requires var m := Left(b.src.Length, pos); m > 0 ==> x.Lanes()[..m] == b.src[pos..pos + m]
    ensures var m := Left(|s|, pos); m > 0 ==> x.Lanes()[..m] == s[pos..pos + m]
  {
    var m := Left(|s|, pos);
    if m > 0 {
      SameTail(b.src[..], s, pos, m);
    }
  }

  function KeyAt(bufs: seq<Buffer>, i: nat): Cipher
  {
    if i < |bufs| then bufs[i].c else Cipher(x => x, x => x)
  }

  /** The loaded blocks of a group, in terms of the contents on entry. */
  ghost predicate Loaded(bufs: seq<Buffer>, s: seq<seq<Block>>, at: nat, pos: nat, x: seq<Zmm<Block>>)
    requires |s| == |bufs| && |x| == LANES
  {
    forall i :: 0 <= i < LANES && at + i < |bufs| ==>
      var m := Left(|s[at + i]|, pos); m > 0 ==> x[i].Lanes()[..m] == s[at + i][pos..pos + m]
  }

  method LoadAll(bufs: seq<Buffer>, at: nat, pos: nat, lanes: seq<Remaining>, ghost chips: seq<Block>, ghost s: seq<seq<Block>>,
                 ghost d: seq<seq<Block>>)
    returns (x: seq<Zmm<Block>>)
    requires at + LANES <= |lanes| && AllTrack(bufs, lanes, pos, at)
    requires Snapshot(bufs, s, d) && |bufs| <= |chips| && AllAt(bufs, s, d, pos, at, LANES, chips)
    ensures |x| == LANES && Loaded(bufs, s, at, pos, x)
  {
    x := LoadGroupOf(bufs, at, pos, lanes);
    forall i | 0 <= i < LANES && at + i < |bufs|
      ensures var m := Left(|s[at + i]|, pos); m > 0 ==> x[i].Lanes()[..m] == s[at + i][pos..pos + m]
    {
      LoadedIs(bufs[at + i], s[at + i], d[at + i], pos, chips[at + i], x[i]);
    }
  }

  /** A group of lanes computed, each its own CFB. */
  ghost predicate Computed(bufs: seq<Buffer>, at: nat, chips: seq<Block>, x: seq<Zmm<Block>>, y: seq<Zmm<Block>>)
    requires |x| == |y| == LANES && at + LANES <= |chips|
  {
    forall i :: 0 <= i < LANES ==> y[i].Lanes() == Encrypt(KeyAt(bufs, at + i), chips[at + i], x[i].Lanes())
  }

  method ComputeGroup(bufs: seq<Buffer>, at: nat, chips: seq<Block>, x: seq<Zmm<Block>>) returns (y: seq<Zmm<Block>>)
    requires |x| == LANES && at + LANES <= |chips|
    ensures |y| == LANES && Computed(bufs, at, chips, x, y)
  {
    var k := Zmm(KeyAt(bufs, at), KeyAt(bufs, at + 1), KeyAt(bufs, at + 2), KeyAt(bufs, at + 3));
    var lanes := Zmm(chips[at], chips[at + 1], chips[at + 2], chips[at + 3]);
    var r, next := Round(k, lanes, (x[0], x[1], x[2], x[3]));
    y := [r.0, r.1, r.2, r.3];
  }

  /** Four blocks of the four buffers of one group. */
  method GroupRound(bufs: seq<Buffer>, at: nat, pos: nat, chips: seq<Block>, lanes: seq<Remaining>, ghost s: seq<seq<Block>>,
                    ghost d: seq<seq<Block>>)
    returns (chip: seq<Block>, next: seq<Remaining>)
    requires Separate(bufs) && Snapshot(bufs, s, d) && |bufs| <= |chips| == |lanes| && at + LANES <= |chips|
    requires AllAt(bufs, s, d, pos, at, LANES, chips) && AllTrack(bufs, lanes, pos, at)
    modifies Targets(bufs)
    ensures |chip| == |next| == |chips| && AllAt(bufs, s, d, pos, at + LANES, LANES, chip) && AllTrack(bufs, next, pos, at + LANES)
  {
    var x := LoadAll(bufs, at, pos, lanes, chips, s, d);
    var y := ComputeGroup(bufs, at, chips, x);
    chip := StoreGroup(bufs, at, pos, chips, lanes, y, x, s, d);
    next := UpdateGroup(bufs, at, pos, lanes);
  }

  /** New lengths and masks of a group. */
  method UpdateGroup(bufs: seq<Buffer>, at: nat, ghost pos: nat, lanes: seq<Remaining>) returns (next: seq<Remaining>)
    requires at + LANES <= |lanes| && AllTrack(bufs, lanes, pos, at)
    ensures |next| == |lanes| && AllTrack(bufs, next, pos, at + LANES)
  {
    next := lanes;
    for i: nat := 0 to LANES
      invariant |next| == |lanes| && AllTrack(bufs, next, pos, at + i)
    {
      var r := next[at + i];
      NextTracks(r, Count(bufs, at + i), pos);
      next := next[at + i := Remaining(r.len64 - 8, UpdateMask(r.len64 - 8, r.mask))];
    }
  }

  /** What the lanes of a group hold before they are stored. */
  ghost predicate Stored(bufs: seq<Buffer>, s: seq<seq<Block>>, at: nat, pos: nat, chips: seq<Block>,
                         x: seq<Zmm<Block>>, y: seq<Zmm<Block>>)
    requires |s| == |bufs| && |x| == |y| == LANES && at + LANES <= |chips|
  {
    Computed(bufs, at, chips, x, y) && Loaded(bufs, s, at, pos, x)
  }

  /** Storing one lane leaves the progress of all other buffers as it is; a lane without a buffer stores nothing. */
  method StoreLane(bufs: seq<Buffer>, at: nat, i: nat, pos: nat, r: Remaining, y: seq<Zmm<Block>>, ghost x: seq<Zmm<Block>>,
                   chip: seq<Block>, ghost chips: seq<Block>, ghost s: seq<seq<Block>>, ghost d: seq<seq<Block>>)
    returns (next: seq<Block>)
    requires Tracks(r, Count(bufs, at + i), pos)
    requires Separate(bufs) && Snapshot(bufs, s, d) && |bufs| <= |chip| == |chips| && at + LANES <= |chip| && i < LANES == |x| == |y|
    requires AllAt(bufs, s, d, pos, at + i, LANES, chip) && Stored(bufs, s, at, pos, chips, x, y) && chip[at + i..] == chips[at + i..]
    modifies Targets(bufs)
    ensures |next| == |chips| && AllAt(bufs, s, d, pos, at + i + 1, LANES, next) && next[at + i + 1..] == chips[at + i + 1..]
  {
    hide Encrypt, Last, Tracks;
    var k := at + i;
    assert chip[k] == chip[k..][0] && chip[k + 1..] == chip[k..][1..] && chips[k + 1..] == chips[k..][1..];
    if k >= |bufs| {
      EmptyMask(r, pos);
    }
    if k < |bufs| {
      StoreMasked(bufs[k], pos, y[i], r, x[i], s[k], d[k], chip[k]);
    }
    next := chip[k := y[i].d];
    assert next[k + 1..] == chip[k + 1..];
  }

  method StoreGroup(bufs: seq<Buffer>, at: nat, pos: nat, chips: seq<Block>, lanes: seq<Remaining>, y: seq<Zmm<Block>>,
                    ghost x: seq<Zmm<Block>>, ghost s: seq<seq<Block>>, ghost d: seq<seq<Block>>)
    returns (chip: seq<Block>)
    requires at + LANES <= |lanes| && AllTrack(bufs, lanes, pos, at)
    requires Separate(bufs) && Snapshot(bufs, s, d) && |bufs| <= |chips| && at + LANES <= |chips| && |x| == |y| == LANES
    requires AllAt(bufs, s, d, pos, at, LANES, chips) && Stored(bufs, s, at, pos, chips, x, y)
    modifies Targets(bufs)
    ensures |chip| == |chips| && AllAt(bufs, s, d, pos, at + LANES, LANES, chip)
  {
    chip := chips;
    for i: nat := 0 to LANES
      invariant |chip| == |chips| && AllAt(bufs, s, d, pos, at + i, LANES, chip) && chip[at + i..] == chips[at + i..]
    {
      chip := StoreLane(bufs, at, i, pos, lanes[at + i], y, x, chip, chips, s, d);
    }
  }

  /** Every buffer holds its own CFB ciphertext. */
  ghost predicate Encrypted(bufs: seq<Buffer>, s: seq<seq<Block>>)
    requires |s| == |bufs|
    reads set i | 0 <= i < |bufs| :: bufs[i].dst
  {
    forall i :: 0 <= i < |bufs| ==> bufs[i].dst[..] == Encrypt(bufs[i].c, bufs[i].iv, s[i])
  }

  ghost function TargetContents(bufs: seq<Buffer>): (d: seq<seq<Block>>)
    reads set i | 0 <= i < |bufs| :: bufs[i].dst
    ensures |d| == |bufs| && forall i :: 0 <= i < |bufs| ==> d[i] == bufs[i].dst[..]
  {
    if bufs == [] then [] else
      assert forall i :: 0 <= i < |bufs| - 1 ==> bufs[1..][i] == bufs[i + 1];
      [bufs[0].dst[..]] + TargetContents(bufs[1..])
  }

  /** The initial vectors in their lanes, empty lanes zero. */
  method Vectors(bufs: seq<Buffer>, width: nat) returns (chip: seq<Block>)
    requires |bufs| <= width
    ensures |chip| == width && forall i :: 0 <= i < |bufs| ==> chip[i] == bufs[i].iv
  {
    chip := [];
    for i: nat := 0 to width
      invariant |chip| == i && forall j :: 0 <= j < i && j < |bufs| ==> chip[j] == bufs[j].iv
    {
      chip := chip + [if i < |bufs| then bufs[i].iv else Zeros(SIZE)];
    }
  }

  /** Before the first round nothing has been encrypted. */
  lemma AllAtStart(bufs: seq<Buffer>, s: seq<seq<Block>>, d: seq<seq<Block>>, step: nat, chip: seq<Block>)
    requires Separate(bufs) && Snapshot(bufs, s, d) && |bufs| <= |chip|
    requires forall i :: 0 <= i < |bufs| ==> bufs[i].src[..] == s[i] && bufs[i].dst[..] == d[i] && chip[i] == bufs[i].iv
    ensures AllAt(bufs, s, d, 0, 0, step, chip)
  {
  }

  /** All groups advance by four blocks. */
  method AllGroups(bufs: seq<Buffer>, width: nat, pos: nat, chips: seq<Block>, lanes: seq<Remaining>, ghost s: seq<seq<Block>>,
                   ghost d: seq<seq<Block>>)
    returns (chip: seq<Block>, next: seq<Remaining>)
    requires Separate(bufs) && Snapshot(bufs, s, d) && |bufs| <= |chips| == |lanes| == width && width % LANES == 0
    requires AllAt(bufs, s, d, pos, 0, LANES, chips) && AllTrack(bufs, lanes, pos, 0)
    modifies Targets(bufs)
    ensures |chip| == |next| == width && AllAt(bufs, s, d, pos + LANES, 0, LANES, chip) && AllTrack(bufs, next, pos + LANES, 0)
  {
    chip, next := chips, lanes;
    for g: nat := 0 to width / LANES
      invariant |chip| == |next| == width
      invariant AllAt(bufs, s, d, pos, LANES * g, LANES, chip) && AllTrack(bufs, next, pos, LANES * g)
    {
      chip, next := GroupRound(bufs, LANES * g, pos, chip, next, s, d);
    }
  }

  /** Lengths and masks at the start: empty where there is no buffer. */
  method FirstLanes(bufs: seq<Buffer>, width: nat) returns (lanes: seq<Remaining>, maxLen: nat)
    ensures |lanes| == width && AllTrack(bufs, lanes, 0, 0)
    ensures forall i :: 0 <= i < |bufs| && i < width ==> 2 * bufs[i].src.Length <= maxLen
  {
    lanes, maxLen := [], 0;
    for i: nat := 0 to width
      invariant |lanes| == i && AllTrack(bufs, lanes, 0, 0)
      invariant forall j :: 0 <= j < |bufs| && j < i ==> 2 * bufs[j].src.Length <= maxLen
    {
      var r := FirstLane(Count(bufs, i));
      lanes := lanes + [r];
      maxLen := if r.len64 > maxLen then r.len64 else maxLen;
    }
  }

  /** One lane at the start: an empty one is told apart from the others. */
  method FirstLane(n: nat) returns (r: Remaining)
    ensures Tracks(r, n, 0) && r.len64 == 2 * n
  {
    hide FirstMask, Tracks;
    FirstTracks(n);
    r := if n == 0 then Remaining(0, 0) else Remaining(2 * n, FirstMask(2 * n));
  }

  /** `aes_cfb16_enc_vaes_mb4`, `mb8` and `mb16`: `width` lanes, rounds of four blocks until the longest buffer is done. */
  method KernelVaes(bufs: seq<Buffer>, width: nat, ghost s: seq<seq<Block>>)
    requires Separate(bufs) && |bufs| <= width && width % LANES == 0 && |s| == |bufs|
    requires forall i :: 0 <= i < |bufs| ==> bufs[i].src[..] == s[i]
    modifies Targets(bufs)
    ensures Encrypted(bufs, s)
  {
    ghost var d := TargetContents(bufs);
    var lanes, maxLen: int := FirstLanes(bufs, width);
    var chip := Vectors(bufs, width);
    AllAtStart(bufs, s, d, LANES, chip);
    var pos: nat := 0;
    while maxLen >= 0
      invariant |chip| == |lanes| == width && AllAt(bufs, s, d, pos, 0, LANES, chip) && AllTrack(bufs, lanes, pos, 0)
      invariant forall i :: 0 <= i < |bufs| ==> 2 * |s[i]| <= maxLen + 2 * pos
      decreases maxLen + 8
    {
      chip, lanes := AllGroups(bufs, width, pos, chip, lanes, s, d);
      pos := pos + LANES;
      maxLen := maxLen - 8;
    }
    AllDone(bufs, s, d, pos, LANES, chip);
  }

  lemma AllDone(bufs: seq<Buffer>, s: seq<seq<Block>>, d: seq<seq<Block>>, pos: nat, step: nat, chip: seq<Block>)
    requires Snapshot(bufs, s, d) && |bufs| <= |chip| && AllAt(bufs, s, d, pos, 0, step, chip)
    requires forall i :: 0 <= i < |bufs| ==> |s[i]| <= pos
    ensures Encrypted(bufs, s)
  {
    forall i | 0 <= i < |bufs|
      ensures bufs[i].dst[..] == Encrypt(bufs[i].c, bufs[i].iv, s[i])
    {
      assert Progress(bufs[i], s[i], d[i], pos, chip[i]);
      assert s[i][..|s[i]|] == s[i];
    }
  }

  lemma OneBlock(c: Cipher, iv: Block, s: seq<Block>, d: seq<Block>, dst: seq<Block>, pos: nat, chip: Block, next: Block)
    requires pos < |s| == |d| && dst == Encrypt(c, iv, s[..pos]) + d[pos..]
    requires chip == Last(iv, Encrypt(c, iv, s[..pos])) && next == Xor(s[pos], c.enc(chip))
    ensures Splice(dst, pos, [next]) == Encrypt(c, iv, s[..pos + 1]) + d[pos + 1..]
    ensures next == Last(iv, Encrypt(c, iv, s[..pos + 1]))
  {
    var x := [s[pos]];
    EncryptAppend(c, iv, s[..pos], x);
    assert s[..pos + 1] == s[..pos] + x;
    assert Encrypt(c, chip, x) == [next] + Encrypt(c, next, x[1..]);
  }

  /** One block of one buffer; a finished buffer is left alone. */
  method StoreOne(b: Buffer, pos: nat, key: Block, ghost s: seq<Block>, ghost d: seq<Block>, ghost chip: Block) returns (next: Block)
    requires Progress(b, s, d, pos, chip) && key == b.c.enc(chip) && pos < b.src.Length
    modifies b.dst
    ensures Progress(b, s, d, pos + 1, next)
  {
    ghost var was := b.src[..];
    SameTail(was, s, pos, 1);
    assert b.src[pos] == s[pos] by {
      assert s[pos..pos + 1][0] == was[pos..pos + 1][0];
    }
    next := Xor(b.src[pos], key);
    OneBlock(b.c, b.iv, s, d, b.dst[..], pos, chip, next);
    Store(b.dst, pos, [next]);
    assert b.src[pos + 1..] == was[pos + 1..];
  }

  /** The number of blocks each lane still has, of which the first `done` have moved on. */
  ghost predicate Counted(bufs: seq<Buffer>, counts: seq<nat>, pos: nat, done: nat)
  {
    forall i :: 0 <= i < |counts| ==>
      var p := if i < done then pos + 1 else pos; counts[i] == if p < Count(bufs, i) then Count(bufs, i) - p else 0
  }

  method FirstCounts(bufs: seq<Buffer>, width: nat) returns (counts: seq<nat>, maxBlocks: nat)
    ensures |counts| == width && Counted(bufs, counts, 0, 0)
    ensures forall i :: 0 <= i < |bufs| && i < width ==> bufs[i].src.Length <= maxBlocks
  {
    counts, maxBlocks := [], 0;
    for i: nat := 0 to width
      invariant |counts| == i && Counted(bufs, counts, 0, 0)
      invariant forall j :: 0 <= j < |bufs| && j < i ==> bufs[j].src.Length <= maxBlocks
    {
      var n := Count(bufs, i);
      counts := counts + [n];
      maxBlocks := if n > maxBlocks then n else maxBlocks;
    }
  }

  /** Counting down a lane that has a block left. */
  lemma LaneCounted(bufs: seq<Buffer>, counts: seq<nat>, pos: nat, i: nat)
    requires i < |counts| && Counted(bufs, counts, pos, i)
    ensures counts[i] > 0 <==> pos < Count(bufs, i)
    ensures Counted(bufs, if counts[i] > 0 then counts[i := counts[i] - 1] else counts, pos, i + 1)
  {
  }

  lemma AllCounted(bufs: seq<Buffer>, counts: seq<nat>, pos: nat)
    ensures Counted(bufs, counts, pos, |counts|) ==> Counted(bufs, counts, pos + 1, 0)
  {
  }

  /** One block of every buffer that still has one. */
  method BlockRound(bufs: seq<Buffer>, pos: nat, chips: seq<Block>, counts: seq<nat>,
                    ghost s: seq<seq<Block>>, ghost d: seq<seq<Block>>)
    returns (chip: seq<Block>, left: seq<nat>)
    requires Separate(bufs) && Snapshot(bufs, s, d) && |bufs| <= |chips| == |counts|
    requires AllAt(bufs, s, d, pos, 0, 1, chips) && Counted(bufs, counts, pos, 0)
    modifies Targets(bufs)
    ensures |chip| == |left| == |chips| && AllAt(bufs, s, d, pos + 1, 0, 1, chip) && Counted(bufs, left, pos + 1, 0)
  {
    hide Encrypt, Last, Counted;
    chip, left := chips, counts;
    for i: nat := 0 to |chips|
      invariant |chip| == |left| == |chips| && AllAt(bufs, s, d, pos, i, 1, chip) && Counted(bufs, left, pos, i)
    {
      LaneCounted(bufs, left, pos, i);
      if left[i] > 0 {
        chip := LaneBlock(bufs, i, pos, chip, s, d);
        left := left[i := left[i] - 1];
      }
    }
    AllCounted(bufs, left, pos);
  }

  /** One block of one lane; the progress of all other buffers is as it was. */
  method LaneBlock(bufs: seq<Buffer>, i: nat, pos: nat, chip: seq<Block>, ghost s: seq<seq<Block>>, ghost d: seq<seq<Block>>)
    returns (next: seq<Block>)
    requires Separate(bufs) && Snapshot(bufs, s, d) && i < |bufs| <= |chip| && pos < bufs[i].src.Length
    requires AllAt(bufs, s, d, pos, i, 1, chip)
    modifies Targets(bufs)
    ensures |next| == |chip| && AllAt(bufs, s, d, pos, i + 1, 1, next)
  {
    var b := StoreOne(bufs[i], pos, bufs[i].c.enc(chip[i]), s[i], d[i], chip[i]);
    next := chip[i := b];
  }

  /** `aes_cfb16_enc_aesni_mb4`: block by block, each buffer as long as it has blocks. */
  method KernelAesNi(bufs: seq<Buffer>, width: nat, ghost s: seq<seq<Block>>)
    requires Separate(bufs) && |bufs| <= width && |s| == |bufs|
    requires forall i :: 0 <= i < |bufs| ==> bufs[i].src[..] == s[i]
    modifies Targets(bufs)
    ensures Encrypted(bufs, s)
  {
    hide Progress, Counted, Encrypted, AllAt;
    ghost var d := TargetContents(bufs);
    var counts, maxBlocks := FirstCounts(bufs, width);
    var chip := Vectors(bufs, width);
    AllAtStart(bufs, s, d, 1, chip);
    for block: nat := 0 to maxBlocks
      invariant |chip| == |counts| == width && AllAt(bufs, s, d, block, 0, 1, chip) && Counted(bufs, counts, block, 0)
    {
      chip, counts := BlockRound(bufs, block, chip, counts, s, d);
    }
    AllDone(bufs, s, d, maxBlocks, 1, chip);
  }

  datatype Status = NoErr | NullPtrErr | LengthErr | UnderRunErr | ContextMatchErr | Err

  /** What may be wrong with the pointers of one buffer. */
  datatype Fault = Fine | Null | ForeignContext

  datatype Path = Vaes | AesNi | Plain

  /** The status a buffer of this many bytes is given. */
  function BufferStatus(fault: Fault, len: int): Status
  {
    match fault
    case Null => NullPtrErr
    case ForeignContext => ContextMatchErr
    case Fine => if len < 1 then LengthErr else if len % SIZE != 0 then UnderRunErr else NoErr
  }

  /** How many lanes the next kernel has. */
  function WorkLoad(left: nat): (w: nat)
    ensures w % LANES == 0 && (left > 0 ==> w == 16 || left <= w)
  {
    if left > 8 then 16 else if left > 4 then 8 else 4
  }

  /** The next run of buffers through one kernel; the rest are not touched. */
  method OneGroup(bufs: seq<Buffer>, done: nat, take: nat, width: nat, path: Path, ghost s: seq<seq<Block>>)
    requires Separate(bufs) && |s| == |bufs| && done + take <= |bufs| && take <= width && (path.Vaes? ==> width % LANES == 0)
    requires forall i :: 0 <= i < done ==> bufs[i].dst[..] == Encrypt(bufs[i].c, bufs[i].iv, s[i])
    requires forall i :: done <= i < |bufs| ==> bufs[i].src[..] == s[i]
    modifies Targets(bufs)
    ensures forall i :: 0 <= i < done + take ==> bufs[i].dst[..] == Encrypt(bufs[i].c, bufs[i].iv, s[i])
    ensures forall i :: done + take <= i < |bufs| ==> bufs[i].src[..] == s[i]
  {
    var group := bufs[done..done + take];
    ghost var gs := s[done..done + take];
    if path.Vaes? {
      KernelVaes(group, width, gs);
    } else {
      KernelAesNi(group, width, gs);
    }
    assert forall i :: done <= i < done + take ==> bufs[i] == group[i - done] && s[i] == gs[i - done];
  }

  /** One kernel call: so many buffers from some index on, in so many lanes. */
  datatype Call = Call(first: nat, count: nat, width: nat)

  /** Calls that take up the buffers below `n` run by run, none of them empty or overfull. */
  ghost predicate Runs(calls: seq<Call>, n: nat)
  {
    && (forall i :: 0 <= i < |calls| ==> 0 < calls[i].count <= calls[i].width)
    && (forall i :: 0 <= i < |calls| ==> calls[i].first == if i == 0 then 0 else calls[i - 1].first + calls[i - 1].count)
    && n == if calls == [] then 0 else calls[|calls| - 1].first + calls[|calls| - 1].count
  }

  ghost predicate Takes(call: Call, k: nat)
  {
    call.first <= k < call.first + call.count
  }

  lemma {:induction false} RunsAscend(calls: seq<Call>, n: nat, i: nat, j: nat)
    requires Runs(calls, n) && i < j < |calls|
    ensures calls[i].first + calls[i].count <= calls[j].first
    decreases j
  {
    if j == i + 1 {
    } else {
      RunsAscend(calls, n, i, j - 1);
    }
  }

  /** The widest kernel that is not mostly empty: 16, 8 or 4 lanes of 512-bit registers, 4 lanes of AES-NI, or one buffer at a time. */
  ghost predicate Chosen(calls: seq<Call>, n: nat, path: Path)
  {
    forall i :: 0 <= i < |calls| ==>
      var left, width := n - calls[i].first, calls[i].width;
      && calls[i].count == (if left < width then left else width)
      && width == if path.AesNi? then 4 else if path.Plain? then 1 else if left > 8 then 16 else if left > 4 then 8 else 4
  }

  /** Every buffer enters exactly one call. */
  lemma {:induction false} OneCallEach(calls: seq<Call>, n: nat, k: nat)
    requires Runs(calls, n) && k < n
    ensures exists i :: 0 <= i < |calls| && Takes(calls[i], k)
    ensures forall i, j :: 0 <= i < |calls| && 0 <= j < |calls| && Takes(calls[i], k) && Takes(calls[j], k) ==> i == j
    decreases |calls|
  {
    var last := |calls| - 1;
    if k >= calls[last].first {
      assert Takes(calls[last], k);
    } else {
      OneCallEach(calls[..last], calls[last].first, k);
      var i :| 0 <= i < last && Takes(calls[..last][i], k);
      assert Takes(calls[i], k);
    }
    forall i, j | 0 <= i < |calls| && 0 <= j < |calls| && Takes(calls[i], k) && Takes(calls[j], k)
      ensures i == j
    {
      if i < j {
        RunsAscend(calls, n, i, j);
      } else if j < i {
        RunsAscend(calls, n, j, i);
      }
    }
  }

  /** Kernel calls for all buffers: each takes the next run of buffers, as many as the chosen kernel has lanes. */
  method Groups(bufs: seq<Buffer>, path: Path, ghost s: seq<seq<Block>>) returns (ghost calls: seq<Call>)
    requires Separate(bufs) && |s| == |bufs| && forall i :: 0 <= i < |bufs| ==> bufs[i].src[..] == s[i]
    modifies Targets(bufs)
    ensures Encrypted(bufs, s) && Runs(calls, |bufs|) && Chosen(calls, |bufs|, path)
  {
    var done: nat := 0;
    calls := [];
    while done < |bufs|
      invariant done <= |bufs| && Runs(calls, done) && Chosen(calls, |bufs|, path)
      invariant forall i :: 0 <= i < done ==> bufs[i].dst[..] == Encrypt(bufs[i].c, bufs[i].iv, s[i])
      invariant forall i :: done <= i < |bufs| ==> bufs[i].src[..] == s[i]
    {
      var width := if path.Vaes? then WorkLoad(|bufs| - done) else if path.AesNi? then 4 else 1;
      var take := if |bufs| - done < width then |bufs| - done else width;
      OneGroup(bufs, done, take, width, path, s);
      calls := calls + [Call(done, take, width)];
      done := done + take;
    }
  }

  /**
   * `ippsAES_EncryptCFB16_MB`. Nothing is written unless all pointers are good, every length is a positive number of whole blocks
   * and all keys have one size; then every buffer ends with its own CFB ciphertext, whatever the other buffers are.
   */
  method EncryptMb(bufs: seq<Buffer>, faults: seq<Fault>, lens: seq<int>, keySizes: seq<nat>, path: Path, ghost s: seq<seq<Block>>)
    returns (overall: Status, status: seq<Status>)
    requires Separate(bufs) && |faults| == |lens| == |keySizes| == |s| == |bufs|
    requires forall i :: 0 <= i < |bufs| ==> bufs[i].src[..] == s[i]
    requires forall i :: 0 <= i < |bufs| && faults[i].Fine? && lens[i] >= 1 && lens[i] % 16 == 0 ==> lens[i] == 16 * bufs[i].src.Length
    modifies Targets(bufs)
    ensures |bufs| < 1 ==> overall == LengthErr
    ensures |status| == |bufs|
    ensures forall i :: 0 <= i < |status| ==>
      status[i] == if faults[i].Null? then NullPtrErr else if faults[i].ForeignContext? then ContextMatchErr
                   else if lens[i] < 1 then LengthErr else if lens[i] % 16 != 0 then UnderRunErr else NoErr
    ensures |bufs| >= 1 ==> overall == if exists i :: 0 <= i < |status| && status[i] != NoErr then Err
                                       else if exists i :: 0 <= i < |bufs| && keySizes[i] != keySizes[0] then ContextMatchErr else NoErr
    ensures if overall == NoErr then Encrypted(bufs, s) else forall i :: 0 <= i < |bufs| ==> bufs[i].dst[..] == old(bufs[i].dst[..])
  {
    if |bufs| < 1 {
      return LengthErr, [];
    }
    status := [];
    var valid := true;
    for i: nat := 0 to |bufs|
      invariant |status| == i && forall j :: 0 <= j < i ==> status[j] == BufferStatus(faults[j], lens[j])
      invariant valid <==> forall j :: 0 <= j < i ==> BufferStatus(faults[j], lens[j]) == NoErr
    {
      status := status + [BufferStatus(faults[i], lens[i])];
      valid := valid && BufferStatus(faults[i], lens[i]) == NoErr;
    }
    if !valid {
      return Err, status;
    }
    for i: nat := 0 to |bufs|
      invariant forall j :: 0 <= j < i ==> keySizes[j] == keySizes[0]
    {
      if keySizes[i] != keySizes[0] {
        return ContextMatchErr, status;
      }
    }
    ghost var calls := Groups(bufs, path, s);
    return NoErr, status;
  }
}
