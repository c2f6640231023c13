/**
 * Galois/Counter Mode on AVX2 registers: counters kept in pairs, sixteen blocks a turn and then eight, four, two and one, against the
 * sequential counter mode and hash of sections 6.4 and 6.5 of NIST SP 800-38D.
 */
module Gcm {
  import opened Blocks
  import opened Aggregate

  /** Successive counter blocks, and how a counter block is moved forward. */
  datatype Stream = Stream(at: nat -> Block, step: (Block, nat) -> Block)
  {
    ghost predicate Moves(pos: nat, k: nat)
    {
      step(at(pos), k) == at(pos + k)
    }

    ghost predicate Steps()
    {
      forall pos: nat, k: nat :: Moves(pos, k)
    }
  }

  /** The key stream of counter mode: block `j` comes from the `j`-th counter block. */
  function KeyStream(c: Cipher, q: Stream): nat -> Block
  {
    (j: nat) => c.enc(q.at(j))
  }

  /** Blocks from number `from` on, xored with the key stream. */
  function Gctr(ks: nat -> Block, from: nat, p: seq<Block>): (ct: seq<Block>)
    ensures |ct| == |p| && forall j :: 0 <= j < |p| ==> ct[j] == Xor(p[j], ks(from + j))
  {
    seq(|p|, j requires 0 <= j < |p| => Xor(p[j], ks(from + j)))
  }

  lemma GctrAppend(ks: nat -> Block, from: nat, x: seq<Block>, y: seq<Block>)
    ensures Gctr(ks, from, x + y) == Gctr(ks, from, x) + Gctr(ks, from + |x|, y)
  {
  }

  /** Counter mode is its own inverse. */
  lemma GctrUndoes(ks: nat -> Block, from: nat, p: seq<Block>)
    ensures Gctr(ks, from, Gctr(ks, from, p)) == p
  {
    forall j | 0 <= j < |p|
      ensures Gctr(ks, from, Gctr(ks, from, p))[j] == p[j]
    {
      XorUndoes(p[j], ks(from + j));
    }
  }

  function Words<W>(word: Block -> W, s: seq<Block>): (w: seq<W>)
    ensures |w| == |s| && forall i :: 0 <= i < |s| ==> w[i] == word(s[i])
  {
    seq(|s|, i requires 0 <= i < |s| => word(s[i]))
  }

  lemma WordsAppend<W>(word: Block -> W, x: seq<Block>, y: seq<Block>)
    ensures Words(word, x + y) == Words(word, x) + Words(word, y)
  {
  }

  /** Which side is hashed: the output when encrypting, the input when decrypting. */
  datatype Direction = Encrypting | Decrypting

  function Hashed(dir: Direction, ks: nat -> Block, from: nat, s: seq<Block>): (h: seq<Block>)
    ensures |h| == |s|
  {
    if dir.Encrypting? then Gctr(ks, from, s) else s
  }

  /** Key stream, hash and contents on entry. */
  datatype Task<!W(!new), !P(!new)> =
    Task(ks: nat -> Block, word: Block -> W, h: Scheme<W, P>, key: W, y: W, dir: Direction, s: seq<Block>, d: seq<Block>)
  {
    /** The hash after some blocks, from the hash before them. */
    function HashFrom(hash: W, from: nat, x: seq<Block>): W
    {
      h.Horner(key, hash, Words(word, Hashed(dir, ks, from, x)))
    }

    /** The part done so far, in both buffers and the hash. */
    ghost predicate Done(src: seq<Block>, dst: seq<Block>, pos: nat, hash: W)
    {
      && |s| == |d| && pos <= |s| == |src| == |dst|
      && src[pos..] == s[pos..] && dst == Gctr(ks, 0, s[..pos]) + d[pos..] && hash == HashFrom(y, 0, s[..pos])
    }

    /** Some more blocks. */
    lemma DoneNext(dst: seq<Block>, pos: nat, hash: W, n: nat)
      requires Done(s, dst, pos, hash) && pos + n <= |s|
      ensures Splice(dst, pos, Gctr(ks, pos, s[pos..pos + n])) == Gctr(ks, 0, s[..pos + n]) + d[pos + n..]
      ensures HashFrom(hash, pos, s[pos..pos + n]) == HashFrom(y, 0, s[..pos + n])
    {
      var x, z := s[..pos], s[pos..pos + n];
      GctrAppend(ks, 0, x, z);
      assert s[..pos + n] == x + z;
      WordsAppend(word, Hashed(dir, ks, 0, x), Hashed(dir, ks, pos, z));
      h.HornerAppend(key, y, Words(word, Hashed(dir, ks, 0, x)), Words(word, Hashed(dir, ks, pos, z)));
    }
  }

  /** A register of two consecutive counters. */
  function CounterPair(q: Stream, pos: nat): Ymm<Block>
  {
    Ymm(q.at(pos), q.at(pos + 1))
  }

  /** The first `g` counter registers hold the next `2 * g` counters. */
  ghost predicate Ready(ctrs: seq<Ymm<Block>>, q: Stream, pos: nat, g: nat)
  {
    g <= |ctrs| && forall i :: 0 <= i < g ==> ctrs[i] == CounterPair(q, pos + 2 * i)
  }

  /** Both counters of a register moved forward. */
  function Increment(q: Stream, r: Ymm<Block>, k: nat): Ymm<Block>
  {
    Ymm(q.step(r.lo, k), q.step(r.hi, k))
  }

  /** The key stream of the first `g` registers xored with as many pairs of blocks. */
  method XorStream(c: Cipher, ctrs: seq<Ymm<Block>>, g: nat, x: seq<Block>, q: Stream, ghost pos: nat) returns (out: seq<Block>)
    requires Ready(ctrs, q, pos, g) && |x| == 2 * g
    ensures out == Gctr(KeyStream(c, q), pos, x)
  {
    ghost var ks := KeyStream(c, q);
    out := [];
    for i: nat := 0 to g
      invariant |out| == 2 * i && forall j :: 0 <= j < 2 * i ==> out[j] == Xor(x[j], ks(pos + j))
    {
      assert ks(pos + 2 * i) == c.enc(ctrs[i].lo) && ks(pos + 2 * i + 1) == c.enc(ctrs[i].hi);
      out := out + [Xor(x[2 * i], c.enc(ctrs[i].lo)), Xor(x[2 * i + 1], c.enc(ctrs[i].hi))];
    }
  }

  /** Hash registers: the hash so far joins the low lane of the first. */
  method HashRegisters<W(!new), P(!new)>(t: Task<W, P>, hash: W, x: seq<Block>, g: nat) returns (gh: seq<Ymm<W>>)
    requires 0 < g && |x| == 2 * g
    ensures |gh| == g && Paired(gh, t.h.Joined(hash, Words(t.word, x)))
  {
    ghost var w := t.h.Joined(hash, Words(t.word, x));
    gh := [Ymm(t.h.xor(hash, t.word(x[0])), t.word(x[1]))];
    for i: nat := 1 to g
      invariant |gh| == i && forall j :: 0 <= j < i ==> gh[j] == Ymm(w[2 * j], w[2 * j + 1])
    {
      gh := gh + [Ymm(t.word(x[2 * i]), t.word(x[2 * i + 1]))];
    }
  }

  /** The first `g` counter registers moved past the blocks of a stage; the others are left behind. */
  method Advance(ctrs: seq<Ymm<Block>>, g: nat, q: Stream, ghost pos: nat) returns (next: seq<Ymm<Block>>)
    requires q.Steps() && Ready(ctrs, q, pos, g)
    ensures |next| == |ctrs| && Ready(next, q, pos + 2 * g, g)
  {
    next := ctrs;
    for i: nat := 0 to g
      invariant |next| == |ctrs|
      invariant forall j :: 0 <= j < i ==> next[j] == CounterPair(q, pos + 2 * g + 2 * j)
      invariant forall j :: i <= j < g ==> next[j] == ctrs[j]
    {
      assert q.Moves(pos + 2 * i, 2 * g) && q.Moves(pos + 2 * i + 1, 2 * g);
      next := next[i := Increment(q, next[i], 2 * g)];
    }
  }

  /** What the stages need of the hash keys. */
  ghost predicate Keyed<W(!new), P(!new)>(t: Task<W, P>, hk: seq<Ymm<W>>, keys: seq<W>)
  {
    t.h.Linear() && |hk| == 8 && KeyRegisters(hk, keys) && t.h.KeyPowers(keys) && keys[0] == t.key
  }

  /** Counter mode and hash of `2 * g` blocks: all are loaded before any is stored. */
  method PairedBlocks<W(!new), P(!new)>(t: Task<W, P>, c: Cipher, src: array<Block>, dst: array<Block>, pos: nat, g: nat,
                                       ctrs: seq<Ymm<Block>>, hk: seq<Ymm<W>>, hash: W, q: Stream, ghost keys: seq<W>)
    returns (hash': W)
    requires 0 < g <= 8 && Keyed(t, hk, keys) && t.ks == KeyStream(c, q) && q.Steps()
    requires t.Done(src[..], dst[..], pos, hash) && pos + 2 * g <= src.Length && Ready(ctrs, q, pos, g)
    modifies dst
    ensures t.Done(src[..], dst[..], pos + 2 * g, hash')
  {
    hide Words;
    ghost var n := 2 * g;
    ghost var was := src[..];
    SameTail(was, t.s, pos, n);
    t.DoneNext(dst[..], pos, hash, n);
    var x := src[pos..pos + 2 * g];
    var out := XorStream(c, ctrs, g, x, q, pos);
    var b := if t.dir.Encrypting? then out else x;
    var gh := HashRegisters(t, hash, b, g);
    hash' := Hash(t.h, gh, hk, keys, hash, Words(t.word, b));
    Store(dst, pos, out);
    assert src[pos + n..] == was[pos + n..];
  }

  /** One stage with its counters. */
  method Stage<W(!new), P(!new)>(t: Task<W, P>, c: Cipher, src: array<Block>, dst: array<Block>, pos: nat, g: nat,
                                 ctrs: seq<Ymm<Block>>, hk: seq<Ymm<W>>, hash: W, q: Stream, ghost keys: seq<W>)
    returns (hash': W, next: seq<Ymm<Block>>)
    requires 0 < g <= 8 && Keyed(t, hk, keys) && t.ks == KeyStream(c, q) && q.Steps()
    requires t.Done(src[..], dst[..], pos, hash) && pos + 2 * g <= src.Length && Ready(ctrs, q, pos, g)
    modifies dst
    ensures t.Done(src[..], dst[..], pos + 2 * g, hash') && |next| == |ctrs| && Ready(next, q, pos + 2 * g, g)
  {
    hash' := PairedBlocks(t, c, src, dst, pos, g, ctrs, hk, hash, q, keys);
    next := Advance(ctrs, g, q, pos);
  }

  lemma HornerOne<W(!new), P(!new)>(t: Task<W, P>, hash: W, b: Block)
    ensures t.h.Horner(t.key, hash, Words(t.word, [b])) == t.h.Dot(t.h.xor(hash, t.word(b)), t.key)
  {
    var w := Words(t.word, [b]);
    assert w[1..] == [];
    assert t.h.Horner(t.key, t.h.Dot(t.h.xor(hash, w[0]), t.key), w[1..]) == t.h.Dot(t.h.xor(hash, w[0]), t.key);
  }

  /** A single block, in the low lanes. */
  method SingleBlock<W(!new), P(!new)>(t: Task<W, P>, stream: Block, src: array<Block>, dst: array<Block>, pos: nat, hash: W)
    returns (hash': W)
    requires t.Done(src[..], dst[..], pos, hash) && pos < src.Length && stream == t.ks(pos)
    modifies dst
    ensures t.Done(src[..], dst[..], pos + 1, hash')
  {
    ghost var was := src[..];
    SameTail(was, t.s, pos, 1);
    t.DoneNext(dst[..], pos, hash, 1);
    var x := src[pos];
    assert t.s[pos..pos + 1] == was[pos..pos + 1] == [x];
    var out := Xor(x, stream);
    assert Gctr(t.ks, pos, [x]) == [out];
    var b := if t.dir.Encrypting? then out else x;
    HornerOne(t, hash, b);
    hash' := t.h.Dot(t.h.xor(hash, t.word(b)), t.key);
    Store(dst, pos, [out]);
    assert src[pos + 1..] == was[pos + 1..];
  }

  /** Counter registers for the first sixteen blocks, each two past the one before. */
  method FirstCounters(first: Block, q: Stream) returns (ctrs: seq<Ymm<Block>>)
    requires q.Steps() && first == q.at(0)
    ensures |ctrs| == 8 && Ready(ctrs, q, 0, 8)
  {
    assert q.Moves(0, 1);
    var r := Ymm(first, q.step(first, 1));
    ctrs := [];
    for i: nat := 0 to 8
      invariant |ctrs| == i && Ready(ctrs, q, 0, i) && r == CounterPair(q, 2 * i)
    {
      ctrs := ctrs + [r];
      assert q.Moves(2 * i, 2) && q.Moves(2 * i + 1, 2);
      r := Increment(q, r, 2);
    }
  }

  /** One block and its counter. */
  method NextSingle<W(!new), P(!new)>(t: Task<W, P>, c: Cipher, src: array<Block>, dst: array<Block>, pos: nat, at: Block, hash: W,
                                      q: Stream)
    returns (hash': W, next: Block)
    requires t.Done(src[..], dst[..], pos, hash) && pos < src.Length && at == q.at(pos) && t.ks == KeyStream(c, q) && q.Steps()
    modifies dst
    ensures t.Done(src[..], dst[..], pos + 1, hash') && next == q.at(pos + 1)
  {
    hash' := SingleBlock(t, c.enc(at), src, dst, pos, hash);
    assert q.Moves(pos, 1);
    next := q.step(at, 1);
  }

  method Singles<W(!new), P(!new)>(t: Task<W, P>, c: Cipher, src: array<Block>, dst: array<Block>, from: nat, first: Block, hash: W,
                                   q: Stream)
    returns (hash': W, next: Block)
    requires t.Done(src[..], dst[..], from, hash) && first == q.at(from) && t.ks == KeyStream(c, q) && q.Steps()
    modifies dst
    ensures t.Done(src[..], dst[..], src.Length, hash') && next == q.at(src.Length)
  {
    var pos := from;
    hash', next := hash, first;
    while pos < src.Length
      invariant pos <= src.Length && t.Done(src[..], dst[..], pos, hash') && next == q.at(pos)
    {
      hash', next := NextSingle(t, c, src, dst, pos, next, hash', q);
      pos := pos + 1;
    }
  }

  /** One stage if there are blocks for it. */
  method MaybeStage<W(!new), P(!new)>(t: Task<W, P>, c: Cipher, src: array<Block>, dst: array<Block>, from: nat, g: nat,
                                      ctrs: seq<Ymm<Block>>, hk: seq<Ymm<W>>, hash: W, q: Stream, ghost keys: seq<W>)
    returns (hash': W, next: seq<Ymm<Block>>, pos: nat)
    requires 0 < g <= 8 && Keyed(t, hk, keys) && t.ks == KeyStream(c, q) && q.Steps()
    requires t.Done(src[..], dst[..], from, hash) && src.Length - from < 4 * g && Ready(ctrs, q, from, g)
    modifies dst
    ensures t.Done(src[..], dst[..], pos, hash') && src.Length - pos < 2 * g && Ready(next, q, pos, g)
  {
    hash', next, pos := hash, ctrs, from;
    if src.Length - from >= 2 * g {
      hash', next := Stage(t, c, src, dst, from, g, ctrs, hk, hash, q, keys);
      pos := from + 2 * g;
    }
  }

  /** Fewer than sixteen blocks: at most one stage each of eight, four and two, and then one by one. */
  method Tail<W(!new), P(!new)>(t: Task<W, P>, c: Cipher, src: array<Block>, dst: array<Block>, from: nat,
                                ctrs: seq<Ymm<Block>>, hk: seq<Ymm<W>>, hash: W, q: Stream, ghost keys: seq<W>)
    returns (hash': W, next: Block)
    requires Keyed(t, hk, keys) && t.ks == KeyStream(c, q) && q.Steps()
    requires t.Done(src[..], dst[..], from, hash) && src.Length - from < 16 && Ready(ctrs, q, from, 8)
    modifies dst
    ensures t.Done(src[..], dst[..], src.Length, hash') && next == q.at(src.Length)
  {
    var regs, pos;
    hash', regs, pos := MaybeStage(t, c, src, dst, from, 4, ctrs, hk, hash, q, keys);
    hash', regs, pos := MaybeStage(t, c, src, dst, pos, 2, regs, hk, hash', q, keys);
    hash', regs, pos := MaybeStage(t, c, src, dst, pos, 1, regs, hk, hash', q, keys);
    hash', next := Singles(t, c, src, dst, pos, regs[0].lo, hash', q);
  }

  /** All blocks of a task: sixteen a turn, then the tail. */
  method Run<W(!new), P(!new)>(t: Task<W, P>, c: Cipher, src: array<Block>, dst: array<Block>, hk: seq<Ymm<W>>, first: Block,
                               q: Stream, ghost keys: seq<W>)
    returns (hash: W, next: Block)
    requires Keyed(t, hk, keys) && t.ks == KeyStream(c, q) && q.Steps() && first == q.at(0)
    requires src.Length == dst.Length && t.s == src[..] && t.d == dst[..]
    modifies dst
    ensures t.Done(src[..], dst[..], src.Length, hash) && next == q.at(src.Length)
  {
    var regs := FirstCounters(first, q);
    var pos: nat := 0;
    hash := t.y;
    assert Words(t.word, Hashed(t.dir, t.ks, 0, t.s[..0])) == [];
    while src.Length - pos >= 16
      invariant pos <= src.Length && t.Done(src[..], dst[..], pos, hash) && |regs| == 8 && Ready(regs, q, pos, 8)
    {
      hash, regs := Stage(t, c, src, dst, pos, 8, regs, hk, hash, q, keys);
      pos := pos + 16;
    }
    hash, next := Tail(t, c, src, dst, pos, regs, hk, hash, q, keys);
  }
}
