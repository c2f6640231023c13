/** The constants an initialised engine hands to the dual exponentiation: what initialisation leaves is what the driver relies on. */
module Handover {
  import opened Digits
  import opened Words
  import opened Lanes
  import opened DualExp
  import Engine
  import Driver

  lemma WordBase()
    requires CHUNK_BITS == 64
    ensures B == W64
  {
    Windows.Pow2Word();
  }

  method CopyWords(a: array<word>, o: nat, n: nat) returns (c: array<u64>)
    requires B == W64 && o + n <= a.Length
    ensures fresh(c) && c[..] == a[o..o + n]
  {
    c := new u64[n];
    for i: nat := 0 to n
      invariant forall j :: 0 <= j < i ==> c[j] == a[o + j]
    {
      c[i] := a[o + i];
    }
  }

  /** Modulus, converter and factor of an engine whose top word is not zero. */
  method Read(e: Engine.ModEngine) returns (d: Driver.Constants)
    requires CHUNK_BITS == 64 && e.Valid() && e.mem[e.n - 1] > 0
    ensures fresh(d.modulus) && fresh(d.rr) && d.modulus.Length == e.n
    ensures d.Valid() && d.M() == e.M() && d.modulus[..] == e.mem[..e.n]
  {
    WordBase();
    e.Constants();
    Engine.OffIs(CHUNK_BITS, e.n);
    var modulus := CopyWords(e.mem, 0, e.n);
    var rr := CopyWords(e.mem, Engine.Off(e.n, 2), e.n);
    d := Driver.Constants(modulus, rr, e.k0);
    ValSingle(e.mem[0..1], B);
  }

  /**
   * The dual exponentiation on two initialised engines: each output is at most its modulus and congruent to its power, or the size is
   * not supported.
   */
  method Exponentiate(dataY: Pair<array<u64>>, dataX: Pair<array<u64>>, dataE: Pair<array<u64>>,
                      el: Engine.ModEngine, er: Engine.ModEngine)
    returns (len: nat)
    requires CHUNK_BITS == 64 && el.Valid() && er.Valid() && el.n == er.n && el.mem[el.n - 1] > 0 && er.mem[er.n - 1] > 0
    requires Driver.SizeInBits(el.mem[..el.n]) == Driver.SizeInBits(er.mem[..er.n])
    requires dataY.l.Length == dataE.l.Length == dataY.r.Length == dataE.r.Length == el.n
    requires dataX.l.Length <= el.n && dataX.r.Length <= el.n
    requires dataY.l != dataY.r
    modifies dataY.l, dataY.r
    ensures var bits := Driver.SizeInBits(old(el.mem[..el.n]));
            if bits == 1024 || bits == 1536 || bits == 2048 then
              && len == 2 * (bits / 64)
              && Driver.ReducedPower(Val(dataY.l[..], W64), old(Val(dataX.l[..], W64)), old(Val(dataE.l[..], W64)), old(el.M()))
              && Driver.ReducedPower(Val(dataY.r[..], W64), old(Val(dataX.r[..], W64)), old(Val(dataE.r[..], W64)), old(er.M()))
            else len == 0 && dataY.l[..] == old(dataY.l[..]) && dataY.r[..] == old(dataY.r[..])
  {
    hide Val, Driver.SizeInBits, Driver.KernelFor;
    var dl := Read(el);
    var dr := Read(er);
    len := Driver.DualExpWin(dataY, dataX, dataE, Pair(dl, dr));
  }
}
