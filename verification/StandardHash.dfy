/** The hash of Galois/Counter Mode as sections 6.3 and 6.4 of NIST SP 800-38D define it, on bit strings with the leftmost bit first. */
module StandardHash {
  import opened Ghash

  /** The constant R: 11100001 and zeros. */
  predicate Feedback(i: nat)
  {
    i == 0 || i == 1 || i == 2 || i == 7
  }

  /** One turn of V: shifted right, and R added when the bit shifted out is one. */
  function Turned(v: seq<bool>): (w: seq<bool>)
    requires v != []
    ensures |w| == |v|
  {
    seq(|v|, i requires 0 <= i < |v| => (i > 0 && v[i - 1]) != (v[|v| - 1] && Feedback(i)))
  }

  /** The turns of Z and V for the bits of X, from left to right. */
  function Turns(x: seq<bool>, v: seq<bool>, z: seq<bool>): (r: seq<bool>)
    requires |v| == |z| > 0
    ensures |r| == |z|
    decreases |x|
  {
    if x == [] then z else Turns(x[1..], Turned(v), if x[0] then XorBits(z, v) else z)
  }

  /** Zero bits add nothing. */
  lemma {:induction false} NothingTurns(x: seq<bool>, v: seq<bool>, z: seq<bool>)
    requires |v| == |z| > 0 && forall i :: 0 <= i < |x| ==> !x[i]
    ensures Turns(x, v, z) == z
    decreases |x|
  {
    if x == [] {
    } else {
      NothingTurns(x[1..], Turned(v), z);
    }
  }

  function Product(x: seq<bool>, y: seq<bool>): (z: seq<bool>)
    requires y != []
    ensures |z| == |y|
  {
    Turns(x, y, seq(|y|, _ => false))
  }

  /** The hash of blocks from a starting value, for the hash subkey `h`. */
  function Hash(h: seq<bool>, y: seq<bool>, x: seq<seq<bool>>): (z: seq<bool>)
    requires |h| == |y| > 0 && forall i :: 0 <= i < |x| ==> |x[i]| == |h|
    ensures |z| == |h|
    decreases |x|
  {
    if x == [] then y else Hash(h, Product(XorBits(y, x[0]), h), x[1..])
  }
}
